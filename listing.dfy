/** The ordering step of the `list` command in `src/main.rs`: the fetched
    episodes are sorted in place, stably, by `id` or by `pub_date`. */
module Listing {
  import opened Rust
  import opened Time
  import opened Snapcast

  /** The sort keys the command line accepts (`value_parser = ["id", "pub_date"]`);
      any other key reaches `unreachable!` in the comparator. */
  predicate ValidSortKey(sort: string)
  {
    sort == "id" || sort == "pub_date"
  }

  /** The value the comparator orders by: the numeric id, or the instant
      the publication date denotes (offsets are compared in UTC). */
  function SortKey(sort: string): Episode -> int
    requires ValidSortKey(sort)
  {
    (e: Episode) => if sort == "pub_date" then Instant(e.pubDate) else e.id
  }

  /** `s` is nondecreasing in the key. */
  predicate SortedBy(key: Episode -> int, s: seq<Episode>)
  {
    forall i, j :: 0 <= i < j < |s| ==> key(s[i]) <= key(s[j])
  }

  /** Every key in `s` is at most `bound`. */
  predicate KeysAtMost(key: Episode -> int, s: seq<Episode>, bound: int)
  {
    forall i :: 0 <= i < |s| ==> key(s[i]) <= bound
  }

  /** The episodes of `s` whose key is `k`, in their order in `s`. */
  function WithKey(key: Episode -> int, s: seq<Episode>, k: int): (r: seq<Episode>)
    ensures forall i :: 0 <= i < |r| ==> key(r[i]) == k
    ensures |r| <= |s|
  {
    if s == [] then []
    else WithKey(key, s[..|s| - 1], k) + (if key(s[|s| - 1]) == k then [s[|s| - 1]] else [])
  }

  // ---------------------------------------------------------------------
  // The specification: a stable insertion sort on values

  /** `x` placed into `s` after every element whose key is not greater
      than its own, scanning from the right. */
  function InsertStable(key: Episode -> int, x: Episode, s: seq<Episode>): (r: seq<Episode>)
    ensures |r| == |s| + 1
    decreases |s|
  {
    if s == [] || key(s[|s| - 1]) <= key(x) then s + [x]
    else InsertStable(key, x, s[..|s| - 1]) + [s[|s| - 1]]
  }

  /** The order `sort_by` produces: each element in turn inserted into the
      sorted prefix before it. */
  function StableSort(key: Episode -> int, s: seq<Episode>): (r: seq<Episode>)
    ensures |r| == |s|
  {
    if s == [] then []
    else InsertStable(key, s[|s| - 1], StableSort(key, s[..|s| - 1]))
  }

  lemma {:induction false} InsertStableKeysAtMost(key: Episode -> int, x: Episode, s: seq<Episode>, bound: int)
    requires KeysAtMost(key, s, bound) && key(x) <= bound
    ensures KeysAtMost(key, InsertStable(key, x, s), bound)
    decreases |s|
  {
    if s != [] && key(s[|s| - 1]) > key(x) {
      var init := s[..|s| - 1];
      assert KeysAtMost(key, init, bound) by {
        forall i | 0 <= i < |init| ensures key(init[i]) <= bound { assert init[i] == s[i]; }
      }
      InsertStableKeysAtMost(key, x, init, bound);
    }
  }

  /** Inserting into a sorted sequence keeps it sorted. */
  lemma {:induction false} InsertStableSorted(key: Episode -> int, x: Episode, s: seq<Episode>)
    requires SortedBy(key, s)
    ensures SortedBy(key, InsertStable(key, x, s))
    decreases |s|
  {
    if s == [] {
    } else if key(s[|s| - 1]) <= key(x) {
      var r := s + [x];
      forall i, j | 0 <= i < j < |r| ensures key(r[i]) <= key(r[j]) {
        if j == |s| {
          assert key(r[i]) <= key(s[|s| - 1]);
        }
      }
    } else {
      var init, last := s[..|s| - 1], s[|s| - 1];
      assert SortedBy(key, init);
      InsertStableSorted(key, x, init);
      assert KeysAtMost(key, init, key(last));
      InsertStableKeysAtMost(key, x, init, key(last));
      var r := InsertStable(key, x, init) + [last];
      forall i, j | 0 <= i < j < |r| ensures key(r[i]) <= key(r[j]) {
        if j == |r| - 1 {
          assert r[i] == InsertStable(key, x, init)[i];
        }
      }
    }
  }

  /** The result is nondecreasing in the chosen key. */
  lemma {:induction false} StableSortSorted(key: Episode -> int, s: seq<Episode>)
    ensures SortedBy(key, StableSort(key, s))
  {
    if s != [] {
      StableSortSorted(key, s[..|s| - 1]);
      InsertStableSorted(key, s[|s| - 1], StableSort(key, s[..|s| - 1]));
    }
  }

  lemma {:induction false} InsertStablePermutes(key: Episode -> int, x: Episode, s: seq<Episode>)
    ensures multiset(InsertStable(key, x, s)) == multiset(s) + multiset{x}
    decreases |s|
  {
    if s != [] && key(s[|s| - 1]) > key(x) {
      var init := s[..|s| - 1];
      assert s == init + [s[|s| - 1]];
      InsertStablePermutes(key, x, init);
    }
  }

  /** The result is a permutation of the input: no episode is lost or duplicated. */
  lemma {:induction false} StableSortPermutes(key: Episode -> int, s: seq<Episode>)
    ensures multiset(StableSort(key, s)) == multiset(s)
  {
    if s != [] {
      var init := s[..|s| - 1];
      assert s == init + [s[|s| - 1]];
      StableSortPermutes(key, init);
      InsertStablePermutes(key, s[|s| - 1], StableSort(key, init));
    }
  }

  lemma {:induction false} InsertStableWithKey(key: Episode -> int, x: Episode, s: seq<Episode>, k: int)
    ensures WithKey(key, InsertStable(key, x, s), k)
            == WithKey(key, s, k) + (if key(x) == k then [x] else [])
    decreases |s|
  {
    if s == [] || key(s[|s| - 1]) <= key(x) {
      WithKeySnoc(key, s, x, k);
    } else {
      var init, last := s[..|s| - 1], s[|s| - 1];
      InsertStableWithKey(key, x, init, k);
      assert init + [last] == s;
      InsertPastLarger(key, x, init, last, k);
    }
  }

  lemma InsertPastLarger(key: Episode -> int, x: Episode, init: seq<Episode>, last: Episode, k: int)
    requires key(x) < key(last)
    requires WithKey(key, InsertStable(key, x, init), k) == WithKey(key, init, k) + (if key(x) == k then [x] else [])
    ensures WithKey(key, InsertStable(key, x, init + [last]), k)
            == WithKey(key, init + [last], k) + (if key(x) == k then [x] else [])
  {
    assert InsertStable(key, x, init + [last]) == InsertStable(key, x, init) + [last] by {
      assert (init + [last])[..|init|] == init;
    }
    WithKeySnoc(key, InsertStable(key, x, init), last, k);
    WithKeySnoc(key, init, last, k);
  }

  lemma WithKeySnoc(key: Episode -> int, s: seq<Episode>, y: Episode, k: int)
    ensures WithKey(key, s + [y], k) == WithKey(key, s, k) + (if key(y) == k then [y] else [])
  {
    assert (s + [y])[..|s|] == s;
  }

  /** Stability: for every key, the episodes with that key keep their input order. */
  lemma {:induction false} StableSortWithKey(key: Episode -> int, s: seq<Episode>, k: int)
    ensures WithKey(key, StableSort(key, s), k) == WithKey(key, s, k)
  {
    if s != [] {
      StableSortWithKey(key, s[..|s| - 1], k);
      InsertStableWithKey(key, s[|s| - 1], StableSort(key, s[..|s| - 1]), k);
    }
  }

  /** A sorted sequence with an episode of key `k` ends in a key of at least `k`. */
  lemma {:induction false} WithKeyBelowLast(key: Episode -> int, u: seq<Episode>, k: int)
    requires SortedBy(key, u) && WithKey(key, u, k) != []
    ensures u != [] && k <= key(u[|u| - 1])
  {
    var init := u[..|u| - 1];
    if key(u[|u| - 1]) != k {
      WithKeyBelowLast(key, init, k);
    }
  }

  /** The last episode of a sequence is the last of its key's group. */
  lemma LastOfGroup(key: Episode -> int, u: seq<Episode>)
    requires u != []
    ensures var g := WithKey(key, u, key(u[|u| - 1])); g != [] && g[|g| - 1] == u[|u| - 1]
  {
  }

  /** Sortedness and stability determine the order: any sequence that is
      sorted by the key and keeps, for every key, the input's order of the
      episodes with that key is the stable sort of the input. */
  lemma {:induction false} StableSortUnique(key: Episode -> int, s: seq<Episode>, t: seq<Episode>)
    requires SortedBy(key, t)
    requires forall k :: WithKey(key, t, k) == WithKey(key, s, k)
    ensures t == StableSort(key, s)
  {
    var u := StableSort(key, s);
    StableSortSorted(key, s);
    forall k ensures WithKey(key, t, k) == WithKey(key, u, k) {
      StableSortWithKey(key, s, k);
    }
    SortedSameGroups(key, t, u);
  }

  lemma {:induction false} SortedSameGroups(key: Episode -> int, t: seq<Episode>, u: seq<Episode>)
    requires SortedBy(key, t) && SortedBy(key, u)
    requires forall k :: WithKey(key, t, k) == WithKey(key, u, k)
    ensures t == u
    decreases |t| + |u|
  {
    if t == [] && u == [] {
    } else if t == [] {
      LastOfGroup(key, u);
      assert false;
    } else if u == [] {
      LastOfGroup(key, t);
      assert false;
    } else {
      var kt, ku := key(t[|t| - 1]), key(u[|u| - 1]);
      assert WithKey(key, t, kt) == WithKey(key, u, kt) && WithKey(key, t, ku) == WithKey(key, u, ku);
      SameLast(key, t, u);
      var ti, ui := t[..|t| - 1], u[..|u| - 1];
      SameInitGroups(key, t, u, ti, ui);
      assert SortedBy(key, ti) && SortedBy(key, ui);
      SortedSameGroups(key, ti, ui);
      assert t == ti + [t[|t| - 1]] && u == ui + [u[|u| - 1]];
    }
  }

  /** Two sorted sequences whose groups of their last keys agree end in the same episode. */
  lemma SameLast(key: Episode -> int, t: seq<Episode>, u: seq<Episode>)
    requires SortedBy(key, t) && SortedBy(key, u) && t != [] && u != []
    requires WithKey(key, t, key(t[|t| - 1])) == WithKey(key, u, key(t[|t| - 1]))
    requires WithKey(key, t, key(u[|u| - 1])) == WithKey(key, u, key(u[|u| - 1]))
    ensures t[|t| - 1] == u[|u| - 1]
  {
    var kt, ku := key(t[|t| - 1]), key(u[|u| - 1]);
    LastOfGroup(key, t);
    LastOfGroup(key, u);
    WithKeyBelowLast(key, u, kt);
    WithKeyBelowLast(key, t, ku);
  }

  /** Dropping the same last episode from both keeps the groups equal. */
  lemma SameInitGroups(key: Episode -> int, t: seq<Episode>, u: seq<Episode>, ti: seq<Episode>, ui: seq<Episode>)
    requires t != [] && u != [] && t[|t| - 1] == u[|u| - 1]
    requires ti == t[..|t| - 1] && ui == u[..|u| - 1]
    requires forall k :: WithKey(key, t, k) == WithKey(key, u, k)
    ensures forall k :: WithKey(key, ti, k) == WithKey(key, ui, k)
  {
    var last := t[|t| - 1];
    forall k ensures WithKey(key, ti, k) == WithKey(key, ui, k) {
      var e := if key(last) == k then [last] else [];
      var a, b := WithKey(key, ti, k), WithKey(key, ui, k);
      assert a + e == b + e by {
        assert WithKey(key, t, k) == a + e;
        assert WithKey(key, u, k) == b + e;
        assert WithKey(key, t, k) == WithKey(key, u, k);
      }
      assert a == (a + e)[..|a|] && b == (b + e)[..|b|];
    }
  }

  // ---------------------------------------------------------------------
  // `episodes.sort_by(...)` in place

  lemma InsertStableShift(key: Episode -> int, x: Episode, p: seq<Episode>, j: int)
    requires 0 < j <= |p| && key(x) < key(p[j - 1])
    ensures InsertStable(key, x, p[..j]) + p[j..] == InsertStable(key, x, p[..j - 1]) + p[j - 1..]
  {
    assert p[..j][..j - 1] == p[..j - 1];
  }

  lemma InsertStableStop(key: Episode -> int, x: Episode, p: seq<Episode>, j: int)
    requires 0 <= j <= |p| && (j == 0 || key(p[j - 1]) <= key(x))
    ensures InsertStable(key, x, p[..j]) + p[j..] == p[..j] + [x] + p[j..]
  {
  }

  lemma StableSortStep(key: Episode -> int, s: seq<Episode>, i: int)
    requires 0 <= i < |s|
    ensures StableSort(key, s[..i + 1]) == InsertStable(key, s[i], StableSort(key, s[..i]))
  {
    assert s[..i + 1][..i] == s[..i];
  }

  /** The array during one insertion: the sorted prefix split at `j`, the
      element being inserted, and the untouched rest. */
  function Layout(sorted: seq<Episode>, j: int, x: Episode, rest: seq<Episode>): seq<Episode>
    requires 0 <= j <= |sorted|
  {
    sorted[..j] + [x] + sorted[j..] + rest
  }

  lemma LayoutSwap(sorted: seq<Episode>, j: int, x: Episode, rest: seq<Episode>)
    requires 0 < j <= |sorted|
    ensures Layout(sorted, j, x, rest)[j - 1] == sorted[j - 1] && Layout(sorted, j, x, rest)[j] == x
    ensures Layout(sorted, j, x, rest)[j - 1 := x][j := sorted[j - 1]] == Layout(sorted, j - 1, x, rest)
  {
  }

  /** Exchanges two neighbouring elements. */
  method SwapDown(a: array<Episode>, j: int)
    requires 0 < j < a.Length
    modifies a
    ensures a[..] == old(a[..])[j - 1 := old(a[j])][j := old(a[j - 1])]
  {
    a[j - 1], a[j] := a[j], a[j - 1];
  }

  /** One step of the in-place sort: `a[i]` moves left past the larger keys
      of the sorted prefix `a[..i]`, swapping with each of them. */
  method InsertLast(a: array<Episode>, i: int, key: Episode -> int)
    requires 0 <= i < a.Length
    modifies a
    ensures a[..] == InsertStable(key, old(a[i]), old(a[..i])) + old(a[i + 1..])
  {
    ghost var sorted, rest := a[..i], a[i + 1..];
    var x := a[i];
    var j := i;
    assert a[..] == Layout(sorted, j, x, rest);
    assert sorted[..j] == sorted && sorted[j..] == [];
    while j > 0 && key(x) < key(a[j - 1])
      invariant 0 <= j <= i
      invariant a[..] == Layout(sorted, j, x, rest)
      invariant InsertStable(key, x, sorted) == InsertStable(key, x, sorted[..j]) + sorted[j..]
    {
      InsertStableShift(key, x, sorted, j);
      LayoutSwap(sorted, j, x, rest);
      SwapDown(a, j);
      j := j - 1;
    }
    InsertStableStop(key, x, sorted, j);
  }

  lemma SortStep(key: Episode -> int, input: seq<Episode>, i: int, cur: seq<Episode>)
    requires 0 <= i < |input| && cur == StableSort(key, input[..i]) + input[i..]
    ensures InsertStable(key, cur[i], cur[..i]) + cur[i + 1..] == StableSort(key, input[..i + 1]) + input[i + 1..]
  {
    assert cur[..i] == StableSort(key, input[..i]) && cur[i] == input[i] && cur[i + 1..] == input[i + 1..];
    StableSortStep(key, input, i);
  }

  /** The comparator-driven sort of the fetched list, done in place. */
  method SortBy(a: array<Episode>, key: Episode -> int)
    modifies a
    ensures a[..] == StableSort(key, old(a[..]))
  {
    ghost var input := a[..];
    var i := 0;
    while i < a.Length
      invariant 0 <= i <= a.Length
      invariant a[..] == StableSort(key, input[..i]) + input[i..]
    {
      SortStep(key, input, i, a[..]);
      InsertLast(a, i, key);
      i := i + 1;
    }
    assert input[..a.Length] == input;
  }

  /** `handle_list`'s ordering: the fetched episodes, copied into a buffer and
      sorted by the chosen key. The listing is the stable sort of the input:
      sorted, a permutation, and in input order among equal keys. */
  method SortedListing(episodes: seq<Episode>, sort: string) returns (listing: seq<Episode>)
    requires ValidSortKey(sort)
    ensures listing == StableSort(SortKey(sort), episodes)
    ensures SortedBy(SortKey(sort), listing)
    ensures multiset(listing) == multiset(episodes)
    ensures forall k :: WithKey(SortKey(sort), listing, k) == WithKey(SortKey(sort), episodes, k)
  {
    var key := SortKey(sort);
    var a := new Episode[|episodes|](i requires 0 <= i < |episodes| => episodes[i]);
    assert a[..] == episodes;
    SortBy(a, key);
    listing := a[..];
    StableSortSorted(key, episodes);
    StableSortPermutes(key, episodes);
    forall k ensures WithKey(key, listing, k) == WithKey(key, episodes, k) {
      StableSortWithKey(key, episodes, k);
    }
  }

  /** Episodes with ids 3, 1, 2 are listed as 1, 2, 3 when sorting by `id`;
      two episodes with the same id stay in the order they were fetched. */
  lemma SortByIdExample(e: Episode, f: Episode)
    ensures var key := SortKey("id");
            StableSort(key, [e.(id := 3), e.(id := 1), e.(id := 2)]) == [e.(id := 1), e.(id := 2), e.(id := 3)]
    ensures var key := SortKey("id");
            StableSort(key, [e.(id := 1), f.(id := 1)]) == [e.(id := 1), f.(id := 1)]
  {
    var key := SortKey("id");
    var a, b, c := e.(id := 3), e.(id := 1), e.(id := 2);
    assert "id" != "pub_date";
    assert key(a) == 3 && key(b) == 1 && key(c) == 2;
    assert [a, b, c][..2] == [a, b] && [a, b][..1] == [a] && [a][..0] == [];
    assert StableSort(key, [a]) == [a];
    assert InsertStable(key, b, [a]) == [b, a] by {
      assert [a][..0] == [];
    }
    assert StableSort(key, [a, b]) == [b, a];
    assert InsertStable(key, c, [b, a]) == [b, c, a] by {
      assert [b, a][..1] == [b];
    }
    var g, h := e.(id := 1), f.(id := 1);
    assert key(g) == 1 && key(h) == 1;
    assert [g, h][..1] == [g] && [g][..0] == [];
  }
}
