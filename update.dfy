/** The `update` command of `src/main.rs` (`handle_update`): turning the raw
    text of a new value into the JSON value for the named field, and the
    PATCH request that carries it. */
module Update {
  import opened Rust
  import opened Time
  import opened Snapcast

  /** The JSON values the client sends. */
  datatype Json = JNumber(n: int) | JString(s: string) | JObject(members: seq<(string, Json)>)

  // ---------------------------------------------------------------------
  // media_duration: `[[HH:]MM:]SS` to seconds

  function Pow60(i: nat): (p: nat)
    ensures p >= 1
  {
    if i == 0 then 1 else 60 * Pow60(i - 1)
  }

  /** `u32::pow(60, i)` fits in 32 bits exactly for the first six positions. */
  lemma {:induction false} Pow60Bounds(i: nat)
    ensures i <= 5 ==> Pow60(i) <= 777_600_000
    ensures i >= 6 ==> Pow60(i) > U32_MAX
  {
    assert Pow60(0) == 1 && Pow60(1) == 60 && Pow60(2) == 3600;
    assert Pow60(3) == 216_000 && Pow60(4) == 12_960_000 && Pow60(5) == 777_600_000;
    assert Pow60(6) == 46_656_000_000;
    if i > 6 {
      Pow60Bounds(i - 1);
    }
  }

  /** `.rev()`: the same items, last first. */
  function Reverse<T>(s: seq<T>): (r: seq<T>)
    ensures |r| == |s|
    ensures forall k :: 0 <= k < |s| ==> r[k] == s[|s| - 1 - k]
  {
    seq(|s|, k requires 0 <= k < |s| => s[|s| - 1 - k])
  }

  /** The tail of `.enumerate().map(|(i, v)| u32::pow(60, i) * v.parse::<u32>().unwrap()).sum::<u32>()`:
      `rev` holds the pieces still to come, the first of them at position `i`,
      and `acc` the sum so far. Each piece in turn: the power (which may
      overflow), the `unwrap` of its parse, the product and the addition,
      each overflow a panic. */
  function SumWeighted(rev: seq<string>, i: nat, acc: u32): (r: Outcome<u32>)
    ensures !r.Err?
    decreases |rev|
  {
    if rev == [] then Ok(acc)
    else if Pow60(i) > U32_MAX then Panic(PowOverflow)
    else match ParseU32(rev[0])
      case None => Panic(ParseIntUnwrap)
      case Some(c) =>
        if Pow60(i) * c > U32_MAX then Panic(MulOverflow)
        else if acc + Pow60(i) * c > U32_MAX then Panic(AddOverflow)
        else SumWeighted(rev[1..], i + 1, acc + Pow60(i) * c)
  }

  /** The `media_duration` arm: split on `:`, read right to left, sum `c_i * 60^i`. */
  function CoerceDuration(raw: string): Outcome<u32>
  {
    SumWeighted(Reverse(Split(raw, ':')), 0, 0)
  }

  /** Every piece is a `u32` in decimal. */
  ghost predicate AllU32(parts: seq<string>)
  {
    forall k :: 0 <= k < |parts| ==> ParseU32(parts[k]).Some?
  }

  function Values(parts: seq<string>): (vals: seq<nat>)
    requires AllU32(parts)
    ensures |vals| == |parts|
    ensures forall k :: 0 <= k < |parts| ==> vals[k] == ParseU32(parts[k]).value
  {
    seq(|parts|, k requires 0 <= k < |parts| && ParseU32(parts[k]).Some? => ParseU32(parts[k]).value)
  }

  /** `vals[0]·60^i + vals[1]·60^(i+1) + ...`: the sum the pipeline computes
      when nothing overflows. */
  function Weighted(vals: seq<nat>, i: nat): nat
  {
    if vals == [] then 0 else vals[0] * Pow60(i) + Weighted(vals[1..], i + 1)
  }

  /** A clock reading left to right, `((c0·60 + c1)·60 + c2)...`: the usual
      meaning of `HH:MM:SS`, independent of how the pipeline sums. */
  function ClockValue(vals: seq<nat>): nat
  {
    if vals == [] then 0 else ClockValue(vals[..|vals| - 1]) * 60 + vals[|vals| - 1]
  }

  /** The running sum succeeds exactly when every remaining piece parses, no
      power past `60^5` is taken, and the total fits in 32 bits; it then is
      the weighted sum. */
  ghost predicate SumWeightedAgrees(rev: seq<string>, i: nat, acc: u32)
  {
    var r := SumWeighted(rev, i, acc);
    (r.Ok? <==> AllU32(rev) && (rev == [] || i + |rev| <= 6) && acc + Weighted(Values(rev), i) <= U32_MAX)
    && (r.Ok? ==> r.value == acc + Weighted(Values(rev), i))
  }

  /** The running sum from position `i` with `acc` already added agrees with
      the weighted sum of the remaining pieces, for every input. */
  lemma {:induction false} SumWeightedSpec(rev: seq<string>, i: nat, acc: u32)
    ensures SumWeightedAgrees(rev, i, acc)
    decreases |rev|, 1
  {
    if rev == [] {
      assert Values(rev) == [];
    } else if Pow60(i) > U32_MAX {
      SumWeightedPowOverflow(rev, i, acc);
    } else {
      match ParseU32(rev[0])
      case None => SumWeightedUnparsed(rev, i, acc);
      case Some(c) =>
        if Pow60(i) * c > U32_MAX || acc + Pow60(i) * c > U32_MAX {
          SumWeightedOverflow(rev, i, acc, c);
        } else {
          SumWeightedAdvance(rev, i, acc, c);
        }
    }
  }

  lemma SumWeightedPowOverflow(rev: seq<string>, i: nat, acc: u32)
    requires rev != [] && Pow60(i) > U32_MAX
    ensures SumWeightedAgrees(rev, i, acc)
  {
    Pow60Bounds(i);
  }

  lemma SumWeightedUnparsed(rev: seq<string>, i: nat, acc: u32)
    requires rev != [] && Pow60(i) <= U32_MAX && ParseU32(rev[0]).None?
    ensures SumWeightedAgrees(rev, i, acc)
  {
    AllU32Cons(rev, i);
  }

  lemma SumWeightedOverflow(rev: seq<string>, i: nat, acc: u32, c: nat)
    requires rev != [] && Pow60(i) <= U32_MAX && ParseU32(rev[0]) == Some(c)
    requires Pow60(i) * c > U32_MAX || acc + Pow60(i) * c > U32_MAX
    ensures SumWeightedAgrees(rev, i, acc)
  {
    AllU32Cons(rev, i);
  }

  lemma {:induction false} SumWeightedAdvance(rev: seq<string>, i: nat, acc: u32, c: nat)
    requires rev != [] && Pow60(i) <= U32_MAX && ParseU32(rev[0]) == Some(c)
    requires acc + Pow60(i) * c <= U32_MAX
    ensures SumWeightedAgrees(rev, i, acc)
    decreases |rev|, 0
  {
    var w := Pow60(i) * c;
    assert 0 <= w by {
      NatProduct(Pow60(i), c);
    }
    SumWeightedSpec(rev[1..], i + 1, acc + w);
    Pow60Bounds(i);
    AllU32Cons(rev, i);
    SumWeightedStep(rev, i, acc, c);
  }

  lemma NatProduct(a: nat, b: nat)
    ensures 0 <= a * b
  {
  }

  /** `AllU32` and `Weighted` over a first piece and the rest. */
  lemma AllU32Cons(rev: seq<string>, i: nat)
    requires rev != []
    ensures AllU32(rev) <==> ParseU32(rev[0]).Some? && AllU32(rev[1..])
    ensures AllU32(rev) ==>
              Weighted(Values(rev), i) == Pow60(i) * ParseU32(rev[0]).value + Weighted(Values(rev[1..]), i + 1)
  {
    var rest := rev[1..];
    if ParseU32(rev[0]).Some? && AllU32(rest) {
      forall k | 0 <= k < |rev| ensures ParseU32(rev[k]).Some? {
        if k > 0 { assert rev[k] == rest[k - 1]; }
      }
    }
    if AllU32(rev) {
      WeightedCons(rev, i);
    }
  }

  lemma WeightedCons(rev: seq<string>, i: nat)
    requires rev != [] && AllU32(rev)
    ensures AllU32(rev[1..])
    ensures Weighted(Values(rev), i) == Pow60(i) * ParseU32(rev[0]).value + Weighted(Values(rev[1..]), i + 1)
  {
    var vals := Values(rev);
    assert vals[1..] == Values(rev[1..]);
    var c := vals[0];
    assert c * Pow60(i) == Pow60(i) * c;
  }

  lemma {:induction false} WeightedShift(vals: seq<nat>, i: nat)
    ensures Weighted(vals, i + 1) == 60 * Weighted(vals, i)
    decreases |vals|
  {
    if vals != [] {
      WeightedShift(vals[1..], i + 1);
      assert vals[0] * Pow60(i + 1) == 60 * (vals[0] * Pow60(i));
    }
  }

  /** Summing `c_i·60^i` over the pieces read right to left is reading the
      clock left to right. */
  lemma {:induction false} WeightedIsClock(vals: seq<nat>)
    ensures Weighted(Reverse(vals), 0) == ClockValue(vals)
    decreases |vals|
  {
    if vals != [] {
      var init, last := vals[..|vals| - 1], vals[|vals| - 1];
      var r := Reverse(vals);
      assert r[0] == last;
      assert r[1..] == Reverse(init) by {
        forall k | 0 <= k < |init|
          ensures r[1..][k] == Reverse(init)[k]
        {
          assert r[1..][k] == r[k + 1] == vals[|vals| - 2 - k];
        }
      }
      assert Weighted(r, 0) == last + Weighted(Reverse(init), 1) by {
        assert Pow60(0) == 1;
      }
      WeightedShift(Reverse(init), 0);
      WeightedIsClock(init);
    }
  }

  lemma ReverseAllU32(parts: seq<string>)
    requires AllU32(parts)
    ensures AllU32(Reverse(parts)) && Values(Reverse(parts)) == Reverse(Values(parts))
  {
    var r := Reverse(parts);
    assert AllU32(r) by {
      forall k | 0 <= k < |r|
        ensures ParseU32(r[k]).Some?
      {
        assert r[k] == parts[|parts| - 1 - k];
      }
    }
    ReverseValues(parts);
  }

  lemma ReverseValues(parts: seq<string>)
    requires AllU32(parts) && AllU32(Reverse(parts))
    ensures Values(Reverse(parts)) == Reverse(Values(parts))
  {
    var a, b := Values(Reverse(parts)), Reverse(Values(parts));
    forall k | 0 <= k < |a|
      ensures a[k] == b[k]
    {
      ReverseValuesAt(parts, k);
    }
  }

  lemma ReverseValuesAt(parts: seq<string>, k: nat)
    requires AllU32(parts) && AllU32(Reverse(parts)) && k < |parts|
    ensures Values(Reverse(parts))[k] == Reverse(Values(parts))[k]
  {
    var j := |parts| - 1 - k;
    assert Reverse(parts)[k] == parts[j];
    assert Reverse(Values(parts))[k] == Values(parts)[j];
  }

  /** The `media_duration` coercion succeeds exactly when every `:`-separated
      piece is a decimal `u32` (an optional `+`, digits), there are at most
      six pieces, and the clock value fits in 32 bits; the result is then
      that clock value. Every failure is a panic, never an error. */
  lemma CoerceDurationSpec(raw: string)
    ensures CoerceDuration(raw).Ok? <==>
              var parts := Split(raw, ':');
              AllU32(parts) && |parts| <= 6 && ClockValue(Values(parts)) <= U32_MAX
    ensures CoerceDuration(raw).Ok? ==> CoerceDuration(raw).value == ClockValue(Values(Split(raw, ':')))
    ensures !CoerceDuration(raw).Ok? ==> CoerceDuration(raw).Panic?
  {
    if AllU32(Split(raw, ':')) {
      CoerceAllPiecesParse(raw);
    } else {
      CoerceSomePieceFails(raw);
    }
  }

  lemma CoerceAllPiecesParse(raw: string)
    requires AllU32(Split(raw, ':'))
    ensures CoerceDuration(raw).Ok? <==>
              |Split(raw, ':')| <= 6 && ClockValue(Values(Split(raw, ':'))) <= U32_MAX
    ensures CoerceDuration(raw).Ok? ==> CoerceDuration(raw).value == ClockValue(Values(Split(raw, ':')))
  {
    var parts := Split(raw, ':');
    SumWeightedSpec(Reverse(parts), 0, 0);
    ReverseAllU32(parts);
    WeightedIsClock(Values(parts));
  }

  lemma CoerceSomePieceFails(raw: string)
    requires !AllU32(Split(raw, ':'))
    ensures CoerceDuration(raw).Panic?
  {
    var parts := Split(raw, ':');
    var rev := Reverse(parts);
    SumWeightedSpec(rev, 0, 0);
    var k :| 0 <= k < |parts| && ParseU32(parts[k]).None?;
    assert rev[|parts| - 1 - k] == parts[k];
  }

  /** Coercing `:`-joined pieces that all parse, reading them as a clock. */
  lemma CoerceJoined(parts: seq<string>, vals: seq<nat>)
    requires 1 <= |parts| <= 6 && forall k :: 0 <= k < |parts| ==> ':' !in parts[k]
    requires AllU32(parts) && Values(parts) == vals && ClockValue(vals) <= U32_MAX
    ensures CoerceDuration(Join(parts, ':')) == Ok(ClockValue(vals))
  {
    SplitJoin(parts, ':');
    CoerceDurationSpec(Join(parts, ':'));
  }

  lemma CoerceDurationExamples()
    ensures CoerceDuration("90") == Ok(90)
    ensures CoerceDuration("1:30") == Ok(90)
    ensures CoerceDuration("1:01:01") == Ok(3661)
    ensures CoerceDuration("1:0:0:0") == Ok(216000)
  {
    CoerceExample1();
    CoerceExample2();
    CoerceExample3();
    CoerceExample4();
  }

  /** Pieces `u32::from_str` refuses make the coercion panic: letters, an
      empty piece, a leading space, a minus sign. A plus sign is accepted. */
  lemma CoerceDurationRejects()
    ensures CoerceDuration("abc") == Panic(ParseIntUnwrap)
    ensures CoerceDuration(" 1") == Panic(ParseIntUnwrap)
    ensures CoerceDuration("-5") == Panic(ParseIntUnwrap)
    ensures CoerceDuration("+5") == Ok(5)
    ensures CoerceDuration("1::2") == Panic(ParseIntUnwrap)
  {
    CoerceLetters();
    CoerceLeadingSpace();
    CoerceMinus();
    CoercePlus();
    CoerceEmptyMinutes();
  }

  lemma CoerceLetters()
    ensures CoerceDuration("abc") == Panic(ParseIntUnwrap)
  {
    assert ParseU32("abc") == None;
    CoerceOnePiece("abc");
  }

  lemma CoerceLeadingSpace()
    ensures CoerceDuration(" 1") == Panic(ParseIntUnwrap)
  {
    assert ParseU32(" 1") == None;
    CoerceOnePiece(" 1");
  }

  lemma CoerceMinus()
    ensures CoerceDuration("-5") == Panic(ParseIntUnwrap)
  {
    assert ParseU32("-5") == None;
    CoerceOnePiece("-5");
  }

  lemma CoercePlus()
    ensures CoerceDuration("+5") == Ok(5)
  {
    assert ParseU32("+5") == Some(5) by {
      assert "+5"[1..] == "5" && "5"[..0] == "";
    }
    CoerceOnePiece("+5");
  }

  lemma CoerceEmptyMinutes()
    ensures CoerceDuration("1::2") == Panic(ParseIntUnwrap)
  {
    assert ParseU32("2") == Some(2) && ParseU32("") == None;
    SplitThree("1", "", "2");
    assert "1" + ":" + "" + ":" + "2" == "1::2";
    assert SumWeighted(["2", "", "1"], 0, 0) == SumWeighted(["", "1"], 1, 2) by {
      assert ["2", "", "1"][1..] == ["", "1"];
    }
  }

  /** A text without `:` is one piece: its value, or a panic when it does not parse. */
  lemma CoerceOnePiece(a: string)
    requires ':' !in a
    ensures ParseU32(a).None? ==> CoerceDuration(a) == Panic(ParseIntUnwrap)
    ensures ParseU32(a).Some? ==> CoerceDuration(a) == Ok(ParseU32(a).value)
  {
    SplitWithoutSep(a, ':');
    assert Reverse([a]) == [a];
    assert Pow60(0) == 1;
    match ParseU32(a)
    case None =>
    case Some(c) =>
      assert SumWeighted([a], 0, 0) == SumWeighted([], 1, c) by {
        assert [a][1..] == [];
      }
  }

  lemma CoerceExample1()
    ensures CoerceDuration("90") == Ok(90)
  {
    assert DigitsValue("90") == 90 by {
      assert "90"[..1] == "9" && "9"[..0] == "";
    }
    assert ParseU32("90") == Some(90);
    assert Values(["90"]) == [90];
    assert Join(["90"], ':') == "90";
    CoerceJoined(["90"], [90]);
  }

  lemma CoerceExample2()
    ensures CoerceDuration("1:30") == Ok(90)
  {
    assert ParseU32("1") == Some(1) && ParseU32("30") == Some(30);
    assert Values(["1", "30"]) == [1, 30];
    assert Join(["1", "30"], ':') == "1:30";
    assert ClockValue([1, 30]) == 90 by {
      assert [1, 30][..1] == [1] && [1][..0] == [];
    }
    CoerceJoined(["1", "30"], [1, 30]);
  }

  lemma CoerceExample3()
    ensures CoerceDuration("1:01:01") == Ok(3661)
  {
    assert ParseU32("1") == Some(1) && ParseU32("01") == Some(1);
    CoerceThreePieces("1", "01", "01", 1, 1, 1, 3661);
    assert "1" + ":" + "01" + ":" + "01" == "1:01:01";
  }

  lemma CoerceExample4()
    ensures CoerceDuration("1:0:0:0") == Ok(216000)
  {
    var parts := ["1", "0", "0", "0"];
    assert ParseU32("1") == Some(1) && ParseU32("0") == Some(0);
    assert Values(parts) == [1, 0, 0, 0] by {
      assert parts[1..] == ["0", "0", "0"];
      assert Values(["0"]) == [0];
      assert Values(["0", "0"]) == [0, 0];
      assert Values(["0", "0", "0"]) == [0, 0, 0];
    }
    assert Join(parts, ':') == "1:0:0:0" by {
      assert parts[1..] == ["0", "0", "0"] && parts[1..][1..] == ["0", "0"];
      assert Join(["0", "0"], ':') == "0:0";
    }
    assert ClockValue([1, 0, 0, 0]) == 216000 by {
      assert [1, 0, 0, 0][..3] == [1, 0, 0] && [1, 0, 0][..2] == [1, 0];
      assert [1, 0][..1] == [1] && [1][..0] == [];
    }
    CoerceJoined(parts, [1, 0, 0, 0]);
  }

  /** Coercing three pieces that parse to `h`, `m` and `s`. */
  lemma CoerceThreePieces(a: string, b: string, c: string, h: nat, m: nat, s: nat, total: nat)
    requires ':' !in a && ':' !in b && ':' !in c
    requires ParseU32(a) == Some(h) && ParseU32(b) == Some(m) && ParseU32(c) == Some(s)
    requires total == (h * 60 + m) * 60 + s <= U32_MAX
    ensures CoerceDuration(a + ":" + b + ":" + c) == Ok(total)
  {
    SplitThree(a, b, c);
    SumThree(a, b, c, h, m, s);
  }

  /** The running sum over `[c, b, a]`, read as seconds, minutes and hours. */
  lemma SumThree(a: string, b: string, c: string, h: nat, m: nat, s: nat)
    requires ParseU32(a) == Some(h) && ParseU32(b) == Some(m) && ParseU32(c) == Some(s)
    requires (h * 60 + m) * 60 + s <= U32_MAX
    ensures SumWeighted([c, b, a], 0, 0) == Ok((h * 60 + m) * 60 + s)
  {
    assert Pow60(0) == 1 && Pow60(1) == 60 && Pow60(2) == 3600;
    SumWeightedStep([c, b, a], 0, 0, s);
    assert [c, b, a][1..] == [b, a];
    SumWeightedStep([b, a], 1, s, m);
    assert [b, a][1..] == [a];
    SumWeightedStep([a], 2, s + 60 * m, h);
    assert [a][1..] == [];
  }

  /** One step of the running sum when the piece parses and nothing overflows. */
  lemma SumWeightedStep(rev: seq<string>, i: nat, acc: u32, c: nat)
    requires rev != [] && i <= 5 && ParseU32(rev[0]) == Some(c) && acc + Pow60(i) * c <= U32_MAX
    ensures acc + Pow60(i) * c <= U32_MAX
    ensures SumWeighted(rev, i, acc) == SumWeighted(rev[1..], i + 1, acc + Pow60(i) * c)
  {
    Pow60Bounds(i);
  }

  /** Three `:`-free pieces joined by `:` split back into them, last first after `.rev()`. */
  lemma SplitThree(a: string, b: string, c: string)
    requires ':' !in a && ':' !in b && ':' !in c
    ensures Reverse(Split(a + ":" + b + ":" + c, ':')) == [c, b, a]
  {
    var parts := [a, b, c];
    JoinThree(a, b, c);
    SplitJoin(parts, ':');
    var r := Reverse(parts);
    assert r[0] == c && r[1] == b && r[2] == a;
  }

  lemma JoinThree(a: string, b: string, c: string)
    ensures Join([a, b, c], ':') == a + ":" + b + ":" + c
  {
    var parts := [a, b, c];
    assert Join(parts[2..], ':') == c;
    assert Join(parts[1..], ':') == b + ":" + c;
  }

  /** Coercing three pieces whose first does not parse panics at its `unwrap`. */
  lemma CoerceThreePiecesBadHours(a: string, b: string, c: string, m: nat, s: nat)
    requires ':' !in a && ':' !in b && ':' !in c
    requires ParseU32(a) == None && ParseU32(b) == Some(m) && ParseU32(c) == Some(s)
    requires m < 60 && s < 60
    ensures CoerceDuration(a + ":" + b + ":" + c) == Panic(ParseIntUnwrap)
  {
    assert CoerceDuration(a + ":" + b + ":" + c) == SumWeighted([c, b, a], 0, 0) by {
      SplitThree(a, b, c);
    }
    assert Pow60(0) == 1 && Pow60(1) == 60 && Pow60(2) == 3600;
    SumWeightedStep([c, b, a], 0, 0, s);
    assert [c, b, a][1..] == [b, a];
    SumWeightedStep([b, a], 1, s, m);
    assert [b, a][1..] == [a];
    SumWeightedUnparsedStep([a], 2, s + 60 * m);
  }

  lemma SumWeightedUnparsedStep(rev: seq<string>, i: nat, acc: u32)
    requires rev != [] && i <= 5 && ParseU32(rev[0]) == None
    ensures SumWeighted(rev, i, acc) == Panic(ParseIntUnwrap)
  {
    Pow60Bounds(i);
  }

  /** The duration column of a rendered line, `{hh:2}:{mm:02}:{ss:02}`, coerces
      back to the duration only when it has at least ten hours: below that
      the space that pads the hours makes the parse panic. */
  lemma RenderedDurationCoercion(d: i32)
    requires d >= 0
    ensures d / 3600 >= 10 ==> CoerceDuration(DurationColumn(d)) == Ok(d)
    ensures d / 3600 < 10 ==> CoerceDuration(DurationColumn(d)) == Panic(ParseIntUnwrap)
  {
    var hms := DurationParts(d);
    HmsColumnCoercion(hms.0, hms.1, hms.2, d);
  }

  /** Every `u32` number of seconds, written as whole hours, then minutes and
      seconds padded to two digits (`h:mm:ss`), coerces back to itself. */
  lemma ClockRoundTrip(d: nat)
    requires d <= U32_MAX
    ensures CoerceDuration(Decimal(d / 3600) + ":" + FormatInt(d / 60 % 60, 2, true) + ":" + FormatInt(d % 60, 2, true))
            == Ok(d)
  {
    var h, m, sec := d / 3600, d / 60 % 60, d % 60;
    assert d == (h * 60 + m) * 60 + sec by { ClockFields(d); }
    ParseU32Decimal(h);
    DigitsHaveNoColon(Decimal(h));
    MinutesSecondsParse(m, sec);
    CoerceThreePieces(Decimal(h), FormatInt(m, 2, true), FormatInt(sec, 2, true), h, m, sec, d);
  }

  /** The duration column with the hours zero-padded as well (`{hh:02}`)
      coerces back to the duration for every non-negative duration, below
      ten hours included. */
  lemma PaddedColumnRoundTrip(d: i32)
    requires d >= 0
    ensures var hms := DurationParts(d);
            CoerceDuration(FormatInt(hms.0, 2, true) + ":" + FormatInt(hms.1, 2, true) + ":" + FormatInt(hms.2, 2, true))
            == Ok(d)
  {
    var hms := DurationParts(d);
    var h, m, sec := hms.0, hms.1, hms.2;
    assert d == (h * 60 + m) * 60 + sec;
    FormatZeroPaddedValue(h, 2);
    DigitsHaveNoColon(FormatInt(h, 2, true));
    MinutesSecondsParse(m, sec);
    CoerceThreePieces(FormatInt(h, 2, true), FormatInt(m, 2, true), FormatInt(sec, 2, true), h, m, sec, d);
  }

  /** Seconds split into whole hours, minutes and seconds recompose. */
  lemma ClockFields(d: nat)
    ensures d == (d / 3600 * 60 + d / 60 % 60) * 60 + d % 60
  {
    var q := d / 60;
    assert d == q * 60 + d % 60;
    assert q == q / 60 * 60 + q % 60;
    assert d / 3600 == q / 60;
  }

  /** The `{hh:2}:{mm:02}:{ss:02}` text of `total` seconds. */
  lemma HmsColumnCoercion(h: nat, m: nat, sec: nat, total: nat)
    requires m < 60 && sec < 60 && total == h * 3600 + m * 60 + sec <= U32_MAX
    ensures h >= 10 ==> CoerceDuration(HmsText(h, m, sec)) == Ok(total)
    ensures h < 10 ==> CoerceDuration(HmsText(h, m, sec)) == Panic(ParseIntUnwrap)
  {
    var a, b, c := FormatInt(h, 2, false), FormatInt(m, 2, true), FormatInt(sec, 2, true);
    assert HmsText(h, m, sec) == a + ":" + b + ":" + c;
    MinutesSecondsParse(m, sec);
    if h >= 10 {
      WideHoursColumn(h);
      CoerceThreePieces(a, b, c, h, m, sec, total);
    } else {
      NarrowHoursColumn(h);
      CoerceThreePiecesBadHours(a, b, c, m, sec);
    }
  }

  /** From ten hours on, the hour column is the plain decimal and parses. */
  lemma WideHoursColumn(h: nat)
    requires 10 <= h <= U32_MAX
    ensures ':' !in FormatInt(h, 2, false) && ParseU32(FormatInt(h, 2, false)) == Some(h)
  {
    FormatFullWidth(h, 2, false);
    ParseU32Decimal(h);
    DigitsHaveNoColon(Decimal(h));
  }

  /** Below ten hours, the hour column starts with a space and does not parse. */
  lemma NarrowHoursColumn(h: nat)
    requires h < 10
    ensures ':' !in FormatInt(h, 2, false) && ParseU32(FormatInt(h, 2, false)) == None
  {
    FormatSpacePaddedLeads(h, 2);
    var a := FormatInt(h, 2, false);
    assert a == [' '] + Decimal(h);
    DigitsHaveNoColon(Decimal(h));
  }

  /** The zero-padded minute and second columns parse back to their values. */
  lemma MinutesSecondsParse(m: nat, s: nat)
    requires m < 60 && s < 60
    ensures ':' !in FormatInt(m, 2, true) && ParseU32(FormatInt(m, 2, true)) == Some(m)
    ensures ':' !in FormatInt(s, 2, true) && ParseU32(FormatInt(s, 2, true)) == Some(s)
  {
    FormatZeroPaddedValue(m, 2);
    FormatZeroPaddedValue(s, 2);
    DigitsHaveNoColon(FormatInt(m, 2, true));
    DigitsHaveNoColon(FormatInt(s, 2, true));
  }

  // ---------------------------------------------------------------------
  // pub_date: `YYYY-MM-DD HH:MM` to RFC 3339 in the local offset

  /** The `pub_date` arm: parse (a malformed text is an error returned by
      `?`), attach the local offset (its absence panics at the `unwrap`) and
      format as RFC 3339 (a failure panics at the second `unwrap`). */
  function CoercePubDate(raw: string, localOffset: Option<UtcOffset>): (r: Outcome<Json>)
    ensures r.Err? <==> ParseMinutes(raw).None?
    ensures r.Ok? ==> r.value.JString?
    ensures r.Ok? ==> ParseMinutes(raw).Some? && localOffset.Some?
                      && ReadRfc3339(r.value.s) == Some(OffsetDateTime(ParseMinutes(raw).value, localOffset.value))
    ensures r.Ok? <==> ParseMinutes(raw).Some? && localOffset.Some?
                       && ParseMinutes(raw).value.date.year >= 0
                       && Abs(localOffset.value) / 3600 < 24 && Abs(localOffset.value) % 60 == 0
    ensures r.Panic? && localOffset.None? ==> r.panic == LocalOffsetUnwrap
    ensures r.Panic? && localOffset.Some? ==> r.panic == FormatUnwrap
  {
    match ParseMinutes(raw)
    case None => Err(DateParse)
    case Some(p) =>
      match localOffset
      case None => Panic(LocalOffsetUnwrap)
      case Some(o) =>
        var t := OffsetDateTime(p, o);
        match FormatRfc3339(t)
        case None => Panic(FormatUnwrap)
        case Some(text) =>
          ReadFormatRfc3339(t);
          Ok(JString(text))
  }

  /** For a text `YYYY-MM-DD HH:MM` that names a real date and time, the
      coerced value is that text with `T` for the space, `:00` seconds and
      the local offset appended. */
  lemma PubDateText(raw: string, o: UtcOffset)
    requires ParseMinutes(raw).Some? && IsDigit(raw[0])
    requires Abs(o) / 3600 < 24 && Abs(o) % 60 == 0
    ensures CoercePubDate(raw, Some(o)) == Ok(JString(raw[..10] + "T" + raw[11..] + ":00" + OffsetText(o)))
  {
    var p := ParseMinutes(raw).value;
    SecondsTextOfParse(raw);
    assert FormatRfc3339(OffsetDateTime(p, o)) == Some(SecondsText(p) + OffsetText(o));
  }

  /** A signed year: `+YYYY-…` coerces exactly as `YYYY-…` does; `-YYYY-…`
      names a year before 1, which RFC 3339 output cannot write, so it panics
      at the formatting `unwrap`, except that `-0000` is year 0 and coerces as
      `0000` does. */
  lemma SignedPubDate(s: string, o: UtcOffset)
    requires ParseMinutes(s).Some? && IsDigit(s[0])
    ensures CoercePubDate("+" + s, Some(o)) == CoercePubDate(s, Some(o))
    ensures ParseMinutes(s).value.date.year > 0 ==> CoercePubDate("-" + s, Some(o)) == Panic(FormatUnwrap)
    ensures ParseMinutes(s).value.date.year == 0 ==> CoercePubDate("-" + s, Some(o)) == CoercePubDate(s, Some(o))
  {
    ParseMinutesPlus(s);
    ParseMinutesMinus(s);
    var p := ParseMinutes(s).value;
    var q := p.(date := p.date.(year := -p.date.year));
    if p.date.year > 0 {
      assert ParseMinutes("-" + s) == Some(q) && q.date.year < 0;
      assert !CoercePubDate("-" + s, Some(o)).Ok? && !CoercePubDate("-" + s, Some(o)).Err?;
    } else if p.date.year == 0 {
      assert q == p;
    }
  }

  // ---------------------------------------------------------------------
  // The whole coercion and the request

  /** `match field.as_str()`: the two typed fields, and every other field
      sent as the raw text in a JSON string. */
  function Coerce(field: string, raw: string, localOffset: Option<UtcOffset>): (r: Outcome<Json>)
    ensures field == "media_duration" ==>
              (r.Ok? <==> CoerceDuration(raw).Ok?)
              && (r.Ok? ==> r.value == JNumber(CoerceDuration(raw).value))
              && (!r.Ok? ==> r == Panic(CoerceDuration(raw).panic))
    ensures field == "pub_date" ==> r == CoercePubDate(raw, localOffset)
    ensures field != "media_duration" && field != "pub_date" ==> r == Ok(JString(raw))
  {
    if field == "media_duration" then
      match CoerceDuration(raw)
      case Ok(n) => Ok(JNumber(n))
      case Err(e) => Err(e)
      case Panic(p) => Panic(p)
    else if field == "pub_date" then CoercePubDate(raw, localOffset)
    else Ok(JString(raw))
  }

  /** Of the thirteen registry fields, exactly `media_duration` and
      `pub_date` (positions 6 and 7) are converted; the other eleven pass the
      raw text through. */
  lemma RegistryPassthrough(raw: string, localOffset: Option<UtcOffset>)
    ensures DatabaseFields[6] == "media_duration" && DatabaseFields[7] == "pub_date"
    ensures forall i :: 0 <= i < |DatabaseFields| && i != 6 && i != 7 ==>
              Coerce(DatabaseFields[i], raw, localOffset) == Ok(JString(raw))
  {
    forall i | 0 <= i < |DatabaseFields| && i != 6 && i != 7
      ensures DatabaseFields[i] != "media_duration" && DatabaseFields[i] != "pub_date"
    {
      DatabaseFieldsShape();
    }
  }

  /** The process settings: the feed, the `Authorization` value (already
      prefixed with `Bearer `) and the API base URL. */
  datatype Args = Args(feedId: string, token: string, baseUrl: string)

  datatype Request = Request(verb: string, url: string, authorization: string, body: Json)

  /** The PATCH that `handle_update` sends: to `<base>/<feed>/episode/<uuid>`,
      with the single-member body `{field: value}`. The field has already
      been checked against the registry when the command line was parsed. */
  function UpdateRequest(args: Args, e: Episode, field: string, value: string, localOffset: Option<UtcOffset>)
    : (r: Outcome<Request>)
    requires field in DatabaseFields
    ensures r.Ok? <==> Coerce(field, value, localOffset).Ok?
    ensures !r.Ok? ==> r.Err? == Coerce(field, value, localOffset).Err?
    ensures r.Ok? ==> r.value.verb == "PATCH"
                      && r.value.url == args.baseUrl + "/" + args.feedId + "/episode/" + e.uuid
                      && r.value.authorization == args.token
                      && r.value.body == JObject([(field, Coerce(field, value, localOffset).value)])
  {
    match Coerce(field, value, localOffset)
    case Ok(v) =>
      Ok(Request("PATCH", args.baseUrl + "/" + args.feedId + "/episode/" + e.uuid, args.token, JObject([(field, v)])))
    case Err(err) => Err(err)
    case Panic(p) => Panic(p)
  }

  /** The request is addressed by `uuid`: two episodes that share a `uuid`
      get the same request whatever their numeric ids, and episodes with
      different `uuid`s get different targets. */
  lemma UpdateAddressedByUuid(args: Args, e1: Episode, e2: Episode, field: string, value: string,
                              localOffset: Option<UtcOffset>)
    requires field in DatabaseFields
    ensures e1.uuid == e2.uuid ==>
              UpdateRequest(args, e1, field, value, localOffset) == UpdateRequest(args, e2, field, value, localOffset)
    ensures e1.uuid != e2.uuid && UpdateRequest(args, e1, field, value, localOffset).Ok? ==>
              UpdateRequest(args, e1, field, value, localOffset).value.url
              != UpdateRequest(args, e2, field, value, localOffset).value.url
  {
    var prefix := args.baseUrl + "/" + args.feedId + "/episode/";
    if e1.uuid != e2.uuid && UpdateRequest(args, e1, field, value, localOffset).Ok? {
      assert (prefix + e1.uuid)[|prefix|..] == e1.uuid;
      assert (prefix + e2.uuid)[|prefix|..] == e2.uuid;
    }
  }
}
