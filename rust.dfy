/** The handful of Rust standard-library behaviours the client relies on:
    fixed-width integers, `str::split` on a `char`, `u32::from_str`,
    integer `Display` with a width, and the ways an expression can fail
    (`?` returns an error, `unwrap` and checked arithmetic panic). */
module Rust {

  const U32_MAX: int := 0xFFFF_FFFF
  const I32_MIN: int := -0x8000_0000
  const I32_MAX: int := 0x7FFF_FFFF

  type u16 = n: int | 0 <= n <= 0xFFFF
  type u32 = n: int | 0 <= n <= U32_MAX
  type i32 = n: int | I32_MIN <= n <= I32_MAX

  datatype Option<T> = None | Some(value: T)

  /** Why a Rust expression panics (the build is taken to have overflow checks on). */
  datatype Panic =
    | ParseIntUnwrap      // `v.parse::<u32>().unwrap()` on an `Err`
    | PowOverflow         // `u32::pow` overflowed
    | MulOverflow         // `u32 * u32` overflowed
    | AddOverflow         // the `u32` sum overflowed
    | SubOverflow         // `usize - usize` went below zero
    | LocalOffsetUnwrap   // `current_local_offset().unwrap()` on an `Err`
    | FormatUnwrap        // `format(&Rfc3339).unwrap()` on an `Err`

  /** The error a `?` propagates out of the client's code. */
  datatype Error = DateParse

  /** The result of evaluating a Rust expression: a value, an error returned
      by `?`, or a panic. */
  datatype Outcome<T> = Ok(value: T) | Err(error: Error) | Panic(panic: Panic)

  function Min(a: int, b: int): int { if a <= b then a else b }
  function Max(a: int, b: int): int { if a <= b then b else a }

  function Repeat(c: char, n: nat): (r: string)
    ensures |r| == n && forall i :: 0 <= i < n ==> r[i] == c
  {
    if n == 0 then [] else [c] + Repeat(c, n - 1)
  }

  // ---------------------------------------------------------------------
  // Decimal digits

  predicate IsDigit(c: char) { '0' <= c <= '9' }

  predicate IsDigits(s: string) { forall i :: 0 <= i < |s| ==> IsDigit(s[i]) }

  function DigitValue(c: char): (d: nat)
    requires IsDigit(c)
    ensures d < 10
  {
    (c as int) - ('0' as int)
  }

  function DigitChar(d: nat): (c: char)
    requires d < 10
    ensures IsDigit(c) && DigitValue(c) == d
  {
    ((('0' as int) + d) as char)
  }

  lemma DigitsHaveNoColon(s: string)
    requires IsDigits(s)
    ensures ':' !in s && ' ' !in s
  {
    forall k | 0 <= k < |s|
      ensures s[k] != ':' && s[k] != ' '
    {
      assert IsDigit(s[k]);
    }
  }

  /** The value of a string of decimal digits, most significant first. */
  function DigitsValue(s: string): nat
    requires IsDigits(s)
  {
    if s == [] then 0 else 10 * DigitsValue(s[..|s| - 1]) + DigitValue(s[|s| - 1])
  }

  /** The shortest decimal text of `n` (what `{}` prints for a non-negative integer). */
  function Decimal(n: nat): (r: string)
    ensures 1 <= |r| && IsDigits(r)
    ensures r[0] == '0' ==> n == 0
    ensures n < 10 <==> |r| == 1
    decreases n
  {
    if n < 10 then [DigitChar(n)] else Decimal(n / 10) + [DigitChar(n % 10)]
  }

  lemma {:induction false} DecimalValue(n: nat)
    ensures DigitsValue(Decimal(n)) == n
    decreases n
  {
    if n >= 10 {
      var t := Decimal(n / 10);
      assert (t + [DigitChar(n % 10)])[..|t|] == t;
      DecimalValue(n / 10);
    }
  }

  /** Leading zeros do not change the value of a digit string. */
  lemma {:induction false} LeadingZerosValue(z: nat, s: string)
    requires IsDigits(s)
    ensures IsDigits(Repeat('0', z) + s)
    ensures DigitsValue(Repeat('0', z) + s) == DigitsValue(s)
    decreases |s|
  {
    var zs := Repeat('0', z);
    if s == [] {
      assert zs + s == zs;
      ZerosValue(z);
    } else {
      var s' := s[..|s| - 1];
      assert (zs + s)[..|zs + s| - 1] == zs + s';
      LeadingZerosValue(z, s');
    }
  }

  lemma {:induction false} ZerosValue(z: nat)
    ensures IsDigits(Repeat('0', z)) && DigitsValue(Repeat('0', z)) == 0
  {
    if z > 0 {
      var zs := Repeat('0', z);
      assert zs[..z - 1] == Repeat('0', z - 1);
      ZerosValue(z - 1);
    }
  }

  /** `n` in exactly `w` digits, zero-padded on the left: the fixed-width
      rendering of a date or time component. Exact when `n < 10^w`. */
  function Pad(n: nat, w: nat): (r: string)
    ensures |r| == w && IsDigits(r)
  {
    if w == 0 then [] else Pad(n / 10, w - 1) + [DigitChar(n % 10)]
  }

  function Pow10(w: nat): (p: nat)
    ensures p >= 1
  {
    if w == 0 then 1 else 10 * Pow10(w - 1)
  }

  /** Reading back a padded component gives the component (when it fits). */
  lemma {:induction false} PadValue(n: nat, w: nat)
    requires n < Pow10(w)
    ensures DigitsValue(Pad(n, w)) == n
  {
    if w > 0 {
      var t := Pad(n / 10, w - 1);
      assert (t + [DigitChar(n % 10)])[..w - 1] == t;
      PadValue(n / 10, w - 1);
    }
  }

  /** A digit string is the padded rendering of its own value at its own width. */
  lemma {:induction false} PadOfValue(s: string)
    requires IsDigits(s)
    ensures DigitsValue(s) < Pow10(|s|)
    ensures Pad(DigitsValue(s), |s|) == s
  {
    if s != [] {
      var s' := s[..|s| - 1];
      PadOfValue(s');
      var v := DigitsValue(s);
      assert v / 10 == DigitsValue(s') && v % 10 == DigitValue(s[|s| - 1]);
      assert DigitChar(DigitValue(s[|s| - 1])) == s[|s| - 1];
      assert s == s' + [s[|s| - 1]];
    }
  }

  // ---------------------------------------------------------------------
  // u32::from_str

  /** `s.parse::<u32>()`: an optional `+`, then one or more ASCII digits whose
      value fits in 32 bits. A `-`, a space or an empty text is an error. */
  function ParseU32(s: string): (r: Option<u32>)
    ensures r.Some? ==> |s| > 0 && (IsDigit(s[0]) || s[0] == '+')
    ensures |s| > 0 && IsDigits(s) && DigitsValue(s) <= U32_MAX ==> r == Some(DigitsValue(s))
  {
    var digits := if |s| > 0 && s[0] == '+' then s[1..] else s;
    if |digits| == 0 || !IsDigits(digits) then None
    else if DigitsValue(digits) <= U32_MAX then Some(DigitsValue(digits))
    else None
  }

  /** A text that parses is an optional `+` followed by the zero-padded
      digits of its value, at least one of them: nothing else (no letter,
      sign, space or value past `u32::MAX`) can follow. So `"1a"`, `"-1"`,
      `" 1"`, `""`, `"+"` and `"4294967296"` are all refused. */
  lemma ParseU32Shape(s: string)
    requires ParseU32(s).Some?
    ensures var sign := if s[0] == '+' then "+" else "";
            var v, w := ParseU32(s).value, |s| - |sign|;
            w >= 1 && v < Pow10(w) && s == sign + Pad(v, w)
  {
    var digits := ParseU32Digits(s);
    PadOfValue(digits);
    if s[0] == '+' {
      assert |digits| == |s| - 1 && s == "+" + digits;
    } else {
      assert s == "" + digits;
    }
  }

  /** The digits after an optional leading `+` of a text that parses. */
  lemma ParseU32Digits(s: string) returns (digits: string)
    requires ParseU32(s).Some?
    ensures |digits| > 0 && IsDigits(digits) && DigitsValue(digits) == ParseU32(s).value
    ensures digits == if s[0] == '+' then s[1..] else s
  {
    digits := if s[0] == '+' then s[1..] else s;
  }

  /** Texts that `u32::from_str` refuses: a trailing letter, a sign other
      than one leading `+`, a space, nothing. */
  lemma ParseU32Refusals()
    ensures ParseU32("1a") == None && ParseU32("-1") == None && ParseU32(" 1") == None
    ensures ParseU32("") == None && ParseU32("+") == None && ParseU32("++1") == None
  {
    assert !IsDigit("1a"[1]) && !IsDigit("-1"[0]) && !IsDigit(" 1"[0]);
    assert "+"[1..] == [] && "++1"[1..] == "+1" && !IsDigit("+1"[0]);
  }

  /** `2^32` is one past the largest value; leading zeros after a `+` are accepted. */
  lemma ParseU32Edges()
    ensures ParseU32("4294967296") == None && ParseU32("+007") == Some(7)
  {
    DigitsOfTwoToThe32();
    assert "+007"[1..] == "007";
    assert DigitsValue("0") == 0 && DigitsValue("00") == 0 && DigitsValue("007") == 7;
  }

  lemma DigitsOfTwoToThe32()
    ensures DigitsValue("4294967296") == U32_MAX + 1
  {
    assert DigitsValue("4") == 4;
    assert "42"[..1] == "4" && DigitsValue("42") == 42;
    assert "429"[..2] == "42" && DigitsValue("429") == 429;
    assert "4294"[..3] == "429" && DigitsValue("4294") == 4294;
    assert "42949"[..4] == "4294" && DigitsValue("42949") == 42949;
    assert "429496"[..5] == "42949" && DigitsValue("429496") == 429496;
    assert "4294967"[..6] == "429496" && DigitsValue("4294967") == 4294967;
    assert "42949672"[..7] == "4294967" && DigitsValue("42949672") == 42949672;
    assert "429496729"[..8] == "42949672" && DigitsValue("429496729") == 429496729;
    assert "4294967296"[..9] == "429496729" && DigitsValue("4294967296") == 4294967296;
  }

  /** Conversely, the zero-padded digits of a `u32`, with or without a
      leading `+`, parse to that value, whatever the number of leading zeros. */
  lemma ParseU32OfPad(v: nat, w: nat)
    requires v <= U32_MAX && 1 <= w && v < Pow10(w)
    ensures ParseU32(Pad(v, w)) == Some(v)
    ensures ParseU32("+" + Pad(v, w)) == Some(v)
  {
    var t := Pad(v, w);
    PadValue(v, w);
    assert t[0] != '+' by {
      assert IsDigit(t[0]);
    }
    ParseU32Plus(t);
  }

  /** One leading `+` before a text that does not start with `+` changes nothing. */
  lemma ParseU32Plus(t: string)
    requires |t| > 0 && t[0] != '+'
    ensures ParseU32("+" + t) == ParseU32(t)
  {
    assert ("+" + t)[1..] == t;
  }

  lemma ParseU32Decimal(n: nat)
    requires n <= U32_MAX
    ensures ParseU32(Decimal(n)) == Some(n)
  {
    DecimalValue(n);
  }

  // ---------------------------------------------------------------------
  // Integer Display with a width: `{:w}` and `{:0w}`

  function Abs(n: int): nat { if n < 0 then -n else n }

  /** Rust's `/` on integers, which truncates toward zero (for a positive divisor). */
  function TruncDiv(a: int, b: int): (q: int)
    requires b > 0
    ensures a >= 0 ==> b * q <= a < b * (q + 1)
    ensures a < 0 ==> b * (q - 1) < a <= b * q
  {
    if a >= 0 then a / b else -((-a) / b)
  }

  /** Rust's `%` on integers: the remainder takes the sign of the dividend. */
  function TruncRem(a: int, b: int): (r: int)
    requires b > 0
    ensures a == b * TruncDiv(a, b) + r
    ensures a >= 0 ==> 0 <= r < b
    ensures a < 0 ==> -b < r <= 0
  {
    a - b * TruncDiv(a, b)
  }

  /** `format!("{:w}", n)` (spaces before the sign) or, with `zeroPad`,
      `format!("{:0w}", n)` (zeros after the sign). */
  function FormatInt(n: int, w: nat, zeroPad: bool): (r: string)
    ensures |r| == Max(w, |Decimal(Abs(n))| + (if n < 0 then 1 else 0))
  {
    var sign := if n < 0 then "-" else "";
    var digits := Decimal(Abs(n));
    var fill := Max(w - |sign| - |digits|, 0);
    if zeroPad then sign + Repeat('0', fill) + digits
    else Repeat(' ', fill) + sign + digits
  }

  /** A zero-padded non-negative integer reads back as itself. */
  lemma FormatZeroPaddedValue(n: nat, w: nat)
    ensures IsDigits(FormatInt(n, w, true))
    ensures DigitsValue(FormatInt(n, w, true)) == n
  {
    var digits := Decimal(n);
    var fill := Max(w - |digits|, 0);
    assert FormatInt(n, w, true) == Repeat('0', fill) + digits;
    LeadingZerosValue(fill, digits);
    DecimalValue(n);
  }

  /** A space-padded non-negative integer narrower than its field starts with a space. */
  lemma FormatSpacePaddedLeads(n: nat, w: nat)
    requires |Decimal(n)| < w
    ensures FormatInt(n, w, false)[0] == ' '
    ensures FormatInt(n, w, false) == Repeat(' ', w - |Decimal(n)|) + Decimal(n)
  {
  }

  /** A non-negative integer at least as wide as its field is printed bare. */
  lemma FormatFullWidth(n: nat, w: nat, zeroPad: bool)
    requires |Decimal(n)| >= w
    ensures FormatInt(n, w, zeroPad) == Decimal(n)
  {
    assert Repeat('0', 0) == [] && Repeat(' ', 0) == [];
  }

  // ---------------------------------------------------------------------
  // str::split(sep)

  /** `s.split(sep)`: the maximal pieces between separators, in order; an
      empty text gives one empty piece and adjacent separators give empty pieces. */
  function Split(s: string, sep: char): (parts: seq<string>)
    ensures |parts| >= 1
    ensures forall i :: 0 <= i < |parts| ==> sep !in parts[i]
    ensures Join(parts, sep) == s
  {
    if |s| == 0 then [""]
    else
      var rest := Split(s[1..], sep);
      if s[0] == sep then
        assert s == [sep] + s[1..];
        [""] + rest
      else
        var parts := [[s[0]] + rest[0]] + rest[1..];
        assert parts[1..] == rest[1..];
        JoinCons(parts, sep);
        JoinCons(rest, sep);
        parts
  }

  /** The inverse of `Split`: the pieces with `sep` between them. */
  function Join(parts: seq<string>, sep: char): string
    requires |parts| >= 1
  {
    if |parts| == 1 then parts[0] else parts[0] + [sep] + Join(parts[1..], sep)
  }

  lemma JoinCons(parts: seq<string>, sep: char)
    requires |parts| >= 1
    ensures Join(parts, sep) == parts[0] + (if |parts| == 1 then [] else [sep] + Join(parts[1..], sep))
  {
  }

  lemma {:induction false} SplitWithoutSep(a: string, sep: char)
    requires sep !in a
    ensures Split(a, sep) == [a]
  {
    if |a| > 0 {
      assert sep !in a[1..];
      SplitWithoutSep(a[1..], sep);
      assert a == [a[0]] + a[1..];
    }
  }

  lemma {:induction false} SplitAfterPiece(a: string, b: string, sep: char)
    requires sep !in a
    ensures Split(a + [sep] + b, sep) == [a] + Split(b, sep)
  {
    var s := a + [sep] + b;
    if |a| == 0 {
      assert s == [sep] + b && s[1..] == b;
    } else {
      assert s[1..] == a[1..] + [sep] + b;
      assert sep !in a[1..];
      SplitAfterPiece(a[1..], b, sep);
      assert a == [a[0]] + a[1..];
    }
  }

  /** Splitting the join of separator-free pieces gives the pieces back. */
  lemma {:induction false} SplitJoin(parts: seq<string>, sep: char)
    requires |parts| >= 1
    requires forall i :: 0 <= i < |parts| ==> sep !in parts[i]
    ensures Split(Join(parts, sep), sep) == parts
  {
    if |parts| == 1 {
      SplitWithoutSep(parts[0], sep);
    } else {
      assert sep !in parts[0];
      SplitAfterPiece(parts[0], Join(parts[1..], sep), sep);
      SplitJoin(parts[1..], sep);
      assert parts == [parts[0]] + parts[1..];
    }
  }
}
