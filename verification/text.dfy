/** .NET strings as sequences of UTF-16 code units, with the few string operations
    the services rely on: decimal parsing and formatting, prefixes, joining and
    the ordinal order. */
module Text {
  import opened Wrappers

  /** One UTF-16 code unit (a C# `char`). */
  newtype CodeUnit = x: int | 0 <= x < 0x1_0000

  /** One octet. */
  newtype Byte = x: int | 0 <= x < 0x100

  /** A .NET `string`: any sequence of code units, lone surrogates included. */
  type Str = seq<CodeUnit>

  const MaxULong: nat := 0xFFFF_FFFF_FFFF_FFFF
  const MinInt32: int := -0x8000_0000
  const MaxInt32: int := 0x7FFF_FFFF

  /** The UTF-16 encoding of one Unicode scalar value. */
  function CharUnits(c: char): (r: Str)
    ensures 1 <= |r| <= 2
    ensures |r| == 1 <==> c as int < 0x1_0000
  {
    var v := c as int;
    if v < 0x1_0000 then [v as CodeUnit]
    else [(0xD800 + (v - 0x1_0000) / 0x400) as CodeUnit, (0xDC00 + (v - 0x1_0000) % 0x400) as CodeUnit]
  }

  /** UTF-16 encoding of a string of Unicode scalar values: what a .NET string holds. */
  function Utf16(s: string): Str
  {
    if s == [] then [] else CharUnits(s[0]) + Utf16(s[1..])
  }

  /** A literal of the program as a .NET string. Every literal the system uses
      lies in the Basic Multilingual Plane, where each character is one code
      unit (`LitIsUtf16`); a character outside it would read as U+FFFD. */
  function Lit(s: string): (r: Str)
    ensures |r| == |s|
    ensures forall i :: 0 <= i < |s| && s[i] as int < 0x1_0000 ==> r[i] as int == s[i] as int
  {
    seq(|s|, i requires 0 <= i < |s| => if s[i] as int < 0x1_0000 then s[i] as int as CodeUnit else 0xFFFD)
  }

  /** `Lit` over a table of literals. */
  function LitAll(names: seq<string>): (r: seq<Str>)
    ensures |r| == |names| && forall i :: 0 <= i < |r| ==> r[i] == Lit(names[i])
  {
    seq(|names|, i requires 0 <= i < |names| => Lit(names[i]))
  }

  /** `Lit` agrees with the UTF-16 encoding. */
  lemma {:induction false} LitIsUtf16(s: string)
    requires forall i :: 0 <= i < |s| ==> s[i] as int < 0x1_0000
    ensures Lit(s) == Utf16(s)
  {
    if s != [] {
      LitIsUtf16(s[1..]);
      assert Lit(s) == [s[0] as int as CodeUnit] + Lit(s[1..]);
    }
  }

  // ---------------------------------------------------------------- digits

  predicate IsDigit(c: CodeUnit) {
    0x30 <= c <= 0x39
  }

  predicate AllDigits(s: Str) {
    forall i :: 0 <= i < |s| ==> IsDigit(s[i])
  }

  function Digit(n: nat): (c: CodeUnit)
    requires n < 10
    ensures IsDigit(c)
  {
    (0x30 + n) as CodeUnit
  }

  /** The value of a string of decimal digits, most significant first. */
  function DigitsValue(s: Str): nat
    requires AllDigits(s)
  {
    if s == [] then 0
    else 10 * DigitsValue(s[..|s| - 1]) + (s[|s| - 1] - 0x30) as int
  }

  /** Shortest decimal representation of a natural number (`n.ToString()`). */
  function FormatNat(n: nat): (r: Str)
    ensures 1 <= |r|
    ensures AllDigits(r)
  {
    if n < 10 then [Digit(n)] else FormatNat(n / 10) + [Digit(n % 10)]
  }

  /** Formatting and then parsing a number gives the number back. */
  lemma {:induction false} DigitsValueOfFormatNat(n: nat)
    ensures DigitsValue(FormatNat(n)) == n
  {
    var r := FormatNat(n);
    if n >= 10 {
      DigitsValueOfFormatNat(n / 10);
      assert r[..|r| - 1] == FormatNat(n / 10);
    }
  }

  /** `n.ToString()` of a C# `int`, with a leading '-' for negative values. */
  function FormatInt(i: int): (r: Str)
    ensures 1 <= |r|
  {
    if i < 0 then [0x2D as CodeUnit] + FormatNat(-i) else FormatNat(i)
  }

  function Pow10(k: nat): (r: nat)
    ensures r >= 1
  {
    if k == 0 then 1 else 10 * Pow10(k - 1)
  }

  /** A number below `10^k` takes at most `k` digits. */
  lemma {:induction false} FormatNatShort(n: nat, k: nat)
    requires 1 <= k && n < Pow10(k)
    ensures |FormatNat(n)| <= k
  {
    if n >= 10 {
      assert k >= 2;
      assert n / 10 < Pow10(k - 1);
      FormatNatShort(n / 10, k - 1);
    }
  }

  /** Zero-padded decimal of at least `width` digits (the `dd`, `MM`, `yyyy` formats);
      exactly `width` digits when the number fits. */
  function PadNat(n: nat, width: nat): (r: Str)
    ensures AllDigits(r)
    ensures DigitsValue(r) == n
    ensures |r| >= width
    ensures 1 <= width && n < Pow10(width) ==> |r| == width
  {
    var digits := FormatNat(n);
    DigitsValueOfFormatNat(n);
    assert 1 <= width && n < Pow10(width) ==> |digits| <= width by {
      if 1 <= width && n < Pow10(width) {
        FormatNatShort(n, width);
      }
    }
    var r := Zeros(width - |digits|) + digits;
    LeadingZeros(width - |digits|, digits);
    r
  }

  function Zeros(k: int): (r: Str)
    ensures |r| == if k < 0 then 0 else k
    ensures AllDigits(r)
    decreases k
  {
    if k <= 0 then [] else [0x30 as CodeUnit] + Zeros(k - 1)
  }

  lemma {:induction false} LeadingZeros(k: int, s: Str)
    requires AllDigits(s)
    ensures AllDigits(Zeros(k) + s)
    ensures DigitsValue(Zeros(k) + s) == DigitsValue(s)
    decreases |s|
  {
    if s != [] {
      var t := Zeros(k) + s;
      assert t[..|t| - 1] == Zeros(k) + s[..|s| - 1];
      LeadingZeros(k, s[..|s| - 1]);
    } else {
      ZerosValue(k);
      assert Zeros(k) + s == Zeros(k);
    }
  }

  lemma {:induction false} ZerosValue(k: int)
    ensures DigitsValue(Zeros(k)) == 0
    decreases k
  {
    if k > 0 {
      var z := Zeros(k);
      assert z[..|z| - 1] == Zeros(k - 1) by {
        ZerosAppend(k - 1);
      }
      ZerosValue(k - 1);
    }
  }

  lemma {:induction false} ZerosAppend(k: int)
    requires k >= 0
    ensures Zeros(k + 1) == Zeros(k) + [0x30 as CodeUnit]
    decreases k
  {
    if k > 0 {
      ZerosAppend(k - 1);
    }
  }

  /** `ulong.TryParse` restricted to plain decimal digits: `None` on an empty string,
      a non-digit or a value above `ulong.MaxValue`. */
  function ParseULong(s: Str): (r: Option<nat>)
    ensures r.Some? <==> |s| > 0 && AllDigits(s) && DigitsValue(s) <= MaxULong
    ensures r.Some? ==> r.value == DigitsValue(s)
  {
    if |s| > 0 && AllDigits(s) && DigitsValue(s) <= MaxULong then Some(DigitsValue(s)) else None
  }

  /** The decimal text of any number up to `ulong.MaxValue` parses back to it. */
  lemma ParseULongOfFormatNat(n: nat)
    requires n <= MaxULong
    ensures ParseULong(FormatNat(n)) == Some(n)
  {
    DigitsValueOfFormatNat(n);
  }

  /** Digits, optionally after one '-' or '+': the text `int.Parse` reads as a number. */
  predicate SignedDigits(s: Str) {
    |s| > 0 && (AllDigits(s) || (|s| > 1 && (s[0] == 0x2D || s[0] == 0x2B) && AllDigits(s[1..])))
  }

  /** `int.Parse`-style reading of an optionally signed decimal within the range of a C# `int`. */
  function ParseInt32(s: Str): (r: Option<int>)
    ensures r.Some? ==> MinInt32 <= r.value <= MaxInt32
    ensures r.Some? && |s| > 0 && IsDigit(s[0]) ==> AllDigits(s) && r.value == DigitsValue(s)
    ensures r.Some? ==> SignedDigits(s)
    ensures r.Some? && (s[0] == 0x2D || s[0] == 0x2B) ==>
      r.value == (if s[0] == 0x2D then 0 - DigitsValue(s[1..]) else DigitsValue(s[1..]))
    ensures |s| > 0 && AllDigits(s) && DigitsValue(s) <= MaxInt32 ==> r == Some(DigitsValue(s))
    ensures |s| > 1 && s[0] == 0x2B && AllDigits(s[1..]) && DigitsValue(s[1..]) <= MaxInt32 ==>
      r == Some(DigitsValue(s[1..]))
    ensures |s| > 1 && s[0] == 0x2D && AllDigits(s[1..]) && DigitsValue(s[1..]) <= 0 - MinInt32 ==>
      r == Some(0 - DigitsValue(s[1..]))
  {
    var negative := |s| > 0 && s[0] == 0x2D;
    var signed := |s| > 0 && (s[0] == 0x2D || s[0] == 0x2B);
    var digits := if signed then s[1..] else s;
    if |digits| == 0 || !AllDigits(digits) then None
    else
      var magnitude: int := DigitsValue(digits);
      var v: int := if negative then 0 - magnitude else magnitude;
      if MinInt32 <= v <= MaxInt32 then Some(v) else None
  }

  /** Parsing the C# formatting of an `int` gives it back. */
  lemma {:induction false} ParseInt32OfFormatInt(i: int)
    requires MinInt32 <= i <= MaxInt32
    ensures ParseInt32(FormatInt(i)) == Some(i)
  {
    var s := FormatInt(i);
    if i < 0 {
      var d := FormatNat(-i);
      DigitsValueOfFormatNat(-i);
      assert s == [0x2D as CodeUnit] + d;
      assert s[1..] == d;
    } else {
      var d := FormatNat(i);
      DigitsValueOfFormatNat(i);
      assert s == d;
      assert IsDigit(s[0]);
    }
  }


  // ---------------------------------------------------------------- strings

  /** Ordinal `string.StartsWith`. */
  predicate StartsWith(s: Str, prefix: Str) {
    |prefix| <= |s| && s[..|prefix|] == prefix
  }

  /** Number of occurrences of one code unit. */
  function Count(s: Str, c: CodeUnit): nat {
    if s == [] then 0 else (if s[0] == c then 1 else 0) + Count(s[1..], c)
  }

  lemma {:induction false} CountConcat(a: Str, b: Str, c: CodeUnit)
    ensures Count(a + b, c) == Count(a, c) + Count(b, c)
  {
    if a == [] {
      assert a + b == b;
    } else {
      assert (a + b)[1..] == a[1..] + b;
      CountConcat(a[1..], b, c);
    }
  }

  lemma {:induction false} CountAbsent(s: Str, c: CodeUnit)
    requires c !in s
    ensures Count(s, c) == 0
  {
    if s != [] {
      CountAbsent(s[1..], c);
    }
  }

  /** `string.Join(sep, items)`: the items with `sep` between consecutive ones. */
  function Join(items: seq<Str>, sep: Str): Str
  {
    if |items| == 0 then []
    else if |items| == 1 then items[0]
    else Join(items[..|items| - 1], sep) + sep + items[|items| - 1]
  }

  /** A code unit of any item is a code unit of the join. */
  lemma {:induction false} JoinContains(items: seq<Str>, sep: Str, k: nat, c: CodeUnit)
    requires k < |items| && c in items[k]
    ensures c in Join(items, sep)
    decreases |items|
  {
    if |items| > 1 && k < |items| - 1 {
      var init := items[..|items| - 1];
      assert init[k] == items[k];
      JoinContains(init, sep, k, c);
    }
  }

  /** Index of the last `c` in `s`; `s` must contain one. */
  function LastIndexOf(s: Str, c: CodeUnit): (k: nat)
    requires c in s
    ensures k < |s| && s[k] == c
    ensures c !in s[k + 1..]
  {
    if s[|s| - 1] == c then |s| - 1
    else
      var k := LastIndexOf(s[..|s| - 1], c);
      assert s[k + 1..] == s[..|s| - 1][k + 1..] + [s[|s| - 1]];
      k
  }

  lemma {:induction false} LastIndexOfSeparator(a: Str, b: Str, c: CodeUnit)
    requires c !in b
    ensures LastIndexOf(a + [c] + b, c) == |a|
  {
    var s := a + [c] + b;
    if b != [] {
      assert s[|s| - 1] == b[|b| - 1];
      assert s[..|s| - 1] == a + [c] + b[..|b| - 1];
      LastIndexOfSeparator(a, b[..|b| - 1], c);
    }
  }

  /** `string.Split(c)`: the pieces between occurrences of `c`. */
  function Split(s: Str, c: CodeUnit): (r: seq<Str>)
    ensures |r| >= 1
    decreases |s|
  {
    if c !in s then [s]
    else
      var k := LastIndexOf(s, c);
      Split(s[..k], c) + [s[k + 1..]]
  }

  /** Splitting a join at a separator no item contains gives the items back. */
  lemma {:induction false} SplitJoin(items: seq<Str>, c: CodeUnit)
    requires |items| >= 1
    requires forall i :: 0 <= i < |items| ==> c !in items[i]
    ensures Split(Join(items, [c]), c) == items
  {
    if |items| > 1 {
      var init, last := items[..|items| - 1], items[|items| - 1];
      var j := Join(init, [c]);
      var s := j + [c] + last;
      assert Join(items, [c]) == s;
      assert s[|j|] == c;
      assert s[|j| + 1..] == last;
      LastIndexOfSeparator(j, last, c);
      assert s[..|j|] == j;
      SplitJoin(init, c);
      assert items == init + [last];
    }
  }

  /** Joining with a separator that no item contains puts exactly one
      separator between neighbours: the join has |items| - 1 of them. */
  lemma {:induction false} JoinCount(items: seq<Str>, sep: CodeUnit)
    requires forall i :: 0 <= i < |items| ==> sep !in items[i]
    ensures Count(Join(items, [sep]), sep) == if |items| == 0 then 0 else |items| - 1
  {
    if |items| == 1 {
      CountAbsent(items[0], sep);
    } else if |items| > 1 {
      var init := items[..|items| - 1];
      JoinCount(init, sep);
      CountConcat(Join(init, [sep]), [sep], sep);
      CountConcat(Join(init, [sep]) + [sep], items[|items| - 1], sep);
      CountAbsent(items[|items| - 1], sep);
    }
  }

  // ---------------------------------------------------------------- ordinal order

  /** Ordinal (code unit by code unit) string order, `string.CompareOrdinal(a, b) < 0`. */
  predicate OrdinalLess(a: Str, b: Str) {
    if a == [] then b != []
    else if b == [] then false
    else if a[0] != b[0] then a[0] < b[0]
    else OrdinalLess(a[1..], b[1..])
  }

  predicate OrdinalLessEq(a: Str, b: Str) {
    !OrdinalLess(b, a)
  }

  lemma {:induction false} OrdinalIrreflexive(a: Str)
    ensures !OrdinalLess(a, a)
  {
    if a != [] {
      OrdinalIrreflexive(a[1..]);
    }
  }

  lemma {:induction false} OrdinalTrichotomy(a: Str, b: Str)
    ensures a == b || OrdinalLess(a, b) || OrdinalLess(b, a)
  {
    if a != [] && b != [] && a[0] == b[0] {
      OrdinalTrichotomy(a[1..], b[1..]);
      if a[1..] == b[1..] {
        assert a == [a[0]] + a[1..] && b == [b[0]] + b[1..];
      }
    }
  }

  lemma {:induction false} OrdinalTransitive(a: Str, b: Str, c: Str)
    requires OrdinalLess(a, b) && OrdinalLess(b, c)
    ensures OrdinalLess(a, c)
  {
    if a != [] && a[0] == b[0] && b[0] == c[0] {
      OrdinalTransitive(a[1..], b[1..], c[1..]);
    }
  }

  lemma {:induction false} OrdinalAsymmetric(a: Str, b: Str)
    requires OrdinalLess(a, b)
    ensures !OrdinalLess(b, a)
  {
    if !OrdinalLess(b, a) {
    } else {
      OrdinalTransitive(a, b, a);
      OrdinalIrreflexive(a);
    }
  }
}
