/** `TwitterService.PercentEncode`: percent-encoding of OAuth parameters
    (section 3.6 of RFC 5849, unreserved set of section 2.3 of RFC 3986).
    The encoder walks the string one UTF-16 code unit at a time, copies
    unreserved units and replaces every other unit by the `%XX` escapes of
    the UTF-8 bytes .NET produces for that single unit, skipping zero bytes. */
module PercentEncoding {
  import opened Wrappers
  import opened Text

  const Percent: CodeUnit := 0x25

  /** `A-Z a-z 0-9 - . _ ~`. */
  predicate IsUnreserved(c: CodeUnit) {
    || (0x41 <= c <= 0x5A)
    || (0x61 <= c <= 0x7A)
    || (0x30 <= c <= 0x39)
    || c == 0x2D || c == 0x2E || c == 0x5F || c == 0x7E
  }

  predicate IsSurrogate(c: CodeUnit) {
    0xD800 <= c <= 0xDFFF
  }

  /** UTF-8 encoding of one Unicode scalar value (section 3 of RFC 3629). */
  function Utf8Scalar(v: nat): (r: seq<Byte>)
    requires v < 0x11_0000
    ensures 1 <= |r| <= 4
    ensures v != 0 ==> forall i :: 0 <= i < |r| ==> r[i] != 0
  {
    if v < 0x80 then [v as Byte]
    else if v < 0x800 then [(0xC0 + v / 0x40) as Byte, (0x80 + v % 0x40) as Byte]
    else if v < 0x1_0000 then
      [(0xE0 + v / 0x1000) as Byte, (0x80 + (v / 0x40) % 0x40) as Byte, (0x80 + v % 0x40) as Byte]
    else
      [(0xF0 + v / 0x4_0000) as Byte, (0x80 + (v / 0x1000) % 0x40) as Byte,
       (0x80 + (v / 0x40) % 0x40) as Byte, (0x80 + v % 0x40) as Byte]
  }

  /** `Encoding.UTF8.GetBytes` of a one-unit string: a lone surrogate is replaced by U+FFFD. */
  function Utf8OfUnit(c: CodeUnit): seq<Byte> {
    if IsSurrogate(c) then Utf8Scalar(0xFFFD) else Utf8Scalar(c as nat)
  }

  /** Standard UTF-8 of a string without surrogates, the bytes the encoder ought to escape. */
  function Utf8(s: Str): seq<Byte>
    requires forall i :: 0 <= i < |s| ==> !IsSurrogate(s[i])
  {
    if s == [] then [] else Utf8Scalar(s[0] as nat) + Utf8(s[1..])
  }

  predicate IsUpperHex(c: CodeUnit) {
    (0x30 <= c <= 0x39) || (0x41 <= c <= 0x46)
  }

  function HexDigit(n: nat): (c: CodeUnit)
    requires n < 16
    ensures IsUpperHex(c)
    ensures HexValue(c) == n
  {
    if n < 10 then (0x30 + n) as CodeUnit else (0x41 + n - 10) as CodeUnit
  }

  function HexValue(c: CodeUnit): (n: nat)
    requires IsUpperHex(c)
    ensures n < 16
  {
    if c <= 0x39 then (c - 0x30) as nat else (c - 0x41 + 10) as nat
  }

  /** `"%" + b.ToString("x2").ToUpper()`. */
  function Escape(b: Byte): Str {
    [Percent, HexDigit(b as nat / 16), HexDigit(b as nat % 16)]
  }

  function NonZero(bs: seq<Byte>): (r: seq<Byte>)
    ensures |r| <= |bs|
    ensures (forall i :: 0 <= i < |bs| ==> bs[i] != 0) ==> r == bs
  {
    if bs == [] then [] else (if bs[0] == 0 then [] else [bs[0]]) + NonZero(bs[1..])
  }

  /** The escapes of the bytes, zero bytes skipped. */
  function EscapeBytes(bs: seq<Byte>): (r: Str)
    ensures |r| == 3 * |NonZero(bs)|
    ensures forall i :: 0 <= i < |r| ==> IsUnreserved(r[i]) || r[i] == Percent
    ensures r != [] ==> r[0] == Percent
  {
    if bs == [] then [] else (if bs[0] == 0 then [] else Escape(bs[0])) + EscapeBytes(bs[1..])
  }

  /** Reads back a string made of unreserved characters and `%XX` escapes:
      each unreserved character stands for its ASCII byte, each escape for
      the byte it spells. `None` when the string is not of that shape. */
  function Decode(r: Str): Option<seq<Byte>>
    decreases |r|
  {
    if r == [] then Some([])
    else if IsUnreserved(r[0]) then
      match Decode(r[1..])
      case None => None
      case Some(rest) => Some([r[0] as int as Byte] + rest)
    else if |r| >= 3 && r[0] == Percent && IsUpperHex(r[1]) && IsUpperHex(r[2]) then
      match Decode(r[3..])
      case None => None
      case Some(rest) => Some([(16 * HexValue(r[1]) + HexValue(r[2])) as Byte] + rest)
    else None
  }

  /** Only unreserved characters and `%XX` escapes with upper-case digits. */
  predicate WellEncoded(r: Str) {
    Decode(r).Some?
  }

  lemma {:induction false} DecodeConcat(a: Str, b: Str)
    requires WellEncoded(a) && WellEncoded(b)
    ensures Decode(a + b) == Some(Decode(a).value + Decode(b).value)
    decreases |a|, 1
  {
    if a == [] {
      assert a + b == b;
      assert Decode(a) == Some([]);
      assert Decode(a).value + Decode(b).value == Decode(b).value;
    } else if IsUnreserved(a[0]) {
      DecodeConcatUnreserved(a, b);
    } else {
      DecodeConcatEscape(a, b);
    }
  }

  lemma {:induction false} DecodeConcatUnreserved(a: Str, b: Str)
    requires WellEncoded(a) && WellEncoded(b) && a != [] && IsUnreserved(a[0])
    ensures Decode(a + b) == Some(Decode(a).value + Decode(b).value)
    decreases |a|, 0
  {
    assert (a + b)[0] == a[0];
    assert (a + b)[1..] == a[1..] + b;
    DecodeConcat(a[1..], b);
    var byte := a[0] as int as Byte;
    var x := Decode(a[1..]).value;
    var y := Decode(b).value;
    var xy := Decode(a[1..] + b).value;
    assert xy == x + y;
    assert Decode(a) == Some([byte] + x);
    assert Decode(a + b) == Some([byte] + xy);
    assert [byte] + xy == ([byte] + x) + y;
  }

  lemma {:induction false} DecodeConcatEscape(a: Str, b: Str)
    requires WellEncoded(a) && WellEncoded(b) && a != [] && !IsUnreserved(a[0])
    ensures Decode(a + b) == Some(Decode(a).value + Decode(b).value)
    decreases |a|, 0
  {
    assert |a| >= 3 && a[0] == Percent && IsUpperHex(a[1]) && IsUpperHex(a[2]);
    assert WellEncoded(a[3..]);
    assert (a + b)[0] == a[0] && (a + b)[1] == a[1] && (a + b)[2] == a[2];
    assert (a + b)[3..] == a[3..] + b;
    DecodeConcat(a[3..], b);
    var byte := (16 * HexValue(a[1]) + HexValue(a[2])) as Byte;
    var x := Decode(a[3..]).value;
    var y := Decode(b).value;
    var xy := Decode(a[3..] + b).value;
    assert xy == x + y;
    assert Decode(a) == Some([byte] + x);
    assert Decode(a + b) == Some([byte] + xy);
    assert [byte] + xy == ([byte] + x) + y;
  }

  lemma DecodeEscape(b: Byte)
    ensures Decode(Escape(b)) == Some([b])
  {
    var e := Escape(b);
    assert e[3..] == [];
    assert Decode([]) == Some([]);
    var v := (16 * HexValue(e[1]) + HexValue(e[2])) as Byte;
    assert Decode(e) == Some([v] + Decode(e[3..]).value);
    var w := Decode(e[3..]).value;
    assert w == [];
    assert [v] + w == [v];
  }

  lemma DecodeUnreserved(c: CodeUnit)
    requires IsUnreserved(c)
    ensures Decode([c]) == Some([c as int as Byte])
  {
    assert [c][1..] == [];
    assert Decode([]) == Some([]);
    var w := Decode([c][1..]).value;
    assert w == [];
    assert [c as int as Byte] + w == [c as int as Byte];
  }

  lemma {:induction false} DecodeEscapeBytes(bs: seq<Byte>)
    ensures Decode(EscapeBytes(bs)) == Some(NonZero(bs))
  {
    if bs == [] {
      assert Decode([]) == Some([]);
    } else {
      DecodeEscapeBytes(bs[1..]);
      if bs[0] != 0 {
        DecodeEscape(bs[0]);
        DecodeConcat(Escape(bs[0]), EscapeBytes(bs[1..]));
        assert NonZero(bs) == [bs[0]] + NonZero(bs[1..]);
      } else {
        assert EscapeBytes(bs) == EscapeBytes(bs[1..]);
        assert NonZero(bs) == NonZero(bs[1..]);
      }
    }
  }

  /** The bytes one code unit stands for in the encoder's output. */
  function UnitBytes(c: CodeUnit): seq<Byte> {
    if IsUnreserved(c) then [c as int as Byte] else NonZero(Utf8OfUnit(c))
  }

  /** `PercentEncode` applied to one code unit. */
  function EncodeUnit(c: CodeUnit): (r: Str)
    ensures r == [c] <==> IsUnreserved(c)
    ensures r == [] <==> c == 0
    ensures forall i :: 0 <= i < |r| ==> IsUnreserved(r[i]) || r[i] == Percent
    ensures !IsUnreserved(c) ==> |r| == 3 * |NonZero(Utf8OfUnit(c))|
  {
    if IsUnreserved(c) then [c]
    else
      var r := EscapeBytes(Utf8OfUnit(c));
      assert c != 0 ==> NonZero(Utf8OfUnit(c)) == Utf8OfUnit(c);
      r
  }

  /** One code unit's encoding reads back as the bytes it stands for. */
  lemma DecodeEncodeUnit(c: CodeUnit)
    ensures Decode(EncodeUnit(c)) == Some(UnitBytes(c))
  {
    if IsUnreserved(c) {
      DecodeUnreserved(c);
    } else {
      DecodeEscapeBytes(Utf8OfUnit(c));
    }
  }

  /** `TwitterService.PercentEncode`. The output never holds a separator such as
      '&', '=', ',', ' ' or '"': only unreserved characters and '%'. */
  function PercentEncode(s: Str): (r: Str)
    ensures forall i :: 0 <= i < |r| ==> IsUnreserved(r[i]) || r[i] == Percent
  {
    if s == [] then [] else EncodeUnit(s[0]) + PercentEncode(s[1..])
  }

  /** The bytes an encoded string stands for, unit by unit. */
  function EncodedBytes(s: Str): seq<Byte> {
    if s == [] then [] else UnitBytes(s[0]) + EncodedBytes(s[1..])
  }

  /** The encoder's output is well formed and reads back as the bytes of each unit in order. */
  lemma {:induction false} DecodePercentEncode(s: Str)
    ensures WellEncoded(PercentEncode(s))
    ensures Decode(PercentEncode(s)) == Some(EncodedBytes(s))
  {
    if s != [] {
      DecodePercentEncode(s[1..]);
      DecodeEncodeUnit(s[0]);
      DecodeConcat(EncodeUnit(s[0]), PercentEncode(s[1..]));
    }
  }

  /** Round trip: for a string without NUL and without surrogate code units,
      decoding the escapes yields exactly the UTF-8 bytes of the string. */
  lemma {:induction false} PercentEncodeRoundTrip(s: Str)
    requires forall i :: 0 <= i < |s| ==> s[i] != 0 && !IsSurrogate(s[i])
    ensures Decode(PercentEncode(s)) == Some(Utf8(s))
  {
    DecodePercentEncode(s);
    Utf8OfEncodedBytes(s);
  }

  lemma {:induction false} Utf8OfEncodedBytes(s: Str)
    requires forall i :: 0 <= i < |s| ==> s[i] != 0 && !IsSurrogate(s[i])
    ensures EncodedBytes(s) == Utf8(s)
  {
    if s != [] {
      Utf8OfEncodedBytes(s[1..]);
      assert UnitBytes(s[0]) == Utf8Scalar(s[0] as nat);
    }
  }

  /** Encoding distributes over concatenation, so unreserved characters are copied
      in place and in order wherever they occur. */
  lemma {:induction false} PercentEncodeConcat(a: Str, b: Str)
    ensures PercentEncode(a + b) == PercentEncode(a) + PercentEncode(b)
  {
    if a == [] {
      assert a + b == b;
    } else {
      assert (a + b)[1..] == a[1..] + b;
      PercentEncodeConcat(a[1..], b);
    }
  }

  /** A string of unreserved characters is its own encoding. */
  lemma {:induction false} PercentEncodeUnreserved(s: Str)
    requires forall i :: 0 <= i < |s| ==> IsUnreserved(s[i])
    ensures PercentEncode(s) == s
  {
    if s != [] {
      PercentEncodeUnreserved(s[1..]);
    }
  }

  /** An astral character arrives as a surrogate pair and each half is encoded on
      its own, so the pair becomes two U+FFFD replacement characters instead of the
      character's own four UTF-8 bytes. */
  lemma ReplacementCharacterBytes()
    ensures Utf8Scalar(0xFFFD) == [0xEF, 0xBF, 0xBD]
  {
  }

  lemma {:induction false} EncodedBytesPair(a: CodeUnit, b: CodeUnit)
    ensures EncodedBytes([a, b]) == UnitBytes(a) + UnitBytes(b)
  {
    assert [a, b][1..] == [b];
    assert [b][1..] == [];
    assert EncodedBytes([b]) == UnitBytes(b) + EncodedBytes([]);
    assert EncodedBytes([a, b]) == UnitBytes(a) + EncodedBytes([b]);
  }

  lemma AstralCharacterIsReplaced(c: char)
    requires c as int >= 0x1_0000
    ensures Utf8Scalar(0xFFFD) == [0xEF, 0xBF, 0xBD]
    ensures Decode(PercentEncode(Utf16([c]))) == Some(Utf8Scalar(0xFFFD) + Utf8Scalar(0xFFFD))
    ensures Decode(PercentEncode(Utf16([c]))) != Some(Utf8Scalar(c as int))
  {
    ReplacementCharacterBytes();
    var units := Utf16([c]);
    assert [c][1..] == [];
    assert units == CharUnits(c) + Utf16([]);
    assert units == CharUnits(c);
    var hi, lo := units[0], units[1];
    assert units == [hi, lo];
    assert IsSurrogate(hi) && IsSurrogate(lo);
    assert UnitBytes(hi) == [0xEF, 0xBF, 0xBD];
    assert UnitBytes(lo) == [0xEF, 0xBF, 0xBD];
    DecodePercentEncode(units);
    EncodedBytesPair(hi, lo);
    assert |Utf8Scalar(c as int)| == 4;
  }
}
