/** UTF-16 as defined in sections 2.1 and 2.2 of RFC 2781. */
module Utf16 {
  import opened Prelude
  import Utf8

  type CodePoint = Utf8.CodePoint

  type CodeUnit = x: int | 0 <= x < 0x10000

  predicate IsHighSurrogate(u: CodeUnit) {
    0xD800 <= u < 0xDC00
  }

  predicate IsLowSurrogate(u: CodeUnit) {
    0xDC00 <= u < 0xE000
  }

  function EncodeOne(c: CodePoint): (r: seq<CodeUnit>)
    requires Utf8.IsScalar(c)
    ensures 1 <= |r| <= 2
  {
    if c < 0x10000 then [c]
    else [0xD800 + (c - 0x10000) / 0x400, 0xDC00 + (c - 0x10000) % 0x400]
  }

  function Encode(cs: seq<CodePoint>): (r: seq<CodeUnit>)
    requires Utf8.AllScalar(cs)
  {
    if cs == [] then [] else EncodeOne(cs[0]) + Encode(cs[1..])
  }

  /** The first code point and the units it takes. */
  function Next(s: seq<CodeUnit>): (r: Option<(CodePoint, nat)>)
    requires s != []
    ensures r.Some? ==> 1 <= r.value.1 <= |s|
  {
    if !IsHighSurrogate(s[0]) && !IsLowSurrogate(s[0]) then Some((s[0], 1))
    else if IsHighSurrogate(s[0]) && |s| >= 2 && IsLowSurrogate(s[1]) then
      var high: int, low: int := s[0], s[1];
      Some((0x10000 + (high - 0xD800) * 0x400 + (low - 0xDC00), 2))
    else None
  }

  function Decode(s: seq<CodeUnit>): (r: Option<seq<CodePoint>>) {
    if s == [] then Some([])
    else
      match Next(s)
      case None => None
      case Some((c, n)) =>
        match Decode(s[n..])
        case None => None
        case Some(cs) => Some([c] + cs)
  }

  predicate WellFormed(s: seq<CodeUnit>) {
    Decode(s).Some?
  }

  /** Sections 2.1 and 2.2 of RFC 2781: one unit that is no surrogate, or a high and a low surrogate with the upper and
      the lower ten bits of what exceeds 0x10000. */
  lemma EncodingLayout(c: CodePoint)
    requires Utf8.IsScalar(c)
    ensures var s := EncodeOne(c);
            if c <= 0xFFFF then s == [c]
            else
              && |s| == 2
              && 0xD800 <= s[0] <= 0xDBFF
              && 0xDC00 <= s[1] <= 0xDFFF
              && c == 0x10000 + (s[0] as int - 0xD800) * 1024 + (s[1] as int - 0xDC00)
  {
  }

  lemma NextOfEncodeOne(c: CodePoint, rest: seq<CodeUnit>)
    requires Utf8.IsScalar(c)
    ensures Next(EncodeOne(c) + rest) == Some((c, |EncodeOne(c)|))
  {
  }

  lemma NextReadsAnEncoding(s: seq<CodeUnit>)
    requires s != [] && Next(s).Some?
    ensures var (c, n) := Next(s).value; Utf8.IsScalar(c) && EncodeOne(c) == s[..n]
  {
  }

  lemma DecodeCons(c: CodePoint, rest: seq<CodeUnit>)
    requires Utf8.IsScalar(c)
    ensures Decode(EncodeOne(c) + rest) == match Decode(rest) case None => None case Some(cs) => Some([c] + cs)
  {
  }

  lemma {:induction false} DecodeOfEncode(cs: seq<CodePoint>)
    requires Utf8.AllScalar(cs)
    ensures Decode(Encode(cs)) == Some(cs)
  {
    hide EncodeOne, Utf8.IsScalar;
    if cs != [] {
      DecodeOfEncode(cs[1..]);
      DecodeCons(cs[0], Encode(cs[1..]));
      assert cs == [cs[0]] + cs[1..];
    }
  }

  lemma EncodeCons(c: CodePoint, cs: seq<CodePoint>)
    requires Utf8.IsScalar(c) && Utf8.AllScalar(cs)
    ensures Utf8.AllScalar([c] + cs)
    ensures Encode([c] + cs) == EncodeOne(c) + Encode(cs)
  {
  }

  lemma {:induction false} EncodeAppend(a: seq<CodePoint>, b: seq<CodePoint>)
    requires Utf8.AllScalar(a) && Utf8.AllScalar(b)
    ensures Utf8.AllScalar(a + b)
    ensures Encode(a + b) == Encode(a) + Encode(b)
  {
    hide EncodeOne, Utf8.IsScalar;
    if a == [] {
      assert a + b == b;
    } else {
      EncodeAppend(a[1..], b);
      EncodeCons(a[0], a[1..] + b);
      assert a + b == [a[0]] + (a[1..] + b);
    }
  }

  lemma {:induction false} EncodeOfDecode(s: seq<CodeUnit>)
    requires WellFormed(s)
    ensures Utf8.AllScalar(Decode(s).value)
    ensures Encode(Decode(s).value) == s
  {
    if s != [] {
      var (c, n) := Next(s).value;
      NextReadsAnEncoding(s);
      EncodeOfDecode(s[n..]);
      EncodeCons(c, Decode(s[n..]).value);
      assert s == s[..n] + s[n..];
    }
  }
}
