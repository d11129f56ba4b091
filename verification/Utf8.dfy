/** UTF-8 as defined in sections 3 and 4 of RFC 3629, with the two stepping functions of the utf8cpp library. */
module Utf8 {
  import opened Prelude

  type CodePoint = nat

  /** The code points that have an encoding: no surrogates, nothing above U+10FFFF. */
  predicate IsScalar(c: CodePoint) {
    c <= 0x10FFFF && !(0xD800 <= c <= 0xDFFF)
  }

  ghost predicate AllScalar(cs: seq<CodePoint>) {
    forall k | 0 <= k < |cs| :: IsScalar(cs[k])
  }

  predicate IsTrail(b: byte) {
    0x80 <= b < 0xC0
  }

  /** The six bits a trail byte carries. */
  function TrailBits(b: byte): nat
    requires IsTrail(b)
  {
    b - 0x80
  }

  function EncodeOne(c: CodePoint): (r: Bytes)
    requires IsScalar(c)
    ensures 1 <= |r| <= 4
    ensures !IsTrail(r[0])
    ensures forall k | 1 <= k < |r| :: IsTrail(r[k])
  {
    if c < 0x80 then
      [c]
    else if c < 0x800 then
      [0xC0 + c / 0x40, 0x80 + c % 0x40]
    else if c < 0x10000 then
      [0xE0 + c / 0x40 / 0x40, 0x80 + c / 0x40 % 0x40, 0x80 + c % 0x40]
    else
      [0xF0 + c / 0x40 / 0x40 / 0x40, 0x80 + c / 0x40 / 0x40 % 0x40, 0x80 + c / 0x40 % 0x40, 0x80 + c % 0x40]
  }

  function Encode(cs: seq<CodePoint>): (r: Bytes)
    requires AllScalar(cs)
  {
    if cs == [] then [] else EncodeOne(cs[0]) + Encode(cs[1..])
  }

  /** How many bytes a lead byte announces, 0 when it is not a lead byte. */
  function SequenceLength(lead: byte): nat {
    if lead < 0x80 then 1
    else if 0xC0 <= lead < 0xE0 then 2
    else if 0xE0 <= lead < 0xF0 then 3
    else if 0xF0 <= lead < 0xF8 then 4
    else 0
  }

  predicate TrailsFollow(s: Bytes, n: nat)
    requires n <= 4 && n <= |s|
  {
    (n >= 2 ==> IsTrail(s[1])) && (n >= 3 ==> IsTrail(s[2])) && (n >= 4 ==> IsTrail(s[3]))
  }

  /** The value that `n` bytes carry, whether or not they are the shortest form of it. */
  function Payload(s: Bytes, n: nat): CodePoint
    requires 1 <= n <= 4 && n <= |s|
    requires SequenceLength(s[0]) == n
    requires TrailsFollow(s, n)
  {
    var lead: int := s[0];
    if n == 1 then lead
    else if n == 2 then (lead - 0xC0) * 0x40 + TrailBits(s[1])
    else if n == 3 then ((lead - 0xE0) * 0x40 + TrailBits(s[1])) * 0x40 + TrailBits(s[2])
    else (((lead - 0xF0) * 0x40 + TrailBits(s[1])) * 0x40 + TrailBits(s[2])) * 0x40 + TrailBits(s[3])
  }

  /** A value encoded in more bytes than it needs. */
  predicate IsOverlong(c: CodePoint, n: nat) {
    if c < 0x80 then n != 1
    else if c < 0x800 then n != 2
    else if c < 0x10000 then n != 3
    else n != 4
  }

  /** `utf8::next` on a non-empty range: the code point read and the bytes consumed, or an exception. */
  function Next(s: Bytes): (r: Option<(CodePoint, nat)>)
    requires s != []
    ensures r.Some? ==> 1 <= r.value.1 <= |s|
  {
    var n := SequenceLength(s[0]);
    if n == 0 || n > |s| || !TrailsFollow(s, n) then None
    else
      var c := Payload(s, n);
      if !IsScalar(c) || IsOverlong(c, n) then None else Some((c, n))
  }

  /** The position of the last byte that is not a trail byte, searched backwards. */
  function LeadPosition(s: Bytes): (r: Option<nat>)
    requires s != []
    ensures r.Some? ==> r.value < |s|
  {
    if !IsTrail(s[|s| - 1]) then Some(|s| - 1)
    else if |s| == 1 then None
    else LeadPosition(s[..|s| - 1])
  }

  /** `utf8::prior` from the end of a non-empty range: the code point there and where it starts. Like the
      library it does not look whether the code point reaches up to the end of the range. */
  function Prior(s: Bytes): (r: Option<(CodePoint, nat)>)
    requires s != []
    ensures r.Some? ==> r.value.1 < |s|
  {
    match LeadPosition(s)
    case None => None
    case Some(p) =>
      match Next(s[p..])
      case None => None
      case Some((c, _)) => Some((c, p))
  }

  /** Decoding of a whole string by repeated `Next`. */
  function Decode(s: Bytes): (r: Option<seq<CodePoint>>) {
    if s == [] then Some([])
    else
      match Next(s)
      case None => None
      case Some((c, n)) =>
        match Decode(s[n..])
        case None => None
        case Some(cs) => Some([c] + cs)
  }

  predicate WellFormed(s: Bytes) {
    Decode(s).Some?
  }

  // --- stepping ---

  lemma PayloadOfEncodeOne(c: CodePoint, rest: Bytes)
    requires IsScalar(c)
    ensures var s := EncodeOne(c) + rest;
            SequenceLength(s[0]) == |EncodeOne(c)| && Payload(s, |EncodeOne(c)|) == c
  {
  }

  lemma NextOfEncodeOne(c: CodePoint, rest: Bytes)
    requires IsScalar(c)
    ensures Next(EncodeOne(c) + rest) == Some((c, |EncodeOne(c)|))
  {
    PayloadOfEncodeOne(c, rest);
  }

  /** Whatever `Next` accepts is the one RFC 3629 encoding of the code point it returns. */
  lemma NextReadsAnEncoding(s: Bytes)
    requires s != [] && Next(s).Some?
    ensures var (c, n) := Next(s).value; IsScalar(c) && EncodeOne(c) == s[..n]
  {
    var (c, n) := Next(s).value;
    if n == 2 {
      EncodeOfTwo(s[0], s[1], c);
    } else if n == 3 {
      EncodeOfThree(s[0], s[1], s[2], c);
    } else if n == 4 {
      EncodeOfFour(s[0], s[1], s[2], s[3], c);
    }
  }

  lemma EncodeOfTwo(lead: byte, b1: byte, c: CodePoint)
    requires SequenceLength(lead) == 2 && IsTrail(b1)
    requires c == (lead as int - 0xC0) * 0x40 + TrailBits(b1)
    requires IsScalar(c) && !IsOverlong(c, 2)
    ensures EncodeOne(c) == [lead, b1]
  {
    DivModUnique(c, 0x40, lead - 0xC0, TrailBits(b1));
  }

  lemma EncodeOfThree(lead: byte, b1: byte, b2: byte, c: CodePoint)
    requires SequenceLength(lead) == 3 && IsTrail(b1) && IsTrail(b2)
    requires c == ((lead as int - 0xE0) * 0x40 + TrailBits(b1)) * 0x40 + TrailBits(b2)
    requires IsScalar(c) && !IsOverlong(c, 3)
    ensures EncodeOne(c) == [lead, b1, b2]
  {
    var high := (lead as int - 0xE0) * 0x40 + TrailBits(b1);
    DivModUnique(c, 0x40, high, TrailBits(b2));
    DivModUnique(high, 0x40, lead - 0xE0, TrailBits(b1));
  }

  lemma EncodeOfFour(lead: byte, b1: byte, b2: byte, b3: byte, c: CodePoint)
    requires SequenceLength(lead) == 4 && IsTrail(b1) && IsTrail(b2) && IsTrail(b3)
    requires c == (((lead as int - 0xF0) * 0x40 + TrailBits(b1)) * 0x40 + TrailBits(b2)) * 0x40 + TrailBits(b3)
    requires IsScalar(c) && !IsOverlong(c, 4)
    ensures EncodeOne(c) == [lead, b1, b2, b3]
  {
    var top := (lead as int - 0xF0) * 0x40 + TrailBits(b1);
    var high := top * 0x40 + TrailBits(b2);
    DivModUnique(c, 0x40, high, TrailBits(b3));
    DivModUnique(high, 0x40, top, TrailBits(b2));
    DivModUnique(top, 0x40, lead - 0xF0, TrailBits(b1));
  }

  lemma {:induction false} LeadPositionAfterTrails(s: Bytes, p: nat)
    requires p < |s| && !IsTrail(s[p])
    requires forall k | p < k < |s| :: IsTrail(s[k])
    ensures LeadPosition(s) == Some(p)
  {
    if p < |s| - 1 {
      LeadPositionAfterTrails(s[..|s| - 1], p);
    }
  }

  /** A backward step lands on the boundary before the last code point, also across stray trail bytes. */
  lemma PriorOfEncodeOne(pre: Bytes, c: CodePoint, stray: Bytes)
    requires IsScalar(c)
    requires forall k | 0 <= k < |stray| :: IsTrail(stray[k])
    ensures Prior(pre + EncodeOne(c) + stray) == Some((c, |pre|))
  {
    var s := pre + EncodeOne(c) + stray;
    LeadPositionAfterTrails(s, |pre|);
    assert s[|pre|..] == EncodeOne(c) + stray;
    NextOfEncodeOne(c, stray);
  }

  // --- what the steps are, on any bytes ---

  /** The table in section 3 of RFC 3629: the number of bytes, their ranges, and the bits they carry. */
  lemma EncodingLayout(c: CodePoint)
    ensures IsScalar(c) <==> c <= 0x10FFFF && !(0xD800 <= c <= 0xDFFF)
    ensures IsScalar(c) ==>
            var s := EncodeOne(c);
            && |s| == (if c <= 0x7F then 1 else if c <= 0x7FF then 2 else if c <= 0xFFFF then 3 else 4)
            && (forall k | 1 <= k < |s| :: 0x80 <= s[k] <= 0xBF)
            && (|s| == 1 ==> s[0] == c)
            && (|s| == 2 ==> 0xC2 <= s[0] <= 0xDF && c == (s[0] as int - 0xC0) * 64 + (s[1] as int - 0x80))
            && (|s| == 3 ==>
                  && 0xE0 <= s[0] <= 0xEF
                  && c == (s[0] as int - 0xE0) * 4096 + (s[1] as int - 0x80) * 64 + (s[2] as int - 0x80))
            && (|s| == 4 ==>
                  && 0xF0 <= s[0] <= 0xF4
                  && c == (s[0] as int - 0xF0) * 262144 + (s[1] as int - 0x80) * 4096 + (s[2] as int - 0x80) * 64
                          + (s[3] as int - 0x80))
  {
  }

  /** `utf8::next` reads a code point exactly where the bytes begin with its encoding. */
  lemma NextExactly(s: Bytes, c: CodePoint, n: nat)
    requires s != []
    ensures Next(s) == Some((c, n)) <==> IsScalar(c) && EncodeOne(c) <= s && n == |EncodeOne(c)|
  {
    hide EncodeOne, Next, IsScalar;
    if Next(s) == Some((c, n)) {
      NextReadsAnEncoding(s);
    }
    if IsScalar(c) && EncodeOne(c) <= s {
      NextOfEncodeOne(c, s[|EncodeOne(c)|..]);
      assert s == EncodeOne(c) + s[|EncodeOne(c)|..];
    }
  }

  /** `utf8::prior` reads a code point exactly where the bytes end with its encoding, followed by nothing but trail
      bytes. */
  lemma PriorExactly(s: Bytes, c: CodePoint, p: nat)
    requires s != []
    ensures Prior(s) == Some((c, p)) <==>
            && p < |s| && IsScalar(c) && EncodeOne(c) <= s[p..]
            && forall k | p + |EncodeOne(c)| <= k < |s| :: 0x80 <= s[k] <= 0xBF
  {
    hide EncodeOne, Next, IsScalar;
    if Prior(s) == Some((c, p)) {
      LeadThenTrails(s);
      NextExactly(s[p..], c, Next(s[p..]).value.1);
    }
    if p < |s| && IsScalar(c) && EncodeOne(c) <= s[p..]
       && forall k | p + |EncodeOne(c)| <= k < |s| :: 0x80 <= s[k] <= 0xBF {
      var stray := s[p + |EncodeOne(c)|..];
      assert s == s[..p] + EncodeOne(c) + stray;
      PriorOfEncodeOne(s[..p], c, stray);
    }
  }

  lemma {:induction false} LeadThenTrails(s: Bytes)
    requires s != [] && LeadPosition(s).Some?
    ensures forall k | LeadPosition(s).value < k < |s| :: IsTrail(s[k])
    decreases |s|
  {
    if IsTrail(s[|s| - 1]) {
      LeadThenTrails(s[..|s| - 1]);
      assert forall k | 0 <= k < |s| - 1 :: s[k] == s[..|s| - 1][k];
    }
  }

  // --- whole strings ---

  lemma {:induction false} EncodeAppend(a: seq<CodePoint>, b: seq<CodePoint>)
    requires AllScalar(a) && AllScalar(b)
    ensures AllScalar(a + b)
    ensures Encode(a + b) == Encode(a) + Encode(b)
  {
    hide EncodeOne, IsScalar;
    if a == [] {
      assert a + b == b;
    } else {
      EncodeAppend(a[1..], b);
      EncodeCons(a[0], a[1..] + b);
      assert a + b == [a[0]] + (a[1..] + b);
    }
  }

  lemma EncodeCons(c: CodePoint, cs: seq<CodePoint>)
    requires IsScalar(c) && AllScalar(cs)
    ensures AllScalar([c] + cs)
    ensures Encode([c] + cs) == EncodeOne(c) + Encode(cs)
  {
  }

  lemma EncodeSingle(c: CodePoint)
    requires IsScalar(c)
    ensures Encode([c]) == EncodeOne(c)
  {
  }

  lemma DecodeCons(c: CodePoint, rest: Bytes)
    requires IsScalar(c)
    ensures Decode(EncodeOne(c) + rest) == match Decode(rest) case None => None case Some(cs) => Some([c] + cs)
  {
    hide Next, EncodeOne, IsScalar;
    NextOfEncodeOne(c, rest);
    assert (EncodeOne(c) + rest)[|EncodeOne(c)|..] == rest;
  }

  lemma {:induction false} DecodeOfEncode(cs: seq<CodePoint>)
    requires AllScalar(cs)
    ensures Decode(Encode(cs)) == Some(cs)
  {
    hide EncodeOne, IsScalar;
    if cs != [] {
      DecodeOfEncode(cs[1..]);
      DecodeCons(cs[0], Encode(cs[1..]));
      assert cs == [cs[0]] + cs[1..];
    }
  }

  lemma EncodeAfterNext(s: Bytes, rest: seq<CodePoint>)
    requires s != [] && Next(s).Some?
    requires AllScalar(rest) && Encode(rest) == s[Next(s).value.1..]
    ensures AllScalar([Next(s).value.0] + rest)
    ensures Encode([Next(s).value.0] + rest) == s
  {
    var (c, n) := Next(s).value;
    NextReadsAnEncoding(s);
    EncodeCons(c, rest);
    assert s == s[..n] + s[n..];
  }

  lemma {:induction false} EncodeOfDecode(s: Bytes)
    requires WellFormed(s)
    ensures AllScalar(Decode(s).value)
    ensures Encode(Decode(s).value) == s
  {
    if s != [] {
      var (c, n) := Next(s).value;
      EncodeOfDecode(s[n..]);
      EncodeAfterNext(s, Decode(s[n..]).value);
    }
  }
}
