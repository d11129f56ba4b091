/** `url_encode` and `url_decode` of src/url.cpp: percent coding as in sections 2.1 and 2.3 of RFC 3986, done by libcurl
    on C strings. */
module PercentCoding {
  import opened Prelude

  const PERCENT: byte := 0x25
  const PLUS: byte := 0x2B
  const SPACE: byte := 0x20

  /** Letters, digits and `-._~` stand for themselves. */
  predicate IsUnreserved(b: byte) {
    || 0x41 <= b <= 0x5A
    || 0x61 <= b <= 0x7A
    || 0x30 <= b <= 0x39
    || b in [0x2D, 0x2E, 0x5F, 0x7E]
  }

  /** A hexadecimal digit; `letters` is where the digits above nine start, at `A` or at `a`. */
  function HexDigit(n: nat, letters: byte): byte
    requires n < 16 && (letters == 0x41 || letters == 0x61)
  {
    if n < 10 then 0x30 + n else letters + n - 10
  }

  function HexValue(b: byte): Option<nat> {
    if 0x30 <= b <= 0x39 then Some(b - 0x30)
    else if 0x41 <= b <= 0x46 then Some(b - 0x41 + 10)
    else if 0x61 <= b <= 0x66 then Some(b - 0x61 + 10)
    else None
  }

  function Triplet(b: byte, letters: byte): (r: Bytes)
    requires letters == 0x41 || letters == 0x61
    ensures |r| == 3
    ensures forall k | 0 <= k < 3 :: r[k] == PERCENT || HexValue(r[k]).Some?
  {
    [PERCENT, HexDigit(b / 16, letters), HexDigit(b % 16, letters)]
  }

  function EncodeByte(b: byte): Bytes {
    if IsUnreserved(b) then [b] else Triplet(b, 0x41)
  }

  function PercentEncode(s: Bytes): Bytes {
    if s == [] then [] else EncodeByte(s[0]) + PercentEncode(s[1..])
  }

  /** A percent sign that no two hexadecimal digits follow is kept. */
  function PercentDecode(s: Bytes): Bytes {
    if s == [] then []
    else if s[0] == PERCENT && |s| >= 3 && HexValue(s[1]).Some? && HexValue(s[2]).Some? then
      [16 * HexValue(s[1]).value + HexValue(s[2]).value] + PercentDecode(s[3..])
    else [s[0]] + PercentDecode(s[1..])
  }

  function UrlEncode(s: Bytes): Bytes {
    PercentEncode(CString(s))
  }

  function UrlDecode(s: Bytes): Bytes {
    PercentDecode(CString(s))
  }

  // --- decoding undoes encoding ---

  lemma DecodeTriplet(b: byte, letters: byte, rest: Bytes)
    requires letters == 0x41 || letters == 0x61
    ensures PercentDecode(Triplet(b, letters) + rest) == [b] + PercentDecode(rest)
  {
  }

  lemma DecodeLiteral(b: byte, rest: Bytes)
    requires b != PERCENT
    ensures PercentDecode([b] + rest) == [b] + PercentDecode(rest)
  {
  }

  lemma DecodeEncodedByte(b: byte, rest: Bytes)
    ensures PercentDecode(EncodeByte(b) + rest) == [b] + PercentDecode(rest)
  {
    if IsUnreserved(b) {
      DecodeLiteral(b, rest);
    } else {
      DecodeTriplet(b, 0x41, rest);
    }
  }

  lemma {:induction false} DecodeEncoded(s: Bytes, rest: Bytes)
    ensures PercentDecode(PercentEncode(s) + rest) == s + PercentDecode(rest)
  {
    hide EncodeByte, PercentDecode;
    var d := PercentDecode(rest);
    if s == [] {
      assert PercentEncode(s) + rest == rest && s + d == d;
    } else {
      var a, e := EncodeByte(s[0]), PercentEncode(s[1..]);
      assert PercentEncode(s) + rest == a + (e + rest);
      DecodeEncodedByte(s[0], e + rest);
      DecodeEncoded(s[1..], rest);
      assert [s[0]] + (s[1..] + d) == s + d;
    }
  }

  lemma DecodePercentEncode(s: Bytes)
    ensures PercentDecode(PercentEncode(s)) == s
  {
    DecodeEncoded(s, []);
    assert PercentEncode(s) + [] == PercentEncode(s) && s + [] == s;
  }

  /** The characters an encoded string is made of. */
  predicate IsEncodedByte(b: byte) {
    IsUnreserved(b) || b == PERCENT
  }

  lemma {:induction false} EncodedBytes(s: Bytes)
    ensures forall k | 0 <= k < |PercentEncode(s)| :: IsEncodedByte(PercentEncode(s)[k])
  {
    if s != [] {
      EncodedBytes(s[1..]);
      EncodedByteBytes(s[0]);
    }
  }

  lemma EncodedByteBytes(b: byte)
    ensures forall k | 0 <= k < |EncodeByte(b)| :: IsEncodedByte(EncodeByte(b)[k])
  {
  }

  lemma CStringOfPlain(s: Bytes)
    requires forall k | 0 <= k < |s| :: s[k] != 0
    ensures CString(s) == s
  {
  }

  /** `url_decode` gives back what `url_encode` was given exactly when that holds no NUL byte; otherwise the text
      up to the first NUL. */
  lemma DecodeOfEncode(s: Bytes)
    ensures UrlDecode(UrlEncode(s)) == CString(s)
    ensures UrlDecode(UrlEncode(s)) == s <==> 0 !in s
  {
    hide PercentEncode, PercentDecode, CString;
    var c := CString(s);
    EncodedBytes(c);
    CStringOfPlain(PercentEncode(c));
    DecodePercentEncode(c);
  }

  // --- the encoded and the decoded text byte by byte ---

  lemma {:induction false} PercentEncodeAppend(a: Bytes, b: Bytes)
    ensures PercentEncode(a + b) == PercentEncode(a) + PercentEncode(b)
  {
    hide EncodeByte, PercentEncode;
    PercentEncodeStep(a);
    if a == [] {
      assert a + b == b;
    } else {
      PercentEncodeAppend(a[1..], b);
      PercentEncodeStep(a + b);
      assert (a + b)[1..] == a[1..] + b;
    }
  }

  lemma PercentEncodeStep(s: Bytes)
    ensures PercentEncode(s) == if s == [] then [] else EncodeByte(s[0]) + PercentEncode(s[1..])
  {
  }

  lemma {:induction false} CStringBehind(before: Bytes, rest: Bytes)
    requires 0 !in before
    ensures CString(before + rest) == before + CString(rest)
  {
    if before == [] {
      assert before + rest == rest;
    } else {
      var s := before + rest;
      CStringBehind(before[1..], rest);
      assert s[1..] == before[1..] + rest && s[0] == before[0];
    }
  }

  lemma CStringAtNul(before: Bytes, after: Bytes)
    requires 0 !in before
    ensures CString(before + [0] + after) == before
  {
    assert before + [0] + after == before + ([0] + after);
    CStringBehind(before, [0] + after);
  }

  /** Letters, digits and the four marks stay as they are. */
  lemma {:induction false} UnreservedStays(s: Bytes)
    requires forall b | b in s ::
               || 'A' <= b as char <= 'Z' || 'a' <= b as char <= 'z' || '0' <= b as char <= '9'
               || b as char in "-._~"
    ensures UrlEncode(s) == s
  {
    if s != [] {
      assert s[0] in s;
      assert forall b | b in s[1..] :: b in s;
      UnreservedStays(s[1..]);
      UnreservedByte(s[0]);
    }
  }

  lemma UnreservedByte(b: byte)
    ensures IsUnreserved(b) <==>
            || 'A' <= b as char <= 'Z' || 'a' <= b as char <= 'z' || '0' <= b as char <= '9'
            || b as char in "-._~"
  {
  }

  /** The encoded text is put together byte by byte: what is not such a character becomes a percent sign and two
      upper-case hexadecimal digits, and a NUL byte ends the text. */
  lemma EncodedByteByByte(before: Bytes, b: byte, after: Bytes)
    requires 0 !in before
    ensures UrlEncode([]) == []
    ensures var plain := || 'A' <= b as char <= 'Z' || 'a' <= b as char <= 'z' || '0' <= b as char <= '9'
                         || b as char in "-._~";
            var digits := "0123456789ABCDEF";
            UrlEncode(before + [b] + after) ==
            if b == 0 then UrlEncode(before)
            else UrlEncode(before)
                 + (if plain then [b] else [0x25, digits[b / 16] as byte, digits[b % 16] as byte])
                 + UrlEncode(after)
  {
    hide CString;
    CStringBehind(before, []);
    assert before + [] == before && CString([]) == [];
    if b == 0 {
      CStringAtNul(before, after);
    } else {
      var rest := [b] + CString(after);
      CStringBehind([b], after);
      CStringBehind(before, [b] + after);
      assert before + [b] + after == before + ([b] + after);
      PercentEncodeAppend(before, rest);
      UnreservedByte(b);
      HexDigits(b);
    }
  }

  lemma HexDigits(b: byte)
    ensures Triplet(b, 0x41) == [0x25, "0123456789ABCDEF"[b / 16] as byte, "0123456789ABCDEF"[b % 16] as byte]
    ensures Triplet(b, 0x61) == [0x25, "0123456789abcdef"[b / 16] as byte, "0123456789abcdef"[b % 16] as byte]
  {
    hide HexDigit;
    HexDigitCharacter(b / 16);
    HexDigitCharacter(b % 16);
  }

  lemma HexDigitCharacter(n: nat)
    requires n < 16
    ensures HexDigit(n, 0x41) == "0123456789ABCDEF"[n] as byte
    ensures HexDigit(n, 0x61) == "0123456789abcdef"[n] as byte
  {
  }

  /** A percent sign and two hexadecimal digits of either case are decoded wherever they stand, into any byte, also
      NUL; a NUL byte in the text itself ends it. */
  lemma DecodesTriplets(before: Bytes, x: nat, y: nat, h: byte, l: byte, after: Bytes)
    requires 0 !in before && x < 16 && y < 16
    requires h as char == "0123456789ABCDEF"[x] || h as char == "0123456789abcdef"[x]
    requires l as char == "0123456789ABCDEF"[y] || l as char == "0123456789abcdef"[y]
    ensures UrlDecode(before + [0x25, h, l] + after) == UrlDecode(before) + [16 * x + y] + UrlDecode(after)
    ensures UrlDecode(before + [0] + after) == UrlDecode(before)
  {
    hide CString, PercentDecode;
    HexCharacterValue(h, x);
    HexCharacterValue(l, y);
    CStringBehind(before + [0x25, h, l], after);
    CStringBehind(before, []);
    CStringAtNul(before, after);
    assert before + [] == before && CString([]) == [];
    DecodeBehind(before, h, l, CString(after));
  }

  lemma HexCharacterValue(b: byte, n: nat)
    requires n < 16 && (b as char == "0123456789ABCDEF"[n] || b as char == "0123456789abcdef"[n])
    ensures HexValue(b) == Some(n) && b != 0
  {
    HexDigitCharacter(n);
  }

  lemma {:induction false} DecodeBehind(before: Bytes, h: byte, l: byte, rest: Bytes)
    requires HexValue(h).Some? && HexValue(l).Some?
    ensures PercentDecode(before + [PERCENT, h, l] + rest) ==
            PercentDecode(before) + [16 * HexValue(h).value + HexValue(l).value] + PercentDecode(rest)
    decreases |before|
  {
    hide HexValue, PercentDecode;
    var s := before + [PERCENT, h, l] + rest;
    PercentIsNoDigit();
    if before == [] {
      DecodeTripletInFront(s);
      assert s[3..] == rest;
      DecodeNothing();
    } else if |before| >= 3 && before[0] == PERCENT && HexValue(before[1]).Some? && HexValue(before[2]).Some? {
      DecodeBehind(before[3..], h, l, rest);
      DecodeTripletInFront(s);
      DecodeTripletInFront(before);
      assert s[3..] == before[3..] + [PERCENT, h, l] + rest;
    } else {
      DecodeBehind(before[1..], h, l, rest);
      DecodeOther(s);
      DecodeOther(before);
      assert s[1..] == before[1..] + [PERCENT, h, l] + rest;
    }
  }

  lemma DecodeNothing()
    ensures PercentDecode([]) == []
  {
  }

  lemma DecodeTripletInFront(s: Bytes)
    requires |s| >= 3 && s[0] == PERCENT && HexValue(s[1]).Some? && HexValue(s[2]).Some?
    ensures PercentDecode(s) == [16 * HexValue(s[1]).value + HexValue(s[2]).value] + PercentDecode(s[3..])
  {
  }

  lemma DecodeOther(s: Bytes)
    requires s != []
    requires s[0] == PERCENT && |s| >= 3 ==> !(HexValue(s[1]).Some? && HexValue(s[2]).Some?)
    ensures PercentDecode(s) == [s[0]] + PercentDecode(s[1..])
  {
  }

  lemma PercentIsNoDigit()
    ensures HexValue(PERCENT) == None
  {
  }

  /** Everything else stays, a percent sign without two such digits behind it too. */
  lemma KeepsWhatIsNoTriplet(s: Bytes)
    requires 0 !in s
    requires forall k | 0 <= k < |s| - 2 && s[k] == 0x25 :: !(IsHexDigit(s[k + 1]) && IsHexDigit(s[k + 2]))
    ensures UrlDecode(s) == s
  {
    hide IsHexDigit, HexValue, PercentDecode, CString;
    CStringBehind(s, []);
    assert s + [] == s && CString([]) == [] by {
      CStringAtNul([], []);
    }
    forall k | 0 <= k < |s| - 2 && s[k] == PERCENT
      ensures !(HexValue(s[k + 1]).Some? && HexValue(s[k + 2]).Some?)
    {
      DigitsHaveValues(s[k + 1]);
      DigitsHaveValues(s[k + 2]);
    }
    DecodeOfPlain(s);
  }

  lemma {:induction false} DecodeOfPlain(s: Bytes)
    requires forall k | 0 <= k < |s| - 2 && s[k] == PERCENT :: !(HexValue(s[k + 1]).Some? && HexValue(s[k + 2]).Some?)
    ensures PercentDecode(s) == s
  {
    hide HexValue;
    if s != [] {
      var rest := s[1..];
      assert forall k | 0 <= k < |rest| :: rest[k] == s[k + 1];
      DecodeOfPlain(rest);
    }
  }

  predicate IsHexDigit(b: byte) {
    '0' <= b as char <= '9' || 'A' <= b as char <= 'F' || 'a' <= b as char <= 'f'
  }

  lemma DigitsHaveValues(b: byte)
    ensures HexValue(b).Some? <==> IsHexDigit(b)
  {
  }
}
