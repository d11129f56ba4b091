/** The four transcoders of src/unicode.cpp: compute a length, allocate, convert, compare the counts. */
module Transcode {
  import opened Prelude
  import Utf8
  import Utf16
  import Trim

  type CodePoint = Utf8.CodePoint
  type CodeUnit = Utf16.CodeUnit

  // --- the lengths that the simdutf library computes without decoding ---

  function Utf16LengthFromUtf8(s: Bytes): nat {
    if s == [] then 0
    else (if Utf8.IsTrail(s[0]) then 0 else 1) + (if s[0] >= 0xF0 then 1 else 0) + Utf16LengthFromUtf8(s[1..])
  }

  function Utf32LengthFromUtf8(s: Bytes): nat {
    if s == [] then 0
    else (if Utf8.IsTrail(s[0]) then 0 else 1) + Utf32LengthFromUtf8(s[1..])
  }

  function Utf8LengthFromUtf16(s: seq<CodeUnit>): nat {
    if s == [] then 0
    else (if s[0] <= 0x7F then 1 else if s[0] <= 0x7FF then 2 else if 0xD800 <= s[0] <= 0xDFFF then 2 else 3)
         + Utf8LengthFromUtf16(s[1..])
  }

  function Utf8LengthFromUtf32(s: seq<CodePoint>): nat {
    if s == [] then 0
    else (if s[0] <= 0x7F then 1 else if s[0] <= 0x7FF then 2 else if s[0] <= 0xFFFF then 3 else 4)
         + Utf8LengthFromUtf32(s[1..])
  }

  lemma {:induction false} Utf16LengthAppend(a: Bytes, b: Bytes)
    ensures Utf16LengthFromUtf8(a + b) == Utf16LengthFromUtf8(a) + Utf16LengthFromUtf8(b)
  {
    if a == [] {
      assert a + b == b;
    } else {
      Utf16LengthAppend(a[1..], b);
      assert (a + b)[1..] == a[1..] + b;
    }
  }

  lemma {:induction false} Utf32LengthAppend(a: Bytes, b: Bytes)
    ensures Utf32LengthFromUtf8(a + b) == Utf32LengthFromUtf8(a) + Utf32LengthFromUtf8(b)
  {
    if a == [] {
      assert a + b == b;
    } else {
      Utf32LengthAppend(a[1..], b);
      assert (a + b)[1..] == a[1..] + b;
    }
  }

  lemma {:induction false} TrailsAddNoLength(s: Bytes)
    requires forall k | 0 <= k < |s| :: Utf8.IsTrail(s[k])
    ensures Utf16LengthFromUtf8(s) == 0 && Utf32LengthFromUtf8(s) == 0
  {
    if s != [] {
      TrailsAddNoLength(s[1..]);
    }
  }

  lemma LengthsOfEncodeOne(c: CodePoint)
    requires Utf8.IsScalar(c)
    ensures Utf16LengthFromUtf8(Utf8.EncodeOne(c)) == |Utf16.EncodeOne(c)|
    ensures Utf32LengthFromUtf8(Utf8.EncodeOne(c)) == 1
  {
    TrailsAddNoLength(Utf8.EncodeOne(c)[1..]);
  }

  /** Counting lead bytes, and four-byte leads twice, gives the UTF-16 length of the same text. */
  lemma {:induction false} LengthsFromUtf8(cs: seq<CodePoint>)
    requires Utf8.AllScalar(cs)
    ensures Utf16LengthFromUtf8(Utf8.Encode(cs)) == |Utf16.Encode(cs)|
    ensures Utf32LengthFromUtf8(Utf8.Encode(cs)) == |cs|
  {
    if cs != [] {
      LengthsOfEncodeOne(cs[0]);
      LengthsFromUtf8(cs[1..]);
      Utf16LengthAppend(Utf8.EncodeOne(cs[0]), Utf8.Encode(cs[1..]));
      Utf32LengthAppend(Utf8.EncodeOne(cs[0]), Utf8.Encode(cs[1..]));
    }
  }

  /** Each half of a surrogate pair counts for two of the four bytes. */
  lemma {:induction false} LengthFromUtf16(cs: seq<CodePoint>)
    requires Utf8.AllScalar(cs)
    ensures Utf8LengthFromUtf16(Utf16.Encode(cs)) == |Utf8.Encode(cs)|
  {
    if cs != [] {
      LengthFromUtf16(cs[1..]);
      LengthOfUnits(cs[0], Utf16.Encode(cs[1..]));
    }
  }

  lemma LengthOfUnits(c: CodePoint, rest: seq<CodeUnit>)
    requires Utf8.IsScalar(c)
    ensures Utf8LengthFromUtf16(Utf16.EncodeOne(c) + rest) == |Utf8.EncodeOne(c)| + Utf8LengthFromUtf16(rest)
  {
  }

  lemma {:induction false} LengthFromUtf32(cs: seq<CodePoint>)
    requires Utf8.AllScalar(cs)
    ensures Utf8LengthFromUtf32(cs) == |Utf8.Encode(cs)|
  {
    if cs != [] {
      LengthFromUtf32(cs[1..]);
    }
  }

  // --- the functions computed ---

  function ToUtf16(s: Bytes): seq<CodeUnit>
    requires Utf8.WellFormed(s)
  {
    Utf8.EncodeOfDecode(s);
    Utf16.Encode(Utf8.Decode(s).value)
  }

  function FromUtf16(s: seq<CodeUnit>): Bytes
    requires Utf16.WellFormed(s)
  {
    Utf16.EncodeOfDecode(s);
    Utf8.Encode(Utf16.Decode(s).value)
  }

  function ToUtf32(s: Bytes): seq<CodePoint>
    requires Utf8.WellFormed(s)
  {
    Utf8.Decode(s).value
  }

  function FromUtf32(s: seq<CodePoint>): Bytes
    requires Utf8.AllScalar(s)
  {
    Utf8.Encode(s)
  }

  lemma ToUtf16Step(s: Bytes)
    requires Utf8.WellFormed(s) && s != []
    ensures Utf8.Next(s).Some?
    ensures var (c, n) := Utf8.Next(s).value;
            && Utf8.IsScalar(c) && Utf8.WellFormed(s[n..])
            && ToUtf16(s) == Utf16.EncodeOne(c) + ToUtf16(s[n..])
            && ToUtf32(s) == [c] + ToUtf32(s[n..])
  {
    hide Utf8.Next, Utf8.EncodeOne, Utf16.EncodeOne, Utf8.IsScalar;
    var (c, n) := Utf8.Next(s).value;
    Utf8.NextReadsAnEncoding(s);
    Utf8.EncodeOfDecode(s[n..]);
    Utf16.EncodeCons(c, Utf8.Decode(s[n..]).value);
  }

  lemma FromUtf16Step(s: seq<CodeUnit>)
    requires Utf16.WellFormed(s) && s != []
    ensures Utf16.Next(s).Some?
    ensures var (c, n) := Utf16.Next(s).value;
            && Utf8.IsScalar(c) && Utf16.WellFormed(s[n..])
            && FromUtf16(s) == Utf8.EncodeOne(c) + FromUtf16(s[n..])
  {
    hide Utf16.Next, Utf8.EncodeOne, Utf16.EncodeOne, Utf8.IsScalar;
    var (c, n) := Utf16.Next(s).value;
    Utf16.NextReadsAnEncoding(s);
    Utf16.EncodeOfDecode(s[n..]);
    Utf8.EncodeCons(c, Utf16.Decode(s[n..]).value);
  }

  lemma FromUtf32Step(s: seq<CodePoint>, k: nat)
    requires Utf8.AllScalar(s) && k < |s|
    ensures Utf8.IsScalar(s[k]) && Utf8.AllScalar(s[k..]) && Utf8.AllScalar(s[k + 1..])
    ensures FromUtf32(s[k..]) == Utf8.EncodeOne(s[k]) + FromUtf32(s[k + 1..])
  {
    hide Utf8.EncodeOne, Utf8.IsScalar;
    assert s[k..][1..] == s[k + 1..];
  }

  // --- the `convert_valid_*` functions of simdutf: one code point at a time from the source to the caller's buffer,
  // which must hold them all; they return how many units they wrote ---

  method Put<T>(units: seq<T>, buffer: array<T>, at: nat)
    requires at + |units| <= buffer.Length
    modifies buffer
    ensures buffer[..at + |units|] == old(buffer[..at]) + units
  {
    for k := 0 to |units|
      invariant buffer[..at + k] == old(buffer[..at]) + units[..k]
    {
      buffer[at + k] := units[k];
    }
  }

  method ConvertValidUtf8ToUtf16(source: Bytes, buffer: array<CodeUnit>) returns (count: nat)
    requires Utf8.WellFormed(source) && |ToUtf16(source)| <= buffer.Length
    modifies buffer
    ensures count == |ToUtf16(source)| && buffer[..count] == ToUtf16(source)
  {
    hide Utf8.Decode, Utf8.Next, Utf8.IsScalar, Utf16.EncodeOne, ToUtf16;
    var iter := 0;
    count := 0;
    while iter < |source|
      invariant iter <= |source| && count <= buffer.Length
      invariant Utf8.WellFormed(source[iter..]) && ToUtf16(source) == buffer[..count] + ToUtf16(source[iter..])
    {
      ToUtf16Step(source[iter..]);
      var (codePoint, n) := Utf8.Next(source[iter..]).value;
      var units := Utf16.EncodeOne(codePoint);
      Put(units, buffer, count);
      assert source[iter..][n..] == source[iter + n..];
      iter := iter + n;
      count := count + |units|;
    }
    NothingConverts(source[iter..], []);
  }

  method ConvertValidUtf16ToUtf8(source: seq<CodeUnit>, buffer: array<byte>) returns (count: nat)
    requires Utf16.WellFormed(source) && |FromUtf16(source)| <= buffer.Length
    modifies buffer
    ensures count == |FromUtf16(source)| && buffer[..count] == FromUtf16(source)
  {
    hide Utf16.Decode, Utf16.Next, Utf8.IsScalar, Utf8.EncodeOne, FromUtf16;
    var iter := 0;
    count := 0;
    while iter < |source|
      invariant iter <= |source| && count <= buffer.Length
      invariant Utf16.WellFormed(source[iter..]) && FromUtf16(source) == buffer[..count] + FromUtf16(source[iter..])
    {
      FromUtf16Step(source[iter..]);
      var (codePoint, n) := Utf16.Next(source[iter..]).value;
      var units := Utf8.EncodeOne(codePoint);
      Put(units, buffer, count);
      assert source[iter..][n..] == source[iter + n..];
      iter := iter + n;
      count := count + |units|;
    }
    NothingConverts([], source[iter..]);
  }

  lemma NothingConverts(bytes: Bytes, units: seq<CodeUnit>)
    requires bytes == [] && units == []
    ensures Utf8.WellFormed(bytes) && ToUtf16(bytes) == [] && ToUtf32(bytes) == []
    ensures Utf16.WellFormed(units) && FromUtf16(units) == []
  {
  }

  lemma NothingFromUtf32(codePoints: seq<CodePoint>)
    requires codePoints == []
    ensures Utf8.AllScalar(codePoints) && FromUtf32(codePoints) == []
  {
  }

  method ConvertValidUtf8ToUtf32(source: Bytes, buffer: array<CodePoint>) returns (count: nat)
    requires Utf8.WellFormed(source) && |ToUtf32(source)| <= buffer.Length
    modifies buffer
    ensures count == |ToUtf32(source)| && buffer[..count] == ToUtf32(source)
  {
    hide Utf8.Decode, Utf8.Next, Utf8.IsScalar, Utf16.EncodeOne, ToUtf32;
    var iter := 0;
    count := 0;
    while iter < |source|
      invariant iter <= |source| && count <= buffer.Length
      invariant Utf8.WellFormed(source[iter..]) && ToUtf32(source) == buffer[..count] + ToUtf32(source[iter..])
    {
      ToUtf16Step(source[iter..]);
      var (codePoint, n) := Utf8.Next(source[iter..]).value;
      Put([codePoint], buffer, count);
      assert source[iter..][n..] == source[iter + n..];
      iter := iter + n;
      count := count + 1;
    }
    NothingConverts(source[iter..], []);
  }

  method ConvertValidUtf32ToUtf8(source: seq<CodePoint>, buffer: array<byte>) returns (count: nat)
    requires Utf8.AllScalar(source) && |FromUtf32(source)| <= buffer.Length
    modifies buffer
    ensures count == |FromUtf32(source)| && buffer[..count] == FromUtf32(source)
  {
    hide Utf8.IsScalar, Utf8.EncodeOne, FromUtf32;
    assert source[0..] == source;
    var iter := 0;
    count := 0;
    while iter < |source|
      invariant iter <= |source| && count <= buffer.Length
      invariant Utf8.AllScalar(source[iter..])
      invariant FromUtf32(source) == buffer[..count] + FromUtf32(source[iter..])
    {
      FromUtf32Step(source, iter);
      var units := Utf8.EncodeOne(source[iter]);
      Put(units, buffer, count);
      iter := iter + 1;
      count := count + |units|;
    }
    NothingFromUtf32(source[iter..]);
  }

  // --- the functions of unicode.cpp ---

  /** `utf8_to_utf16`: on valid input the buffer is exactly filled and nothing is thrown. */
  method Utf8ToUtf16(str: Bytes) returns (r: Result<seq<CodeUnit>>)
    requires Utf8.WellFormed(str)
    ensures r == Ok(ToUtf16(str))
  {
    Utf8.EncodeOfDecode(str);
    LengthsFromUtf8(Utf8.Decode(str).value);
    var resultSize := Utf16LengthFromUtf8(str);
    var result := new CodeUnit[resultSize];
    var check := ConvertValidUtf8ToUtf16(str, result);
    assert result[..check] == result[..];
    r := if check != resultSize then RuntimeError else Ok(result[..]);
  }

  /** `utf16_to_utf8` */
  method Utf16ToUtf8(str: seq<CodeUnit>) returns (r: Result<Bytes>)
    requires Utf16.WellFormed(str)
    ensures r == Ok(FromUtf16(str))
  {
    Utf16.EncodeOfDecode(str);
    LengthFromUtf16(Utf16.Decode(str).value);
    var resultSize := Utf8LengthFromUtf16(str);
    var result := new byte[resultSize];
    var check := ConvertValidUtf16ToUtf8(str, result);
    assert result[..check] == result[..];
    r := if check != resultSize then RuntimeError else Ok(result[..]);
  }

  /** `utf8_to_utf32` */
  method Utf8ToUtf32(str: Bytes) returns (r: Result<seq<CodePoint>>)
    requires Utf8.WellFormed(str)
    ensures r == Ok(ToUtf32(str))
  {
    Utf8.EncodeOfDecode(str);
    LengthsFromUtf8(Utf8.Decode(str).value);
    var resultSize := Utf32LengthFromUtf8(str);
    var result := new CodePoint[resultSize];
    var check := ConvertValidUtf8ToUtf32(str, result);
    assert result[..check] == result[..];
    r := if check != resultSize then RuntimeError else Ok(result[..]);
  }

  /** `utf32_to_utf8` */
  method Utf32ToUtf8(str: seq<CodePoint>) returns (r: Result<Bytes>)
    requires Utf8.AllScalar(str)
    ensures r == Ok(FromUtf32(str))
  {
    LengthFromUtf32(str);
    var resultSize := Utf8LengthFromUtf32(str);
    var result := new byte[resultSize];
    var check := ConvertValidUtf32ToUtf8(str, result);
    assert result[..check] == result[..];
    r := if check != resultSize then RuntimeError else Ok(result[..]);
  }

  // --- round trips ---

  lemma Utf8Utf16RoundTrip(s: Bytes)
    requires Utf8.WellFormed(s)
    ensures Utf16.WellFormed(ToUtf16(s))
    ensures FromUtf16(ToUtf16(s)) == s
    ensures Utf16.Decode(ToUtf16(s)) == Some(ToUtf32(s))
  {
    Utf8.EncodeOfDecode(s);
    Utf16.DecodeOfEncode(Utf8.Decode(s).value);
  }

  lemma Utf16Utf8RoundTrip(s: seq<CodeUnit>)
    requires Utf16.WellFormed(s)
    ensures Utf8.WellFormed(FromUtf16(s))
    ensures ToUtf16(FromUtf16(s)) == s
  {
    Utf16.EncodeOfDecode(s);
    Utf8.DecodeOfEncode(Utf16.Decode(s).value);
  }

  lemma Utf8Utf32RoundTrips(s: Bytes, cs: seq<CodePoint>)
    requires Utf8.WellFormed(s) && Utf8.AllScalar(cs)
    ensures Utf8.AllScalar(ToUtf32(s)) && FromUtf32(ToUtf32(s)) == s
    ensures Utf8.WellFormed(FromUtf32(cs)) && ToUtf32(FromUtf32(cs)) == cs
  {
    Utf8.EncodeOfDecode(s);
    Utf8.DecodeOfEncode(cs);
  }

  /** Text that is put together is converted part by part. */
  lemma ConversionsConcatenate(a: Bytes, b: Bytes)
    requires Utf8.WellFormed(a) && Utf8.WellFormed(b)
    ensures Utf8.WellFormed(a + b)
    ensures ToUtf32(a + b) == ToUtf32(a) + ToUtf32(b)
    ensures ToUtf16(a + b) == ToUtf16(a) + ToUtf16(b)
  {
    hide Utf8.Encode, Utf8.Decode, Utf16.Encode, Utf8.IsScalar;
    var x, y := Utf8.Decode(a).value, Utf8.Decode(b).value;
    Utf8.EncodeOfDecode(a);
    Utf8.EncodeOfDecode(b);
    Utf8.EncodeAppend(x, y);
    Utf8.DecodeOfEncode(x + y);
    Utf16.EncodeAppend(x, y);
  }

  /** And the text of one code point is converted to that code point, one unit or a surrogate pair. */
  lemma ConversionOfOne(c: CodePoint)
    requires c <= 0x10FFFF && !(0xD800 <= c <= 0xDFFF)
    ensures Utf8.IsScalar(c) && Utf8.WellFormed(Utf8.EncodeOne(c))
    ensures ToUtf32(Utf8.EncodeOne(c)) == [c]
    ensures var s := ToUtf16(Utf8.EncodeOne(c));
            if c <= 0xFFFF then s == [c]
            else
              && |s| == 2
              && 0xD800 <= s[0] <= 0xDBFF
              && 0xDC00 <= s[1] <= 0xDFFF
              && c == 0x10000 + (s[0] as int - 0xD800) * 1024 + (s[1] as int - 0xDC00)
  {
    hide Utf8.Encode, Utf8.Decode;
    Utf8.EncodeSingle(c);
    Utf8.DecodeOfEncode([c]);
    Utf16.EncodingLayout(c);
    assert Utf16.Encode([c]) == Utf16.EncodeOne(c);
  }

  /** `utf32_to_utf8` of one code point. */
  method CodePointToUtf8(codePoint: CodePoint) returns (r: Result<Bytes>)
    requires Utf8.IsScalar(codePoint)
    ensures r == Ok(FromUtf32([codePoint]))
  {
    var str := [codePoint];
    r := Utf32ToUtf8(str);
  }

  /** A one-code-point string starts and ends with that code point. */
  lemma CodePointRoundTrip(c: CodePoint)
    requires Utf8.IsScalar(c)
    ensures var s := FromUtf32([c]);
            s != [] && Trim.FirstCodePoint(s) == Ok(c) && Trim.LastCodePoint(s) == Ok(c)
  {
    var s := FromUtf32([c]);
    Utf8.DecodeOfEncode([c]);
    assert s != [] by {
      Utf8.EncodeSingle(c);
    }
    Trim.FirstAndLastCodePoint(s);
  }
}
