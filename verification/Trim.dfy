/** Trimming and the first and last code point: the byte loops of src/unicode.cpp against their meaning on
    code points. */
module Trim {
  import opened Prelude
  import opened Utf8

  /** `is_whitespace` of include/klib/unicode.h. */
  predicate IsWhitespace(c: CodePoint) {
    || c == 0x0009
    || 0x000A <= c <= 0x000D
    || c == 0x0020
    || c == 0x0085
    || c == 0x00A0
    || c == 0x1680
    || 0x2000 <= c <= 0x200A
    || 0x2028 <= c <= 0x2029
    || c == 0x202F
    || c == 0x205F
    || c == 0x3000
  }

  /** They are the 25 characters with the Unicode property White_Space. */
  lemma WhitespaceCharacters(c: CodePoint)
    ensures IsWhitespace(c) <==>
            c in [0x0009, 0x000A, 0x000B, 0x000C, 0x000D, 0x0020, 0x0085, 0x00A0, 0x1680,
                  0x2000, 0x2001, 0x2002, 0x2003, 0x2004, 0x2005, 0x2006, 0x2007, 0x2008, 0x2009, 0x200A,
                  0x2028, 0x2029, 0x202F, 0x205F, 0x3000]
  {
  }

  ghost predicate AllWhitespace(cs: seq<CodePoint>) {
    forall k | 0 <= k < |cs| :: IsWhitespace(cs[k])
  }

  // --- code points ---

  function StripLeft(cs: seq<CodePoint>): seq<CodePoint> {
    if cs != [] && IsWhitespace(cs[0]) then StripLeft(cs[1..]) else cs
  }

  function StripRight(cs: seq<CodePoint>): seq<CodePoint> {
    if cs != [] && IsWhitespace(cs[|cs| - 1]) then StripRight(cs[..|cs| - 1]) else cs
  }

  /** A text that begins and ends with something that is not white space. */
  predicate Tight(cs: seq<CodePoint>) {
    cs != [] ==> !IsWhitespace(cs[0]) && !IsWhitespace(cs[|cs| - 1])
  }

  lemma {:induction false} StripLeftDrops(blank: seq<CodePoint>, cs: seq<CodePoint>)
    requires AllWhitespace(blank)
    requires cs == [] || !IsWhitespace(cs[0])
    ensures StripLeft(blank + cs) == cs
  {
    if blank == [] {
      assert blank + cs == cs;
    } else {
      StripLeftDrops(blank[1..], cs);
      assert (blank + cs)[1..] == blank[1..] + cs;
    }
  }

  lemma {:induction false} StripRightDrops(cs: seq<CodePoint>, blank: seq<CodePoint>)
    requires AllWhitespace(blank)
    requires cs == [] || !IsWhitespace(cs[|cs| - 1])
    ensures StripRight(cs + blank) == cs
  {
    if blank == [] {
      assert cs + blank == cs;
    } else {
      StripRightDrops(cs, blank[..|blank| - 1]);
      assert (cs + blank)[..|cs + blank| - 1] == cs + blank[..|blank| - 1];
    }
  }

  lemma {:induction false} StripLeftSplits(cs: seq<CodePoint>) returns (blank: seq<CodePoint>)
    ensures AllWhitespace(blank)
    ensures cs == blank + StripLeft(cs)
    ensures StripLeft(cs) == [] || !IsWhitespace(StripLeft(cs)[0])
  {
    if cs != [] && IsWhitespace(cs[0]) {
      blank := StripLeftSplits(cs[1..]);
      blank := [cs[0]] + blank;
    } else {
      blank := [];
    }
  }

  lemma {:induction false} StripRightSplits(cs: seq<CodePoint>) returns (blank: seq<CodePoint>)
    ensures AllWhitespace(blank)
    ensures cs == StripRight(cs) + blank
    ensures StripRight(cs) == [] || !IsWhitespace(StripRight(cs)[|StripRight(cs)| - 1])
  {
    if cs != [] && IsWhitespace(cs[|cs| - 1]) {
      blank := StripRightSplits(cs[..|cs| - 1]);
      blank := blank + [cs[|cs| - 1]];
    } else {
      blank := [];
    }
  }

  // --- the scanning loops ---

  const UINT32_MODULUS := 0x1_0000_0000

  function Plus(n: nat, r: Result<nat>): Result<nat> {
    match r case RuntimeError => RuntimeError case Ok(more) => Ok(n + more)
  }

  /** How many bytes the forward scan erases, or the exception of `utf8::next`. */
  function LeftEraseNum(s: Bytes): (r: Result<nat>)
    ensures r.Ok? ==> r.value <= |s|
  {
    if s == [] then Ok(0)
    else
      match Next(s)
      case None => RuntimeError
      case Some((c, n)) =>
        if !IsWhitespace(c) then Ok(0)
        else Plus(n, LeftEraseNum(s[n..]))
  }

  /** How many bytes the backward scan erases, or the exception of `utf8::prior`. */
  function RightEraseNum(s: Bytes): (r: Result<nat>)
    ensures r.Ok? ==> r.value <= |s|
  {
    if s == [] then Ok(0)
    else
      match Prior(s)
      case None => RuntimeError
      case Some((c, p)) =>
        if !IsWhitespace(c) then Ok(0)
        else Plus(|s| - p, RightEraseNum(s[..p]))
  }

  /** The scans return their count as a `std::int32_t`, a conversion modulo 2^32. */
  function WrapInt32(n: int): int32 {
    ((n + 0x8000_0000) % UINT32_MODULUS - 0x8000_0000) as int32
  }

  function AsInt32(r: Result<nat>): Result<int32> {
    match r case RuntimeError => RuntimeError case Ok(n) => Ok(WrapInt32(n))
  }

  lemma LeftScanStep(str: Bytes, iter: nat)
    requires iter < |str| && Next(str[iter..]).Some? && IsWhitespace(Next(str[iter..]).value.0)
    ensures var n := Next(str[iter..]).value.1;
            iter + n <= |str| && LeftEraseNum(str[iter..]) == Plus(n, LeftEraseNum(str[iter + n..]))
  {
  }

  /** `trim_left_erase_num`. */
  method TrimLeftEraseNum(str: Bytes) returns (r: Result<int32>)
    ensures r == AsInt32(LeftEraseNum(str))
  {
    hide Next, IsWhitespace;
    var iter := 0;
    while iter != |str|
      invariant iter <= |str|
      invariant LeftEraseNum(str) == Plus(iter, LeftEraseNum(str[iter..]))
      decreases |str| - iter
    {
      var next := Next(str[iter..]);
      if next == None {
        return RuntimeError;
      }
      var (codePoint, n) := next.value;
      if IsWhitespace(codePoint) {
        LeftScanStep(str, iter);
        iter := iter + n;
      } else {
        break;
      }
    }
    return Ok(WrapInt32(iter));
  }

  /** `trim_right_erase_num`. */
  method TrimRightEraseNum(str: Bytes) returns (r: Result<int32>)
    ensures r == AsInt32(RightEraseNum(str))
  {
    hide Prior, IsWhitespace;
    var iter := |str|;
    assert str[..iter] == str;
    while iter != 0
      invariant iter <= |str|
      invariant RightEraseNum(str) == Plus(|str| - iter, RightEraseNum(str[..iter]))
    {
      match Prior(str[..iter]) {
        case None => return RuntimeError;
        case Some((codePoint, p)) =>
          if !IsWhitespace(codePoint) {
            break;
          }
          assert str[..iter][..p] == str[..p];
          iter := p;
      }
    }
    return Ok(WrapInt32(|str| - iter));
  }

  // --- the public functions ---

  function LeftTrimmed(s: Bytes): Result<Bytes> {
    match LeftEraseNum(s)
    case RuntimeError => RuntimeError
    case Ok(n) => Ok(s[n..])
  }

  function RightTrimmed(s: Bytes): Result<Bytes> {
    match RightEraseNum(s)
    case RuntimeError => RuntimeError
    case Ok(n) => Ok(s[..|s| - n])
  }

  function Trimmed(s: Bytes): Result<Bytes> {
    match LeftTrimmed(s)
    case RuntimeError => RuntimeError
    case Ok(t) => RightTrimmed(t)
  }

  /** The same scans, the right one first. */
  function TrimmedRightFirst(s: Bytes): Result<Bytes> {
    match RightTrimmed(s)
    case RuntimeError => RuntimeError
    case Ok(t) => LeftTrimmed(t)
  }

  /** How many of `size` bytes boost erases when asked for `n`: at most all of them, and for a negative `n` all
      but `-n`. */
  function ErasedCount(size: nat, n: int32): (k: nat)
    ensures k <= size
  {
    var asked: int := n as int;
    if asked > size then size
    else if asked >= 0 then asked
    else if size + asked >= 0 then size + asked
    else 0
  }

  /** `boost::algorithm::erase_head_copy` */
  function EraseHead(s: Bytes, n: int32): Bytes {
    s[ErasedCount(|s|, n)..]
  }

  /** `boost::algorithm::erase_tail_copy` */
  function EraseTail(s: Bytes, n: int32): Bytes {
    s[..|s| - ErasedCount(|s|, n)]
  }

  /** `LeftTrimmed` with the count narrowed. */
  function LeftErased(s: Bytes): Result<Bytes> {
    match AsInt32(LeftEraseNum(s))
    case RuntimeError => RuntimeError
    case Ok(n) => Ok(EraseHead(s, n))
  }

  /** `RightTrimmed` with the count narrowed. */
  function RightErased(s: Bytes): Result<Bytes> {
    match AsInt32(RightEraseNum(s))
    case RuntimeError => RuntimeError
    case Ok(n) => Ok(EraseTail(s, n))
  }

  function Erased(s: Bytes): Result<Bytes> {
    match LeftErased(s)
    case RuntimeError => RuntimeError
    case Ok(t) => RightErased(t)
  }

  method TrimLeftCopy(str: Bytes) returns (r: Result<Bytes>)
    ensures r == LeftErased(str)
  {
    var erase := TrimLeftEraseNum(str);
    match erase {
      case RuntimeError => r := RuntimeError;
      case Ok(n) => r := Ok(EraseHead(str, n));
    }
  }

  method TrimRightCopy(str: Bytes) returns (r: Result<Bytes>)
    ensures r == RightErased(str)
  {
    var erase := TrimRightEraseNum(str);
    match erase {
      case RuntimeError => r := RuntimeError;
      case Ok(n) => r := Ok(EraseTail(str, n));
    }
  }

  method TrimCopy(str: Bytes) returns (r: Result<Bytes>)
    ensures r == Erased(str)
    ensures |str| <= INT32_MAX ==> r == Trimmed(str)
  {
    r := TrimLeftCopy(str);
    if r.Ok? {
      r := TrimRightCopy(r.value);
    }
    if |str| <= INT32_MAX {
      ErasedIsTrimmed(str);
    }
  }

  /** A `std::string` that the trimming functions change in place. */
  class Text {
    var bytes: Bytes

    constructor (bytes: Bytes)
      ensures this.bytes == bytes
    {
      this.bytes := bytes;
    }

    /** `trim_left`: on an exception the string is untouched. */
    method TrimLeft() returns (r: Result<()>)
      modifies this
      ensures match LeftErased(old(bytes))
              case Ok(t) => r == Ok(()) && bytes == t
              case RuntimeError => r == RuntimeError && bytes == old(bytes)
    {
      var erase := TrimLeftEraseNum(bytes);
      match erase {
        case RuntimeError => r := RuntimeError;
        case Ok(n) =>
          bytes := EraseHead(bytes, n);
          r := Ok(());
      }
    }

    /** `trim_right`: on an exception the string is untouched. */
    method TrimRight() returns (r: Result<()>)
      modifies this
      ensures match RightErased(old(bytes))
              case Ok(t) => r == Ok(()) && bytes == t
              case RuntimeError => r == RuntimeError && bytes == old(bytes)
    {
      var erase := TrimRightEraseNum(bytes);
      match erase {
        case RuntimeError => r := RuntimeError;
        case Ok(n) =>
          bytes := EraseTail(bytes, n);
          r := Ok(());
      }
    }

    /** `trim`: the same text as `trim_copy`; when only the second scan throws, the left side is already gone. */
    method Trim() returns (r: Result<()>)
      modifies this
      ensures match Erased(old(bytes))
              case Ok(t) => r == Ok(()) && bytes == t
              case RuntimeError =>
                && r == RuntimeError
                && bytes == if LeftErased(old(bytes)).Ok? then LeftErased(old(bytes)).value else old(bytes)
    {
      r := TrimLeft();
      if r.Ok? {
        r := TrimRight();
      }
    }
  }

  // --- what the narrowing does ---

  /** The count survives the narrowing, or turns into the negative of what is to be left: that takes a size that is a
      multiple of 2^32, and at most 2^31 bytes to be left. */
  predicate ErasesRightly(n: nat, size: nat)
    requires n <= size
  {
    n <= INT32_MAX || (size % UINT32_MODULUS == 0 && 0 < size - n <= 0x8000_0000)
  }

  lemma WrapDiffersByMultiple(n: int) returns (k: int)
    ensures WrapInt32(n) as int == n - k * UINT32_MODULUS
  {
    k := (n + 0x8000_0000) / UINT32_MODULUS;
  }

  lemma NarrowingExactly(n: nat, size: nat)
    requires n <= size
    ensures ErasedCount(size, WrapInt32(n)) == n <==> ErasesRightly(n, size)
  {
    var k := WrapDiffersByMultiple(n);
    if size % UINT32_MODULUS == 0 && 0 < size - n <= 0x8000_0000 {
      DivModUnique(n + 0x8000_0000, UINT32_MODULUS, size / UINT32_MODULUS, n + 0x8000_0000 - size);
    } else if ErasedCount(size, WrapInt32(n)) == n && WrapInt32(n) < 0 && n > 0 {
      DivModUnique(size, UINT32_MODULUS, k, 0);
    }
  }

  /** What `trim_left` and `trim_right` leave is what their scans say, exactly under that condition. */
  lemma ErasedExactly(s: Bytes)
    ensures LeftErased(s) == LeftTrimmed(s) <==>
            (LeftEraseNum(s).Ok? ==> ErasesRightly(LeftEraseNum(s).value, |s|))
    ensures RightErased(s) == RightTrimmed(s) <==>
            (RightEraseNum(s).Ok? ==> ErasesRightly(RightEraseNum(s).value, |s|))
  {
    hide LeftEraseNum, RightEraseNum, ErasedCount, WrapInt32, ErasesRightly;
    if LeftEraseNum(s).Ok? {
      var n := LeftEraseNum(s).value;
      NarrowingExactly(n, |s|);
      assert |LeftErased(s).value| == |s| - ErasedCount(|s|, WrapInt32(n));
    }
    if RightEraseNum(s).Ok? {
      var n := RightEraseNum(s).value;
      NarrowingExactly(n, |s|);
      assert |RightErased(s).value| == |s| - ErasedCount(|s|, WrapInt32(n));
    }
  }

  /** In particular the narrowing does no harm to a string of less than 2^31 bytes. */
  lemma ErasedIsTrimmed(s: Bytes)
    requires |s| <= INT32_MAX
    ensures LeftErased(s) == LeftTrimmed(s)
    ensures RightErased(s) == RightTrimmed(s)
    ensures Erased(s) == Trimmed(s)
  {
    hide LeftEraseNum, RightEraseNum, ErasedCount, WrapInt32;
    ErasedExactly(s);
    if LeftTrimmed(s).Ok? {
      ErasedExactly(LeftTrimmed(s).value);
    }
  }

  lemma LongCount(n: nat)
    requires INT32_MAX < n < UINT32_MODULUS
    ensures ErasedCount(n, WrapInt32(n)) == 2 * n - UINT32_MODULUS
  {
    DivModUnique(n + 0x8000_0000, UINT32_MODULUS, 1, n - 0x8000_0000);
  }

  /** From 2^31 bytes of white space on the count turns negative, and `trim_left` leaves white space standing: all of
      2^31 bytes, the last one of 2^32 - 1. */
  lemma LongBlankStays(blank: seq<CodePoint>)
    requires AllScalar(blank) && AllWhitespace(blank)
    requires INT32_MAX < |Encode(blank)| < UINT32_MODULUS
    ensures var s := Encode(blank);
            LeftErased(s) == Ok(s[2 * |s| - UINT32_MODULUS..])
  {
    hide Encode, IsScalar, LeftEraseNum, WrapInt32, ErasedCount;
    var s := Encode(blank);
    BlankIsTrimmed(blank);
    assert LeftEraseNum(s) == Ok(|s|);
    LongCount(|s|);
  }

  // --- what trimming means ---

  lemma {:induction false} LeftEraseNumOfEncode(cs: seq<CodePoint>)
    requires AllScalar(cs)
    ensures AllScalar(StripLeft(cs))
    ensures LeftTrimmed(Encode(cs)) == Ok(Encode(StripLeft(cs)))
  {
    hide IsWhitespace, Next, EncodeOne;
    if cs != [] {
      var rest := Encode(cs[1..]);
      NextOfEncodeOne(cs[0], rest);
      if IsWhitespace(cs[0]) {
        var n := |EncodeOne(cs[0])|;
        assert Encode(cs)[n..] == rest;
        LeftEraseNumOfEncode(cs[1..]);
        var more := LeftEraseNum(rest).value;
        assert Encode(cs)[n + more..] == rest[more..];
      }
    }
  }

  lemma EncodeSnoc(front: seq<CodePoint>, last: CodePoint)
    requires AllScalar(front + [last])
    ensures AllScalar(front) && IsScalar(last)
    ensures Encode(front + [last]) == Encode(front) + EncodeOne(last)
  {
    AllScalarParts(front, [last]);
    assert [last][0] == last;
    EncodeAppend(front, [last]);
    EncodeSingle(last);
  }

  lemma RightTrimmedStep(pre: Bytes, c: CodePoint)
    requires IsScalar(c)
    ensures RightTrimmed(pre + EncodeOne(c)) == if IsWhitespace(c) then RightTrimmed(pre) else Ok(pre + EncodeOne(c))
  {
    var s := pre + EncodeOne(c);
    PriorOfEncodeOne(pre, c, []);
    assert s + [] == s;
    assert s[..|pre|] == pre;
    match RightEraseNum(pre) {
      case Ok(more) => assert s[..|pre| - more] == pre[..|pre| - more];
      case RuntimeError =>
    }
  }

  lemma {:induction false} RightEraseNumOfEncode(cs: seq<CodePoint>)
    requires AllScalar(cs)
    ensures AllScalar(StripRight(cs))
    ensures RightTrimmed(Encode(cs)) == Ok(Encode(StripRight(cs)))
  {
    if cs != [] {
      var front, last := cs[..|cs| - 1], cs[|cs| - 1];
      assert cs == front + [last];
      EncodeSnoc(front, last);
      RightTrimmedStep(Encode(front), last);
      if IsWhitespace(last) {
        RightEraseNumOfEncode(front);
      }
    }
  }

  /** Byte-level trimming is code-point trimming, on every well-formed string. */
  lemma TrimRefinesCodePoints(s: Bytes)
    requires WellFormed(s)
    ensures var cs := Decode(s).value;
            && AllScalar(StripRight(StripLeft(cs)))
            && Trimmed(s) == Ok(Encode(StripRight(StripLeft(cs))))
  {
    var cs := Decode(s).value;
    EncodeOfDecode(s);
    LeftEraseNumOfEncode(cs);
    RightEraseNumOfEncode(StripLeft(cs));
  }

  /** The same without naming any algorithm: white space around a tight text is what goes, all of it and
      nothing else, and the order of the two scans does not matter. */
  lemma TrimRemovesTheSurroundings(left: seq<CodePoint>, middle: seq<CodePoint>, right: seq<CodePoint>)
    requires AllScalar(left) && AllScalar(middle) && AllScalar(right)
    requires AllWhitespace(left) && AllWhitespace(right)
    requires Tight(middle)
    ensures var s := Encode(left) + Encode(middle) + Encode(right);
            && Trimmed(s) == Ok(Encode(middle))
            && RightTrimmed(s).Ok? && LeftTrimmed(RightTrimmed(s).value) == Ok(Encode(middle))
            && Trimmed(Encode(middle)) == Ok(Encode(middle))
  {
    var cs := left + middle + right;
    EncodeAppend(left, middle);
    EncodeAppend(left + middle, right);
    StripsToMiddle(left, middle, right);
    LeftEraseNumOfEncode(cs);
    RightEraseNumOfEncode(StripLeft(cs));
    RightEraseNumOfEncode(cs);
    LeftEraseNumOfEncode(StripRight(cs));
    LeftEraseNumOfEncode(middle);
    RightEraseNumOfEncode(middle);
  }

  lemma StripsToMiddle(left: seq<CodePoint>, middle: seq<CodePoint>, right: seq<CodePoint>)
    requires AllWhitespace(left) && AllWhitespace(right)
    requires Tight(middle)
    ensures var cs := left + middle + right;
            && StripRight(StripLeft(cs)) == middle
            && StripLeft(StripRight(cs)) == middle
            && StripLeft(middle) == middle
            && StripRight(middle) == middle
  {
    var cs := left + middle + right;
    if middle == [] {
      assert cs == left + right + [];
      assert cs == [] + (left + right);
      StripLeftDrops(left + right, []);
      StripRightDrops([], left + right);
    } else {
      assert cs == left + (middle + right);
      StripLeftDrops(left, middle + right);
      StripRightDrops(middle, right);
      StripRightDrops(left + middle, right);
      StripLeftDrops(left, middle);
    }
  }

  /** Every well-formed string is of the form the previous lemma speaks about. */
  lemma EveryTextHasATightMiddle(s: Bytes)
      returns (left: seq<CodePoint>, middle: seq<CodePoint>, right: seq<CodePoint>)
    requires WellFormed(s)
    ensures AllScalar(left) && AllScalar(middle) && AllScalar(right)
    ensures AllWhitespace(left) && AllWhitespace(right)
    ensures Tight(middle)
    ensures s == Encode(left) + Encode(middle) + Encode(right)
  {
    EncodeOfDecode(s);
    left, middle, right := TightMiddle(Decode(s).value);
    EncodeAppend(left, middle);
    EncodeAppend(left + middle, right);
  }

  lemma TightMiddle(cs: seq<CodePoint>)
      returns (left: seq<CodePoint>, middle: seq<CodePoint>, right: seq<CodePoint>)
    requires AllScalar(cs)
    ensures AllScalar(left) && AllScalar(middle) && AllScalar(right)
    ensures AllWhitespace(left) && AllWhitespace(right)
    ensures Tight(middle)
    ensures cs == left + middle + right
  {
    hide IsWhitespace, IsScalar, StripLeft, StripRight;
    left := StripLeftSplits(cs);
    var rest := StripLeft(cs);
    AllScalarParts(left, rest);
    right := StripRightSplits(rest);
    middle := StripRight(rest);
    AllScalarParts(middle, right);
    assert middle != [] ==> middle[0] == rest[0];
  }

  lemma AllScalarParts(a: seq<CodePoint>, b: seq<CodePoint>)
    requires AllScalar(a + b)
    ensures AllScalar(a) && AllScalar(b)
  {
    assert forall k | 0 <= k < |a| :: a[k] == (a + b)[k];
    assert forall k | 0 <= k < |b| :: b[k] == (a + b)[|a| + k];
  }

  /** On any bytes at all, malformed ones included: the forward scan erases `n` bytes exactly when these are
      encoded white space and what follows them is the end or a readable code point that is not white space.
      In every other case it throws. */
  lemma {:induction false} LeftEraseNumExactly(s: Bytes, n: nat)
    ensures LeftEraseNum(s) == Ok(n) <==>
            && n <= |s|
            && WellFormed(s[..n]) && AllWhitespace(Decode(s[..n]).value)
            && (n < |s| ==> Next(s[n..]).Some? && !IsWhitespace(Next(s[n..]).value.0))
  {
    hide IsWhitespace, Next;
    if s == [] {
    } else if n == 0 {
      assert s[0..] == s;
    } else if n <= |s| {
      if Next(s).Some? {
        var (c, k) := Next(s).value;
        if k <= n {
          NextOfPrefix(s, n);
          LeftEraseNumExactly(s[k..], n - k);
          SliceOfSlice(s, k, n);
          DecodeStep(s[..n]);
        } else {
          NextOfShortPrefix(s, n);
        }
      } else {
        NextOfShortPrefix(s, n);
      }
    }
  }

  lemma DecodeStep(s: Bytes)
    requires s != [] && Next(s).Some?
    ensures var (c, k) := Next(s).value;
            (WellFormed(s) && AllWhitespace(Decode(s).value)) <==>
            (IsWhitespace(c) && WellFormed(s[k..]) && AllWhitespace(Decode(s[k..]).value))
  {
    var (c, k) := Next(s).value;
    if WellFormed(s[k..]) {
      var rest := Decode(s[k..]).value;
      var all := [c] + rest;
      assert Decode(s).value == all && all[0] == c;
      assert forall j | 0 <= j < |rest| :: rest[j] == all[j + 1];
      assert forall j | 0 < j < |all| :: all[j] == rest[j - 1];
    }
  }

  lemma NextOfPrefix(s: Bytes, n: nat)
    requires s != [] && Next(s).Some? && Next(s).value.1 <= n <= |s|
    ensures Next(s[..n]) == Next(s)
  {
  }

  lemma NextOfShortPrefix(s: Bytes, n: nat)
    requires s != [] && 0 < n <= |s|
    requires Next(s).Some? ==> n < Next(s).value.1
    ensures Next(s[..n]) == None
  {
  }

  /** What the backward scan takes for one white-space code point: its encoding, and any stray trail bytes behind. */
  ghost predicate IsBlankUnit(u: Bytes) {
    && u != []
    && Next(u).Some?
    && IsWhitespace(Next(u).value.0)
    && forall k | Next(u).value.1 <= k < |u| :: IsTrail(u[k])
  }

  function Concat(units: seq<Bytes>): Bytes {
    if units == [] then [] else Concat(units[..|units| - 1]) + units[|units| - 1]
  }

  lemma PriorOfUnit(pre: Bytes, u: Bytes)
    requires IsBlankUnit(u)
    ensures Prior(pre + u).Some?
    ensures IsWhitespace(Prior(pre + u).value.0) && Prior(pre + u).value.1 == |pre|
  {
    hide Prior, IsWhitespace;
    var (c, n) := Next(u).value;
    NextReadsAnEncoding(u);
    assert u == EncodeOne(c) + u[n..] && pre + u == pre + EncodeOne(c) + u[n..];
    PriorOfEncodeOne(pre, c, u[n..]);
  }

  /** Where the backward scan ends: at the beginning or at something readable that is not white space. */
  predicate StopsScan(pre: Bytes) {
    pre != [] ==> Prior(pre).Some? && !IsWhitespace(Prior(pre).value.0)
  }

  lemma RightTrimmedStop(pre: Bytes)
    requires StopsScan(pre)
    ensures RightTrimmed(pre) == Ok(pre)
  {
    hide Prior, IsWhitespace;
    assert pre[..|pre|] == pre;
  }

  /** The same for the backward scan, on any bytes at all: it erases such units until it meets the beginning or
      something readable that is not white space ... */
  lemma {:induction false} RightTrimmedOf(pre: Bytes, units: seq<Bytes>)
    requires forall k | 0 <= k < |units| :: IsBlankUnit(units[k])
    requires StopsScan(pre)
    ensures RightTrimmed(pre + Concat(units)) == Ok(pre)
  {
    hide Prior, IsWhitespace, IsBlankUnit, RightTrimmed;
    if units == [] {
      assert pre + [] == pre;
      RightTrimmedStop(pre);
    } else {
      var front, u := units[..|units| - 1], units[|units| - 1];
      RightTrimmedOf(pre, front);
      assert pre + Concat(units) == pre + Concat(front) + u;
      PriorOfUnit(pre + Concat(front), u);
      RightTrimmedBehind(pre + Concat(front), u);
    }
  }

  lemma RightTrimmedBehind(pre: Bytes, u: Bytes)
    requires u != [] && Prior(pre + u).Some?
    requires IsWhitespace(Prior(pre + u).value.0) && Prior(pre + u).value.1 == |pre|
    ensures RightTrimmed(pre + u) == RightTrimmed(pre)
  {
    hide Prior, IsWhitespace;
    var s := pre + u;
    assert s[..|pre|] == pre;
    match RightEraseNum(pre) {
      case Ok(more) => assert s[..|pre| - more] == pre[..|pre| - more];
      case RuntimeError =>
    }
  }

  /** ... and whatever it does not throw on is of that form. */
  lemma {:induction false} RightTrimmedUnits(s: Bytes) returns (units: seq<Bytes>)
    requires RightTrimmed(s).Ok?
    ensures forall k | 0 <= k < |units| :: IsBlankUnit(units[k])
    ensures var pre := RightTrimmed(s).value;
            s == pre + Concat(units) && StopsScan(pre)
    decreases |s|
  {
    hide Prior, IsWhitespace, IsBlankUnit;
    if s == [] || !IsWhitespace(Prior(s).value.0) {
      units := [];
      assert s[..|s|] == s;
    } else {
      var p := Prior(s).value.1;
      var pre, u := s[..p], s[p..];
      assert s == pre + u;
      UnitOfPrior(s);
      RightTrimmedBehind(pre, u);
      var front := RightTrimmedUnits(pre);
      units := front + [u];
      assert units[..|units| - 1] == front;
    }
  }

  lemma UnitOfPrior(s: Bytes)
    requires s != [] && Prior(s).Some? && IsWhitespace(Prior(s).value.0)
    ensures IsBlankUnit(s[Prior(s).value.1..])
  {
    hide Next, IsWhitespace;
    LeadThenTrails(s);
  }

  /** So on malformed input `trim_right` need not throw: a unit with stray bytes is erased though it is no UTF-8. */
  lemma BlankUnitNeedNotBeUtf8(blank: CodePoint, stray: Bytes)
    requires IsScalar(blank) && IsWhitespace(blank)
    requires stray != [] && forall k | 0 <= k < |stray| :: IsTrail(stray[k])
    ensures IsBlankUnit(EncodeOne(blank) + stray) && !WellFormed(EncodeOne(blank) + stray)
    ensures RightTrimmed(EncodeOne(blank) + stray) == Ok([])
  {
    var u := EncodeOne(blank) + stray;
    NextOfEncodeOne(blank, stray);
    assert IsTrail(stray[0]) && Decode(stray) == None;
    assert u[|EncodeOne(blank)|..] == stray;
    var units := [u];
    assert units[..0] == [];
    assert [] + Concat(units) == u;
    RightTrimmedOf([], units);
  }

  /** What it erases is UTF-8 exactly when the text ends in encoded white space with such an end in front of it. */
  lemma RightErasesUtf8Exactly(s: Bytes, pre: Bytes)
    ensures RightTrimmed(s) == Ok(pre) && pre <= s && WellFormed(s[|pre|..]) <==>
            && StopsScan(pre)
            && exists blank | AllScalar(blank) && AllWhitespace(blank) :: s == pre + Encode(blank)
  {
    hide IsWhitespace, StopsScan, RightTrimmed, Decode, Encode;
    if RightTrimmed(s) == Ok(pre) && pre <= s && WellFormed(s[|pre|..]) {
      var units := RightTrimmedUnits(s);
      var w := s[|pre|..];
      assert w == [] + Concat(units);
      EmptyStopsScan();
      RightTrimmedOf([], units);
      var blank := ErasedIsBlank(w);
      assert s == pre + Encode(blank);
    }
    if blank: seq<CodePoint> :|
        StopsScan(pre) && AllScalar(blank) && AllWhitespace(blank) && s == pre + Encode(blank)
    {
      RightTrimmedEncodedBlank(pre, blank);
      DecodeOfEncode(blank);
      assert s[|pre|..] == Encode(blank);
    }
  }

  lemma EmptyStopsScan()
    ensures StopsScan([])
  {
  }

  /** Well-formed text that the backward scan erases altogether is white space. */
  lemma ErasedIsBlank(w: Bytes) returns (blank: seq<CodePoint>)
    requires WellFormed(w) && RightTrimmed(w) == Ok([])
    ensures AllScalar(blank) && AllWhitespace(blank)
    ensures w == Encode(blank)
  {
    hide IsWhitespace, IsScalar, RightTrimmed, Decode;
    EncodeOfDecode(w);
    blank := Decode(w).value;
    RightEraseNumOfEncode(blank);
    assert Encode(StripRight(blank)) == [];
    var erased := StripRightSplits(blank);
    assert blank == erased;
  }

  lemma {:induction false} RightTrimmedEncodedBlank(pre: Bytes, blank: seq<CodePoint>)
    requires StopsScan(pre) && AllScalar(blank) && AllWhitespace(blank)
    ensures RightTrimmed(pre + Encode(blank)) == Ok(pre)
    decreases |blank|
  {
    hide IsWhitespace, IsScalar, RightTrimmed, StopsScan;
    if blank == [] {
      assert pre + [] == pre;
      RightTrimmedStop(pre);
    } else {
      var front, last := blank[..|blank| - 1], blank[|blank| - 1];
      assert blank == front + [last];
      EncodeSnoc(front, last);
      RightTrimmedEncodedBlank(pre, front);
      RightTrimmedStep(pre + Encode(front), last);
      assert pre + Encode(blank) == pre + Encode(front) + EncodeOne(last);
    }
  }

  // --- the order of the two scans ---

  lemma {:induction false} LeadPositionBehind(pre: Bytes, s: Bytes)
    requires s != [] && LeadPosition(s).Some?
    ensures LeadPosition(pre + s) == Some(|pre| + LeadPosition(s).value)
    ensures !IsTrail(s[LeadPosition(s).value])
    decreases |s|
  {
    hide IsTrail;
    var all, front := pre + s, s[..|s| - 1];
    assert all[|all| - 1] == s[|s| - 1];
    if IsTrail(s[|s| - 1]) {
      LeadPositionBehind(pre, front);
      assert all[..|all| - 1] == pre + front;
    }
  }

  lemma PriorBehind(pre: Bytes, s: Bytes)
    requires s != [] && Prior(s).Some?
    ensures Prior(pre + s) == Some((Prior(s).value.0, |pre| + Prior(s).value.1))
  {
    hide Next;
    LeadPositionBehind(pre, s);
    var p := LeadPosition(s).value;
    assert (pre + s)[|pre| + p..] == s[p..];
  }

  lemma NextBefore(s: Bytes, tail: Bytes)
    requires s != [] && Next(s).Some?
    ensures Next(s + tail) == Next(s)
  {
    assert (s + tail)[..|s|] == s;
    var n := SequenceLength(s[0]);
    assert TrailsFollow(s + tail, n) && Payload(s + tail, n) == Payload(s, n);
  }

  /** The forward scan of a text does not get past what stops the backward scan. */
  lemma {:induction false} LeftScanStopsInside(s: Bytes, tail: Bytes)
    requires s != [] && StopsScan(s)
    ensures match LeftTrimmed(s)
            case RuntimeError => LeftTrimmed(s + tail) == RuntimeError
            case Ok(r) => r != [] && StopsScan(r) && LeftTrimmed(s + tail) == Ok(r + tail)
    decreases |s|
  {
    hide IsWhitespace, StopsScan, Next, Prior;
    if Next(s) == None {
      UnreadableStart(s, tail);
    } else {
      NextBefore(s, tail);
      var (c, n) := Next(s).value;
      if IsWhitespace(c) {
        StopBehindWhitespace(s);
        LeftScanStopsInside(s[n..], tail);
        LeftTrimmedStep(s);
        LeftTrimmedStep(s + tail);
        assert (s + tail)[n..] == s[n..] + tail;
      } else {
        assert LeftEraseNum(s) == Ok(0) && LeftEraseNum(s + tail) == Ok(0);
      }
    }
  }

  lemma LeftTrimmedStep(s: Bytes)
    requires s != [] && Next(s).Some? && IsWhitespace(Next(s).value.0)
    ensures LeftTrimmed(s) == LeftTrimmed(s[Next(s).value.1..])
  {
    hide IsWhitespace, Next;
    var n := Next(s).value.1;
    match LeftEraseNum(s[n..]) {
      case Ok(more) => assert s[n..][more..] == s[n + more..];
      case RuntimeError =>
    }
  }

  lemma UnreadableStart(s: Bytes, tail: Bytes)
    requires s != [] && StopsScan(s) && Next(s) == None
    ensures Next(s + tail) == None
  {
    hide IsWhitespace;
    var all := s + tail;
    assert all[..|s|] == s;
    if Next(all).Some? {
      var n := Next(all).value.1;
      if n <= |s| {
        NextOfPrefix(all, |s|);
      }
    }
  }

  lemma StopBehindWhitespace(s: Bytes)
    requires s != [] && StopsScan(s) && Next(s).Some? && IsWhitespace(Next(s).value.0)
    ensures var rest := s[Next(s).value.1..];
            rest != [] && StopsScan(rest)
  {
    hide IsWhitespace, Next, EncodeOne, IsScalar, LeadPosition;
    var (c, n) := Next(s).value;
    var rest := s[n..];
    NextReadsAnEncoding(s);
    assert s == [] + EncodeOne(c) + rest;
    if rest == [] || LeadPosition(rest) == None {
      NoLeadAllTrails(rest);
      PriorOfEncodeOne([], c, rest);
    } else {
      LeadPositionBehind(EncodeOne(c), rest);
      assert s == EncodeOne(c) + rest;
      assert s[n + LeadPosition(rest).value..] == rest[LeadPosition(rest).value..];
    }
  }

  lemma {:induction false} NoLeadAllTrails(s: Bytes)
    requires s != [] ==> LeadPosition(s) == None
    ensures forall k | 0 <= k < |s| :: IsTrail(s[k])
    decreases |s|
  {
    if |s| > 1 {
      NoLeadAllTrails(s[..|s| - 1]);
      assert forall k | 0 <= k < |s| - 1 :: s[k] == s[..|s| - 1][k];
    }
  }

  lemma {:induction false} UnitsStartBlank(units: seq<Bytes>)
    requires units != [] && forall k | 0 <= k < |units| :: IsBlankUnit(units[k])
    ensures Concat(units) != []
    ensures Next(Concat(units)).Some? && IsWhitespace(Next(Concat(units)).value.0)
    decreases |units|
  {
    hide IsWhitespace, Next;
    var front, u := units[..|units| - 1], units[|units| - 1];
    if front == [] {
      assert Concat(units) == u;
    } else {
      UnitsStartBlank(front);
      NextBefore(Concat(front), u);
    }
  }

  /** What the forward scan leaves begins with something readable that is not white space, so the backward scan cannot
      erase all of it. */
  lemma NothingVisibleIsErased(s: Bytes)
    requires LeftTrimmed(s).Ok? && RightTrimmed(LeftTrimmed(s).value) == Ok([])
    ensures LeftTrimmed(s) == Ok([]) && WellFormed(s) && RightTrimmed(s) == Ok([])
  {
    hide IsWhitespace, RightTrimmed, Decode, Next, IsBlankUnit;
    var n := LeftEraseNum(s).value;
    var t := LeftTrimmed(s).value;
    LeftEraseNumExactly(s, n);
    var units := RightTrimmedUnits(t);
    assert t == Concat(units);
    if units != [] {
      UnitsStartBlank(units);
    }
    assert s[..n] == s;
    EncodeOfDecode(s);
    EmptyStopsScan();
    RightTrimmedEncodedBlank([], Decode(s).value);
    assert [] + Encode(Decode(s).value) == s;
  }

  /** On any bytes at all the two orders agree, in the text and in throwing, unless the text is malformed and the
      backward scan erases all of it: then it hides the bytes on which the forward scan throws. */
  lemma OrdersAgreeExactly(s: Bytes)
    ensures Trimmed(s) == TrimmedRightFirst(s) <==> (RightTrimmed(s) == Ok([]) ==> WellFormed(s))
    ensures Trimmed(s) != TrimmedRightFirst(s) ==> Trimmed(s) == RuntimeError && TrimmedRightFirst(s) == Ok([])
  {
    hide IsWhitespace, RightTrimmed, LeftTrimmed, Decode, StopsScan, Prior;
    assert LeftTrimmed([]) == Ok([]) by {
      LeftOfEmpty();
    }
    if RightTrimmed(s) == Ok([]) {
      if WellFormed(s) {
        var blank := ErasedIsBlank(s);
        BlankIsTrimmed(blank);
      } else if Trimmed(s).Ok? {
        TrimmedIsErased(s);
      }
    } else if RightTrimmed(s).Ok? {
      var pre := RightTrimmed(s).value;
      var units := RightTrimmedUnits(s);
      LeftScanStopsInside(pre, Concat(units));
      if LeftTrimmed(pre).Ok? {
        RightTrimmedOf(LeftTrimmed(pre).value, units);
      }
    } else if Trimmed(s).Ok? {
      TrimmedIsErased(s);
    }
  }

  /** Where the source does not throw, the backward scan of the whole text does not either, and it leaves something
      unless the text is well-formed and nothing is to be left. */
  lemma TrimmedIsErased(s: Bytes)
    requires Trimmed(s).Ok?
    ensures RightTrimmed(s).Ok?
    ensures RightTrimmed(s) == Ok([]) ==> WellFormed(s)
  {
    hide IsWhitespace, RightTrimmed, LeftTrimmed, Decode, StopsScan, Prior;
    var t := LeftTrimmed(s).value;
    var r := RightTrimmed(t).value;
    if r == [] {
      NothingVisibleIsErased(s);
    } else {
      var units := RightTrimmedUnits(t);
      RightTrimmedAround(s, r, units);
    }
  }

  lemma LeftOfEmpty()
    ensures LeftTrimmed([]) == Ok([])
  {
  }

  lemma BlankIsTrimmed(blank: seq<CodePoint>)
    requires AllScalar(blank) && AllWhitespace(blank)
    ensures LeftTrimmed(Encode(blank)) == Ok([]) && RightTrimmed([]) == Ok([])
  {
    LeftEraseNumOfEncode(blank);
    assert blank + [] == blank;
    StripLeftDrops(blank, []);
  }

  lemma LeftTrimmedIsSuffix(s: Bytes)
    requires LeftTrimmed(s).Ok?
    ensures var t := LeftTrimmed(s).value; |t| <= |s| && s == s[..|s| - |t|] + t
  {
    hide LeftEraseNum;
    var n := LeftEraseNum(s).value;
    assert s == s[..n] + s[n..];
  }

  lemma RightTrimmedAround(s: Bytes, r: Bytes, units: seq<Bytes>)
    requires r != [] && StopsScan(r)
    requires forall k | 0 <= k < |units| :: IsBlankUnit(units[k])
    requires LeftTrimmed(s) == Ok(r + Concat(units))
    ensures RightTrimmed(s).Ok? && RightTrimmed(s).value != []
  {
    hide IsWhitespace, Prior, IsBlankUnit, RightTrimmed, LeftTrimmed, Concat;
    LeftTrimmedIsSuffix(s);
    var pre := s[..|s| - |r + Concat(units)|];
    assert s == pre + r + Concat(units);
    PriorBehind(pre, r);
    RightTrimmedOf(pre + r, units);
  }

  // --- first and last code point ---

  /** `first_code_point`; the source requires a non-empty string. */
  function FirstCodePoint(s: Bytes): Result<CodePoint>
    requires s != []
  {
    match Next(s) case None => RuntimeError case Some((c, _)) => Ok(c)
  }

  /** `last_code_point`; the source requires a non-empty string. */
  function LastCodePoint(s: Bytes): Result<CodePoint>
    requires s != []
  {
    match Prior(s) case None => RuntimeError case Some((c, _)) => Ok(c)
  }

  /** On any bytes: the code point whose encoding the bytes begin with, an exception when there is none. */
  lemma FirstCodePointExactly(s: Bytes, c: CodePoint)
    requires s != []
    ensures FirstCodePoint(s) == Ok(c) <==> IsScalar(c) && EncodeOne(c) <= s
  {
    hide Next, EncodeOne, IsScalar;
    NextExactly(s, c, if IsScalar(c) then |EncodeOne(c)| else 0);
    if Next(s).Some? {
      NextExactly(s, c, Next(s).value.1);
    }
  }

  /** On any bytes: the code point whose encoding the bytes end with, not counting stray trail bytes behind it; an
      exception when there is none. */
  lemma LastCodePointExactly(s: Bytes, c: CodePoint)
    requires s != []
    ensures LastCodePoint(s) == Ok(c) <==>
            && IsScalar(c)
            && exists p: nat :: p < |s| && EncodeOne(c) <= s[p..]
                                && forall k | p + |EncodeOne(c)| <= k < |s| :: 0x80 <= s[k] <= 0xBF
  {
    hide Prior, EncodeOne, IsScalar;
    if Prior(s).Some? {
      PriorExactly(s, c, Prior(s).value.1);
    }
    if IsScalar(c) {
      forall p: nat | p < |s| && EncodeOne(c) <= s[p..]
                      && forall k | p + |EncodeOne(c)| <= k < |s| :: 0x80 <= s[k] <= 0xBF
        ensures LastCodePoint(s) == Ok(c)
      {
        PriorExactly(s, c, p);
      }
    }
  }

  /** They are the two ends of the decoded text. */
  lemma FirstAndLastCodePoint(s: Bytes)
    requires WellFormed(s) && s != []
    ensures var cs := Decode(s).value;
            && cs != []
            && FirstCodePoint(s) == Ok(cs[0])
            && LastCodePoint(s) == Ok(cs[|cs| - 1])
  {
    var cs := Decode(s).value;
    EncodeOfDecode(s);
    LastCodePointOfEncode(cs);
  }

  lemma LastCodePointOfEncode(cs: seq<CodePoint>)
    requires AllScalar(cs) && cs != []
    ensures Encode(cs) != [] && LastCodePoint(Encode(cs)) == Ok(cs[|cs| - 1])
  {
    var front, last := cs[..|cs| - 1], cs[|cs| - 1];
    assert cs == front + [last];
    EncodeSnoc(front, last);
    PriorOfEncodeOne(Encode(front), last, []);
    assert Encode(front) + EncodeOne(last) + [] == Encode(cs);
  }
}
