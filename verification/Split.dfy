/** `split_str` of src/util.cpp, and the splitting of boost that it and the URL parser rest on. */
module Split {
  import opened Prelude

  predicate NoneOf(s: Bytes, separate: Bytes) {
    forall k | 0 <= k < |s| :: s[k] !in separate
  }

  predicate AllOf(s: Bytes, separate: Bytes) {
    forall k | 0 <= k < |s| :: s[k] in separate
  }

  /** The length of the leading token. */
  function TokenLength(s: Bytes, separate: Bytes): (n: nat)
    ensures n <= |s|
    ensures NoneOf(s[..n], separate)
    ensures n < |s| ==> s[n] in separate
  {
    if s == [] || s[0] in separate then 0 else 1 + TokenLength(s[1..], separate)
  }

  /** The length of the leading run of separators. */
  function RunLength(s: Bytes, separate: Bytes): (n: nat)
    ensures n <= |s|
    ensures AllOf(s[..n], separate)
    ensures n < |s| ==> s[n] !in separate
    ensures s != [] && s[0] in separate ==> n > 0
  {
    if s == [] || s[0] !in separate then 0 else 1 + RunLength(s[1..], separate)
  }

  /** `boost::split(result, s, is_any_of(separate), token_compress_on)`. */
  function Tokens(s: Bytes, separate: Bytes): (r: seq<Bytes>)
    ensures r != []
    decreases |s|
  {
    var n := TokenLength(s, separate);
    if n == |s| then [s]
    else [s[..n]] + Tokens(s[n + RunLength(s[n..], separate)..], separate)
  }

  // --- what the tokens are ---

  /** Tokens and the runs of separators between them, put back together. */
  function Join(tokens: seq<Bytes>, runs: seq<Bytes>): Bytes
    requires |tokens| == |runs| + 1
  {
    if runs == [] then tokens[0] else tokens[0] + runs[0] + Join(tokens[1..], runs[1..])
  }

  /** No token holds a separator, runs are nothing but separators and not empty, and only the first and the last
      token may be empty. */
  ghost predicate IsSplit(tokens: seq<Bytes>, runs: seq<Bytes>, separate: Bytes) {
    && |tokens| == |runs| + 1
    && (forall k | 0 <= k < |tokens| :: NoneOf(tokens[k], separate))
    && (forall k | 0 <= k < |runs| :: runs[k] != [] && AllOf(runs[k], separate))
    && (forall k | 0 < k < |tokens| - 1 :: tokens[k] != [])
  }

  lemma {:induction false} TokenLengthOf(t: Bytes, rest: Bytes, separate: Bytes)
    requires NoneOf(t, separate) && (rest == [] || rest[0] in separate)
    ensures TokenLength(t + rest, separate) == |t|
  {
    if t == [] {
      assert t + rest == rest;
    } else {
      TokenLengthOf(t[1..], rest, separate);
      assert (t + rest)[1..] == t[1..] + rest;
    }
  }

  lemma {:induction false} RunLengthOf(run: Bytes, rest: Bytes, separate: Bytes)
    requires AllOf(run, separate) && (rest == [] || rest[0] !in separate)
    ensures RunLength(run + rest, separate) == |run|
  {
    if run == [] {
      assert run + rest == rest;
    } else {
      RunLengthOf(run[1..], rest, separate);
      assert (run + rest)[1..] == run[1..] + rest;
    }
  }

  lemma TokensStep(t: Bytes, run: Bytes, rest: Bytes, separate: Bytes)
    requires NoneOf(t, separate) && run != [] && AllOf(run, separate) && (rest == [] || rest[0] !in separate)
    ensures Tokens(t + run + rest, separate) == [t] + Tokens(rest, separate)
  {
    var s := t + run + rest;
    assert s == t + (run + rest);
    TokenLengthOf(t, run + rest, separate);
    assert s[|t|..] == run + rest && s[..|t|] == t;
    RunLengthOf(run, rest, separate);
    assert s[|t| + |run|..] == rest;
  }

  /** Every string is its tokens and the runs between them. */
  lemma {:induction false} TokensSplit(s: Bytes, separate: Bytes) returns (runs: seq<Bytes>)
    ensures IsSplit(Tokens(s, separate), runs, separate)
    ensures Join(Tokens(s, separate), runs) == s
    decreases |s|
  {
    var n := TokenLength(s, separate);
    if n == |s| {
      runs := [];
      assert s[..n] == s;
    } else {
      var t, run, rest := FirstPiece(s, separate);
      runs := TokensSplit(rest, separate);
      FirstTokenOf(rest, separate);
      SplitCons(t, run, Tokens(rest, separate), runs, separate);
      TokensStep(t, run, rest, separate);
      runs := [run] + runs;
    }
  }

  /** The leading token, the run behind it, and what is left. */
  lemma FirstPiece(s: Bytes, separate: Bytes) returns (t: Bytes, run: Bytes, rest: Bytes)
    ensures s == t + run + rest
    ensures NoneOf(t, separate) && AllOf(run, separate)
    ensures run == [] <==> TokenLength(s, separate) == |s|
    ensures run == [] ==> rest == []
    ensures rest == [] || rest[0] !in separate
  {
    var n := TokenLength(s, separate);
    var r := RunLength(s[n..], separate);
    t, run, rest := s[..n], s[n..][..r], s[n..][r..];
    assert rest != [] ==> rest[0] == s[n..][r];
  }

  lemma SplitCons(t: Bytes, run: Bytes, tokens: seq<Bytes>, runs: seq<Bytes>, separate: Bytes)
    requires IsSplit(tokens, runs, separate)
    requires NoneOf(t, separate) && run != [] && AllOf(run, separate)
    requires |tokens| > 1 ==> tokens[0] != []
    ensures IsSplit([t] + tokens, [run] + runs, separate)
    ensures Join([t] + tokens, [run] + runs) == t + run + Join(tokens, runs)
  {
  }

  lemma FirstTokenOf(s: Bytes, separate: Bytes)
    requires s == [] || s[0] !in separate
    ensures |Tokens(s, separate)| > 1 ==> Tokens(s, separate)[0] != []
  {
  }

  /** And there is no other way to take it apart: a split of a string is its list of tokens. */
  lemma {:induction false} TokensOfJoin(tokens: seq<Bytes>, runs: seq<Bytes>, separate: Bytes)
    requires IsSplit(tokens, runs, separate)
    ensures Tokens(Join(tokens, runs), separate) == tokens
    decreases |runs|
  {
    if runs == [] {
      TokenLengthOf(tokens[0], [], separate);
      assert tokens[0] + [] == tokens[0] && tokens == [tokens[0]];
    } else {
      var rest := Join(tokens[1..], runs[1..]);
      TokensOfJoin(tokens[1..], runs[1..], separate);
      JoinStart(tokens[1..], runs[1..], separate);
      TokensStep(tokens[0], runs[0], rest, separate);
      assert tokens == [tokens[0]] + tokens[1..];
    }
  }

  lemma JoinStart(tokens: seq<Bytes>, runs: seq<Bytes>, separate: Bytes)
    requires |tokens| == |runs| + 1 && NoneOf(tokens[0], separate)
    requires runs != [] ==> tokens[0] != []
    ensures Join(tokens, runs) == [] || Join(tokens, runs)[0] !in separate
  {
  }

  function Concat(tokens: seq<Bytes>): Bytes {
    if tokens == [] then [] else tokens[0] + Concat(tokens[1..])
  }

  function Without(s: Bytes, separate: Bytes): Bytes {
    if s == [] then [] else (if s[0] in separate then [] else [s[0]]) + Without(s[1..], separate)
  }

  /** The number of maximal runs of separators, each counted at its last byte. */
  function RunCount(s: Bytes, separate: Bytes): nat {
    if s == [] then 0
    else (if s[0] in separate && (|s| == 1 || s[1] !in separate) then 1 else 0) + RunCount(s[1..], separate)
  }

  /** Byte by byte: the tokens hold everything but the separators, in order, and every maximal run of separators, also
      one at either end, parts two of them. */
  lemma {:induction false} TokensHoldTheRest(s: Bytes, separate: Bytes)
    ensures Concat(Tokens(s, separate)) == Without(s, separate)
    ensures |Tokens(s, separate)| == RunCount(s, separate) + 1
    decreases |s|
  {
    hide TokenLength, NoneOf, AllOf, Tokens, Without, RunCount;
    var t, run, rest := FirstPiece(s, separate);
    if run == [] {
      assert s == t;
      OneToken(t, separate);
    } else {
      TokensHoldTheRest(rest, separate);
      TokensStep(t, run, rest, separate);
      assert s == t + (run + rest);
      BehindToken(t, run + rest, separate);
      BehindRun(run, rest, separate);
      assert ([t] + Tokens(rest, separate))[1..] == Tokens(rest, separate);
    }
  }

  lemma OneToken(t: Bytes, separate: Bytes)
    requires NoneOf(t, separate)
    ensures Tokens(t, separate) == [t] && Concat([t]) == t
    ensures Without(t, separate) == t && RunCount(t, separate) == 0
  {
    assert t + [] == t;
    TokenLengthOf(t, [], separate);
    BehindToken(t, [], separate);
  }

  lemma {:induction false} BehindToken(t: Bytes, rest: Bytes, separate: Bytes)
    requires NoneOf(t, separate)
    ensures Without(t + rest, separate) == t + Without(rest, separate)
    ensures RunCount(t + rest, separate) == RunCount(rest, separate)
  {
    if t == [] {
      assert t + rest == rest;
    } else {
      BehindToken(t[1..], rest, separate);
      assert (t + rest)[1..] == t[1..] + rest;
    }
  }

  lemma {:induction false} BehindRun(run: Bytes, rest: Bytes, separate: Bytes)
    requires run != [] && AllOf(run, separate) && (rest == [] || rest[0] !in separate)
    ensures Without(run + rest, separate) == Without(rest, separate)
    ensures RunCount(run + rest, separate) == 1 + RunCount(rest, separate)
  {
    assert (run + rest)[1..] == run[1..] + rest;
    if |run| == 1 {
      assert run[1..] + rest == rest;
    } else {
      BehindRun(run[1..], rest, separate);
    }
  }

  // --- removing spaces ---

  /** `std::isspace` in the classic locale. */
  predicate IsSpace(b: byte) {
    9 <= b <= 13 || b == 32
  }

  function TrimFront(s: Bytes): Bytes {
    if s != [] && IsSpace(s[0]) then TrimFront(s[1..]) else s
  }

  function TrimBack(s: Bytes): Bytes {
    if s != [] && IsSpace(s[|s| - 1]) then TrimBack(s[..|s| - 1]) else s
  }

  /** `boost::trim` */
  function TrimSpaces(s: Bytes): Bytes {
    TrimBack(TrimFront(s))
  }

  predicate AllSpaces(s: Bytes) {
    forall k | 0 <= k < |s| :: IsSpace(s[k])
  }

  predicate StartsAndEndsVisible(s: Bytes) {
    s != [] ==> !IsSpace(s[0]) && !IsSpace(s[|s| - 1])
  }

  /** Trimming takes away the spaces around a text that starts and ends with something else. */
  lemma {:induction false} TrimSpacesExactly(front: Bytes, middle: Bytes, back: Bytes)
    requires AllSpaces(front) && AllSpaces(back) && StartsAndEndsVisible(middle)
    ensures TrimSpaces(front + middle + back) == middle
    decreases |front|, |back|
  {
    var s := front + middle + back;
    if front != [] {
      TrimSpacesExactly(front[1..], middle, back);
      assert s[1..] == front[1..] + middle + back;
    } else if middle == [] {
      assert s == back;
      TrimFrontOfSpaces(back);
    } else {
      assert s == middle + back && TrimFront(s) == s;
      TrimBackOf(middle, back);
    }
  }

  lemma TrimFrontOfSpaces(s: Bytes)
    requires AllSpaces(s)
    ensures TrimFront(s) == []
  {
  }

  lemma {:induction false} TrimBackOf(middle: Bytes, back: Bytes)
    requires AllSpaces(back) && middle != [] && !IsSpace(middle[|middle| - 1])
    ensures TrimBack(middle + back) == middle
  {
    if back == [] {
      assert middle + back == middle;
    } else {
      TrimBackOf(middle, back[..|back| - 1]);
      assert (middle + back)[..|middle + back| - 1] == middle + back[..|back| - 1];
    }
  }

  /** The tokens that are not empty after trimming, in order. */
  function Cleaned(tokens: seq<Bytes>): seq<Bytes> {
    if tokens == [] then []
    else
      var t, rest := TrimSpaces(tokens[0]), Cleaned(tokens[1..]);
      if t == [] then rest else [t] + rest
  }

  function NonEmpty(lines: seq<Bytes>): seq<Bytes> {
    if lines == [] then []
    else if lines[0] == [] then NonEmpty(lines[1..])
    else [lines[0]] + NonEmpty(lines[1..])
  }

  lemma {:induction false} CleanedInTwoSteps(tokens: seq<Bytes>, lines: seq<Bytes>)
    requires |lines| == |tokens| && forall k | 0 <= k < |lines| :: lines[k] == TrimSpaces(tokens[k])
    ensures NonEmpty(lines) == Cleaned(tokens)
  {
    if tokens != [] {
      CleanedInTwoSteps(tokens[1..], lines[1..]);
    }
  }

  /** `split_str` */
  method SplitStr(str: Bytes, separate: Bytes, removeSpace: bool) returns (result: seq<Bytes>)
    ensures result == if removeSpace then Cleaned(Tokens(str, separate)) else Tokens(str, separate)
  {
    result := Tokens(str, separate);
    if removeSpace {
      ghost var tokens := result;
      var k := 0;
      while k < |result|
        invariant k <= |result| == |tokens|
        invariant forall j | 0 <= j < k :: result[j] == TrimSpaces(tokens[j])
        invariant forall j | k <= j < |result| :: result[j] == tokens[j]
      {
        result := result[k := TrimSpaces(result[k])];
        k := k + 1;
      }
      CleanedInTwoSteps(tokens, result);
      result := EraseEmpty(result);
    }
  }

  /** `std::erase_if` with `std::empty`: the kept elements move to the front, the rest is cut off. */
  method EraseEmpty(lines: seq<Bytes>) returns (result: seq<Bytes>)
    ensures result == NonEmpty(lines)
  {
    result := lines;
    var keep, k := 0, 0;
    assert result[..0] + NonEmpty(lines[0..]) == NonEmpty(lines);
    while k < |lines|
      invariant keep <= k <= |lines| == |result|
      invariant result[k..] == lines[k..]
      invariant result[..keep] + NonEmpty(lines[k..]) == NonEmpty(lines)
    {
      assert lines[k..][1..] == lines[k + 1..] && result[k] == lines[k];
      ghost var kept := result[..keep];
      if result[k] != [] {
        result := result[keep := result[k]];
        assert result[..keep + 1] == kept + [lines[k]];
        keep := keep + 1;
      }
      k := k + 1;
    }
    result := result[..keep];
  }

  // --- what split_str promises with removal ---

  lemma {:induction false} CleanedAppend(a: seq<Bytes>, b: seq<Bytes>)
    ensures Cleaned(a + b) == Cleaned(a) + Cleaned(b)
  {
    hide TrimSpaces, Cleaned;
    CleanedStep(a);
    if a == [] {
      assert a + b == b;
    } else {
      CleanedAppend(a[1..], b);
      CleanedStep(a + b);
      assert (a + b)[1..] == a[1..] + b;
    }
  }

  lemma CleanedStep(tokens: seq<Bytes>)
    ensures Cleaned(tokens) ==
            if tokens == [] then []
            else (if TrimSpaces(tokens[0]) == [] then [] else [TrimSpaces(tokens[0])]) + Cleaned(tokens[1..])
  {
  }

  lemma {:induction false} NonEmptyAppend(a: seq<Bytes>, b: seq<Bytes>)
    ensures NonEmpty(a + b) == NonEmpty(a) + NonEmpty(b)
  {
    hide NonEmpty;
    NonEmptyStep(a);
    if a == [] {
      assert a + b == b;
    } else {
      NonEmptyAppend(a[1..], b);
      NonEmptyStep(a + b);
      assert (a + b)[1..] == a[1..] + b;
    }
  }

  lemma NonEmptyStep(lines: seq<Bytes>)
    ensures NonEmpty(lines) ==
            if lines == [] then [] else (if lines[0] == [] then [] else [lines[0]]) + NonEmpty(lines[1..])
  {
  }

  /** Tokens that are empty before trimming are empty after it. */
  lemma {:induction false} CleanedOfNonEmpty(tokens: seq<Bytes>)
    ensures Cleaned(NonEmpty(tokens)) == Cleaned(tokens)
  {
    if tokens != [] {
      CleanedOfNonEmpty(tokens[1..]);
    }
  }

  /** A separator run in front of a text changes nothing. */
  lemma NonEmptySkipsRun(s: Bytes, separate: Bytes)
    ensures NonEmpty(Tokens(s[RunLength(s, separate)..], separate)) == NonEmpty(Tokens(s, separate))
  {
  }

  /** Splitting two texts with separators between them is splitting each, empty tokens left aside. */
  lemma {:induction false} NonEmptyDistributes(a: Bytes, run: Bytes, b: Bytes, separate: Bytes)
    requires run != [] && AllOf(run, separate)
    ensures NonEmpty(Tokens(a + run + b, separate)) == NonEmpty(Tokens(a, separate)) + NonEmpty(Tokens(b, separate))
    decreases |a|
  {
    hide NonEmpty, Tokens, NoneOf, TokenLength, RunLength;
    var t, gap, rest := FirstPiece(a, separate);
    if rest == [] {
      DistributesBehindLast(t, gap, run, b, separate);
      assert a == t + gap;
    } else {
      assert a + run + b == t + gap + (rest + run + b);
      TokensStep(t, gap, rest + run + b, separate);
      TokensStep(t, gap, rest, separate);
      NonEmptyDistributes(rest, run, b, separate);
      NonEmptyAppend([t], Tokens(rest + run + b, separate));
      NonEmptyAppend([t], Tokens(rest, separate));
    }
  }

  lemma DistributesBehindLast(t: Bytes, gap: Bytes, run: Bytes, b: Bytes, separate: Bytes)
    requires NoneOf(t, separate) && AllOf(gap, separate) && run != [] && AllOf(run, separate)
    ensures NonEmpty(Tokens(t + gap + run + b, separate)) ==
            NonEmpty(Tokens(t + gap, separate)) + NonEmpty(Tokens(b, separate))
  {
    hide NonEmpty, Tokens, NoneOf;
    var skip := RunLength(b, separate);
    var all, rest := gap + run + b[..skip], b[skip..];
    assert t + gap + run + b == t + all + rest;
    TokensStep(t, all, rest, separate);
    NonEmptyAppend([t], Tokens(rest, separate));
    NonEmptySkipsRun(b, separate);
    NonEmptyOfLast(t, gap, separate);
  }

  lemma NonEmptyOfLast(t: Bytes, gap: Bytes, separate: Bytes)
    requires NoneOf(t, separate) && AllOf(gap, separate)
    ensures NonEmpty(Tokens(t + gap, separate)) == NonEmpty([t])
  {
    if gap == [] {
      assert t + gap == t && t + [] == t;
      TokenLengthOf(t, [], separate);
    } else {
      assert t + gap + [] == t + gap;
      TokensStep(t, gap, [], separate);
      NonEmptyAppend([t], [[]]);
    }
  }

  /** With spaces removed, splitting two texts with separators between them is splitting each: empty lines and
      repeated, leading or trailing separators leave no trace. */
  lemma SplitDistributes(a: Bytes, run: Bytes, b: Bytes, separate: Bytes)
    requires run != [] && AllOf(run, separate)
    ensures Cleaned(Tokens(a + run + b, separate)) == Cleaned(Tokens(a, separate)) + Cleaned(Tokens(b, separate))
  {
    hide Cleaned, NonEmpty, Tokens;
    var x, y := Tokens(a, separate), Tokens(b, separate);
    NonEmptyDistributes(a, run, b, separate);
    CleanedOfNonEmpty(Tokens(a + run + b, separate));
    CleanedOfNonEmpty(x);
    CleanedOfNonEmpty(y);
    CleanedAppend(NonEmpty(x), NonEmpty(y));
  }

  /** And a text without separators gives what is left when the spaces around it are gone, unless nothing is. */
  lemma SplitOfOne(front: Bytes, middle: Bytes, back: Bytes, separate: Bytes)
    requires forall b | b in front + middle + back :: b !in separate
    requires forall b | b in front + back :: b in [9, 10, 11, 12, 13, 32]
    requires middle != [] ==> middle[0] !in [9, 10, 11, 12, 13, 32] && middle[|middle| - 1] !in [9, 10, 11, 12, 13, 32]
    ensures Cleaned(Tokens(front + middle + back, separate)) == if middle == [] then [] else [middle]
  {
    hide TrimSpaces, Tokens;
    var s := front + middle + back;
    assert forall k | 0 <= k < |front| :: front[k] == s[k] && front[k] in front + back;
    assert forall k | 0 <= k < |back| :: back[k] in front + back;
    TrimSpacesExactly(front, middle, back);
    OneToken(s, separate);
  }
}
