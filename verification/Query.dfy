/** Printing and parsing of `key=value&key=value`: the form fields of src/http.cpp, and the query of `klib::URL` in
    src/url.cpp. */
module Query {
  import opened Prelude
  import opened PercentCoding
  import opened Split

  const AMPERSAND: byte := 0x26
  const EQUALS: byte := 0x3D

  type Pair = (Bytes, Bytes)

  // --- maps and the order a hash map is walked in ---

  /** `order` lists every key of the map once. */
  ghost predicate IsOrder(order: seq<Bytes>, data: map<Bytes, Bytes>) {
    && (forall i | 0 <= i < |order| :: order[i] in data)
    && (forall key | key in data :: key in order)
    && (forall i, j | 0 <= i < j < |order| :: order[i] != order[j])
  }

  function Entries(order: seq<Bytes>, data: map<Bytes, Bytes>): (r: seq<Pair>)
    requires forall i | 0 <= i < |order| :: order[i] in data
    ensures |r| == |order|
  {
    seq(|order|, i requires 0 <= i < |order| => (order[i], data[order[i]]))
  }

  /** `emplace` of the pairs in turn: the first one for a key stays. */
  function EmplaceAll(m: map<Bytes, Bytes>, pairs: seq<Pair>): map<Bytes, Bytes>
    decreases |pairs|
  {
    if pairs == [] then m
    else EmplaceAll(Emplace(m, pairs[0]), pairs[1..])
  }

  function Emplace(m: map<Bytes, Bytes>, p: Pair): map<Bytes, Bytes> {
    if p.0 in m then m else m[p.0 := p.1]
  }

  /** The position of the first pair for a key, or the length when there is none. */
  function FirstFor(pairs: seq<Pair>, key: Bytes): (n: nat)
    ensures n <= |pairs|
    ensures forall i | 0 <= i < n :: pairs[i].0 != key
    ensures n < |pairs| ==> pairs[n].0 == key
  {
    if pairs == [] || pairs[0].0 == key then 0 else 1 + FirstFor(pairs[1..], key)
  }

  /** What was there before stays, and otherwise the first pair for a key decides. */
  lemma {:induction false} EmplaceAllLookup(m: map<Bytes, Bytes>, pairs: seq<Pair>, key: Bytes)
    ensures var r, n := EmplaceAll(m, pairs), FirstFor(pairs, key);
            && (key in r <==> key in m || n < |pairs|)
            && (key in r ==> r[key] == if key in m then m[key] else pairs[n].1)
    decreases |pairs|
  {
    if pairs != [] {
      EmplaceAllLookup(Emplace(m, pairs[0]), pairs[1..], key);
    }
  }

  /** Emplacing the entries of a map in any order gives the map. */
  lemma EmplaceEntries(order: seq<Bytes>, data: map<Bytes, Bytes>)
    requires IsOrder(order, data)
    ensures EmplaceAll(map[], Entries(order, data)) == data
  {
    var pairs := Entries(order, data);
    var r := EmplaceAll(map[], pairs);
    forall key
      ensures key in r <==> key in data
      ensures key in data ==> r[key] == data[key]
    {
      EmplaceAllLookup(map[], pairs, key);
      if key in data {
        var i :| 0 <= i < |order| && order[i] == key;
        assert pairs[i].0 == key;
      }
    }
  }

  // --- joining ---

  function JoinAmp(parts: seq<Bytes>): Bytes {
    if parts == [] then []
    else if |parts| == 1 then parts[0]
    else parts[0] + [AMPERSAND] + JoinAmp(parts[1..])
  }

  /** Parts without an ampersand that are not empty come back as the tokens between the ampersands. */
  lemma {:induction false} TokensOfJoinAmp(parts: seq<Bytes>)
    requires parts != []
    requires forall i | 0 <= i < |parts| :: parts[i] != [] && AMPERSAND !in parts[i]
    ensures Tokens(JoinAmp(parts), [AMPERSAND]) == parts
  {
    if |parts| == 1 {
      TokenLengthOf(parts[0], [], [AMPERSAND]);
      assert parts[0] + [] == parts[0] && parts == [parts[0]];
    } else {
      var rest := JoinAmp(parts[1..]);
      TokensOfJoinAmp(parts[1..]);
      assert rest != [] && rest[0] == parts[1][0];
      TokensStep(parts[0], [AMPERSAND], rest, [AMPERSAND]);
      assert parts == [parts[0]] + parts[1..];
    }
  }

  // --- taking `key=value` apart ---

  /** `find('=')`: the first position, or the length when there is none. */
  function FindEquals(s: Bytes): (n: nat)
    ensures n <= |s|
    ensures EQUALS !in s[..n]
    ensures n < |s| ==> s[n] == EQUALS
  {
    if s == [] || s[0] == EQUALS then 0 else 1 + FindEquals(s[1..])
  }

  /** `substr(0, index)` and `substr(index + 1)`. Without an equals sign `index` is `npos`, so that the key is the whole
      item, and `npos + 1` is 0, so that the value is the whole item too. */
  function PairOf(item: Bytes): Pair {
    var index := FindEquals(item);
    if index == |item| then (item, item) else (item[..index], item[index + 1..])
  }

  /** An item that is key, equals sign and value, cut at its first equals sign; one without equals sign is both. */
  ghost predicate IsItem(item: Bytes, key: Bytes, value: Bytes) {
    if 0x3D in item then 0x3D !in key && item == key + [0x3D] + value else key == item && value == item
  }

  ghost predicate HasItemFor(items: seq<Bytes>, key: Bytes) {
    exists i, value | 0 <= i < |items| :: IsItem(items[i], key, value)
  }

  /** The first of the items for the key has this value. */
  ghost predicate IsFirstItem(items: seq<Bytes>, key: Bytes, value: Bytes) {
    exists i | 0 <= i < |items| && IsItem(items[i], key, value) ::
      forall j, other | 0 <= j < i :: !IsItem(items[j], key, other)
  }

  lemma PairOfExactly(item: Bytes, key: Bytes, value: Bytes)
    ensures PairOf(item) == (key, value) <==> IsItem(item, key, value)
  {
    hide FindEquals;
    var index := FindEquals(item);
    if index < |item| {
      assert item == item[..index] + [EQUALS] + item[index + 1..];
      if IsItem(item, key, value) {
        PairOfJoined(key, value);
      }
    } else {
      assert item[..index] == item;
    }
  }

  lemma PairOfJoined(key: Bytes, value: Bytes)
    requires EQUALS !in key
    ensures PairOf(key + [EQUALS] + value) == (key, value)
  {
    var item := key + [EQUALS] + value;
    FindEqualsAfter(key, [EQUALS] + value);
    assert item == key + ([EQUALS] + value);
    assert item[..|key|] == key && item[|key| + 1..] == value;
  }

  lemma FindEqualsAfter(key: Bytes, rest: Bytes)
    requires EQUALS !in key && rest != [] && rest[0] == EQUALS
    ensures FindEquals(key + rest) == |key|
  {
    var s := key + rest;
    if key == [] {
      assert s == rest;
    } else {
      assert key[0] in key && EQUALS !in key[1..];
      FindEqualsAfter(key[1..], rest);
      assert s[1..] == key[1..] + rest && s[0] == key[0];
    }
  }

  // --- the form fields of http.cpp ---

  function FieldPart(p: Pair): Bytes {
    UrlEncode(p.0) + [EQUALS] + UrlEncode(p.1)
  }

  function FieldParts(pairs: seq<Pair>): (r: seq<Bytes>)
    ensures |r| == |pairs|
  {
    seq(|pairs|, i requires 0 <= i < |pairs| => FieldPart(pairs[i]))
  }

  /** `Request::RequestImpl::splicing_post_fields`, for the order in which the hash map happens to be walked. */
  method SplicingPostFields(data: map<Bytes, Bytes>, order: seq<Bytes>) returns (result: Bytes)
    requires IsOrder(order, data)
    ensures result == JoinAmp(FieldParts(Entries(order, data)))
  {
    hide FieldPart, JoinAmp, Spliced;
    ghost var parts := FieldParts(Entries(order, data));
    result := [];
    SplicedEnds(parts[..0]);
    SplicedEnds(parts);
    var k := 0;
    while k < |order|
      invariant k <= |order|
      invariant result == Spliced(parts[..k])
    {
      result := result + FieldPart((order[k], data[order[k]])) + [AMPERSAND];
      assert parts[..k + 1] == parts[..k] + [parts[k]];
      SplicedSnoc(parts[..k], parts[k]);
      k := k + 1;
    }
    assert parts[..k] == parts;
    if result != [] && result[|result| - 1] == AMPERSAND {
      result := result[..|result| - 1];
    }
  }

  /** The text before the last ampersand is taken off. */
  function Spliced(parts: seq<Bytes>): Bytes {
    if parts == [] then [] else JoinAmp(parts) + [AMPERSAND]
  }

  lemma SplicedEnds(parts: seq<Bytes>)
    ensures var s := Spliced(parts);
            if s == [] then parts == [] && JoinAmp(parts) == []
            else s[|s| - 1] == AMPERSAND && s[..|s| - 1] == JoinAmp(parts)
    ensures parts == [] ==> Spliced(parts) == []
  {
  }

  lemma SplicedSnoc(parts: seq<Bytes>, last: Bytes)
    ensures Spliced(parts + [last]) == Spliced(parts) + last + [AMPERSAND]
  {
    JoinAmpSnoc(parts, last);
  }

  lemma {:induction false} JoinAmpSnoc(parts: seq<Bytes>, last: Bytes)
    ensures JoinAmp(parts + [last]) == if parts == [] then last else JoinAmp(parts) + [AMPERSAND] + last
  {
    if |parts| > 1 {
      JoinAmpSnoc(parts[1..], last);
      assert (parts + [last])[1..] == parts[1..] + [last];
      assert parts[0] + [AMPERSAND] + (JoinAmp(parts[1..]) + [AMPERSAND] + last) ==
             parts[0] + [AMPERSAND] + JoinAmp(parts[1..]) + [AMPERSAND] + last;
    } else if |parts| == 1 {
      assert (parts + [last])[1..] == [last];
    }
  }

  function Unescape(s: Bytes): Bytes {
    PercentDecode(PlusToSpace(s))
  }

  /** How the receiver of a form or of a query reads it: the parts between the ampersands, each cut at its first equals
      sign, and only then decoded. */
  function ReadForm(body: Bytes): map<Bytes, Bytes> {
    EmplaceAll(map[], FormPairs(NonEmpty(Tokens(body, [AMPERSAND]))))
  }

  function FormPairs(items: seq<Bytes>): (r: seq<Pair>)
    ensures |r| == |items|
  {
    seq(|items|, i requires 0 <= i < |items| =>
      (Unescape(PairOf(items[i]).0), Unescape(PairOf(items[i]).1)))
  }

  /** A form grows by one field: an ampersand between the fields, an equals sign in each. */
  lemma FormGrows(pairs: seq<Pair>, p: Pair)
    ensures JoinAmp(FieldParts(pairs + [p])) ==
            (if pairs == [] then [] else JoinAmp(FieldParts(pairs)) + [0x26])
            + UrlEncode(p.0) + [0x3D] + UrlEncode(p.1)
  {
    hide JoinAmp, UrlEncode;
    assert FieldParts(pairs + [p]) == FieldParts(pairs) + [FieldPart(p)];
    JoinAmpSnoc(FieldParts(pairs), FieldPart(p));
  }

  function CutAtNul(pairs: seq<Pair>): (r: seq<Pair>)
    ensures |r| == |pairs|
  {
    seq(|pairs|, i requires 0 <= i < |pairs| => (CString(pairs[i].0), CString(pairs[i].1)))
  }

  ghost predicate NulFree(data: map<Bytes, Bytes>) {
    forall key | key in data :: 0 !in key && 0 !in data[key]
  }

  lemma FieldPartFacts(p: Pair)
    ensures FieldPart(p) != [] && AMPERSAND !in FieldPart(p)
    ensures PairOf(FieldPart(p)) == (UrlEncode(p.0), UrlEncode(p.1))
    ensures Unescape(UrlEncode(p.0)) == CString(p.0) && Unescape(UrlEncode(p.1)) == CString(p.1)
  {
    hide PercentEncode, PercentDecode, CString, PairOf;
    var key, value := CString(p.0), CString(p.1);
    EncodedBytes(key);
    EncodedBytes(value);
    UnescapeEncoded(key);
    UnescapeEncoded(value);
    PairOfJoined(PercentEncode(key), PercentEncode(value));
  }

  lemma UnescapeEncoded(s: Bytes)
    ensures Unescape(PercentEncode(s)) == s
  {
    hide PercentDecode, PercentEncode;
    UrlEncodedDecodes(s, []);
    DecodeNothing();
    assert PercentEncode(s) + [] == PercentEncode(s) && s + [] == s;
  }

  lemma {:induction false} NonEmptyKeepsAll(items: seq<Bytes>)
    requires forall i | 0 <= i < |items| :: items[i] != []
    ensures NonEmpty(items) == items
  {
    if items != [] {
      NonEmptyKeepsAll(items[1..]);
    }
  }

  lemma ReadFormOfFields(pairs: seq<Pair>)
    ensures ReadForm(JoinAmp(FieldParts(pairs))) == EmplaceAll(map[], CutAtNul(pairs))
  {
    hide FieldPart, PairOf, CString, Unescape, EmplaceAll, Tokens, NonEmpty, JoinAmp;
    var parts := FieldParts(pairs);
    forall i | 0 <= i < |parts|
      ensures parts[i] != [] && AMPERSAND !in parts[i]
      ensures FormPairs(parts)[i] == CutAtNul(pairs)[i]
    {
      FieldPartFacts(pairs[i]);
    }
    if pairs == [] {
      NothingToRead();
    } else {
      TokensOfJoinAmp(parts);
      NonEmptyKeepsAll(parts);
    }
    assert FormPairs(parts) == CutAtNul(pairs);
  }

  lemma NothingToRead()
    ensures NonEmpty(Tokens(JoinAmp([]), [AMPERSAND])) == []
  {
  }

  /** The receiver of the form gets the map back, whatever the order of the fields, exactly when no key and no value
      holds a NUL byte. */
  lemma FormRoundTrip(data: map<Bytes, Bytes>, order: seq<Bytes>)
    requires IsOrder(order, data)
    ensures ReadForm(JoinAmp(FieldParts(Entries(order, data)))) == data <==> NulFree(data)
  {
    hide ReadForm, CString, EmplaceAll;
    var pairs := Entries(order, data);
    ReadFormOfFields(pairs);
    var r := EmplaceAll(map[], CutAtNul(pairs));
    if NulFree(data) {
      assert CutAtNul(pairs) == pairs;
      EmplaceEntries(order, data);
    }
    forall key | key in r
      ensures 0 !in key && 0 !in r[key]
    {
      EmplaceAllLookup(map[], CutAtNul(pairs), key);
    }
  }

  // --- the query of klib::URL ---

  /** One byte of a query as `curl_url_set` stores it with `CURLU_URLENCODE`: a space becomes a plus sign, and with
      `CURLU_APPENDQUERY` the first equals sign stays. */
  function QueryByte(b: byte, keepEquals: bool): Bytes {
    if b == SPACE then [PLUS]
    else if IsUnreserved(b) || (b == EQUALS && keepEquals) then [b]
    else Triplet(b, 0x61)
  }

  function EncodeQuery(s: Bytes, keepEquals: bool): Bytes {
    if s == [] then []
    else QueryByte(s[0], keepEquals) + EncodeQuery(s[1..], keepEquals && s[0] != EQUALS)
  }

  /** `curl_url_set(..., CURLUPART_QUERY, part, CURLU_APPENDQUERY | CURLU_URLENCODE)` */
  function AppendQuery(query: Option<Bytes>, part: Bytes): Option<Bytes> {
    var encoded := EncodeQuery(CString(part), true);
    match query
    case None => Some(encoded)
    case Some(present) =>
      if present == [] then Some(encoded)
      else if present[|present| - 1] == AMPERSAND then Some(present + encoded)
      else Some(present + [AMPERSAND] + encoded)
  }

  function AppendAll(query: Option<Bytes>, pairs: seq<Pair>): Option<Bytes>
    decreases |pairs|
  {
    if pairs == [] then query
    else AppendAll(AppendQuery(query, pairs[0].0 + [EQUALS] + pairs[0].1), pairs[1..])
  }

  function PlusToSpace(s: Bytes): (r: Bytes)
    ensures |r| == |s|
  {
    seq(|s|, i requires 0 <= i < |s| => if s[i] == PLUS then SPACE else s[i])
  }

  /** The query as `curl_url_get` returns it with `CURLU_URLDECODE`, where control characters are an error. */
  function DecodeQuery(query: Bytes): Result<Bytes> {
    var decoded := PercentDecode(PlusToSpace(query));
    if exists i | 0 <= i < |decoded| :: decoded[i] < 0x20 then RuntimeError else Ok(decoded)
  }

  function QueryPairs(items: seq<Bytes>): (r: seq<Pair>)
    ensures |r| == |items|
  {
    seq(|items|, i requires 0 <= i < |items| => PairOf(items[i]))
  }

  /** The map that the constructor of `URL` makes of the query in the URL, if there is one. */
  function ParsedQuery(query: Option<Bytes>): Result<map<Bytes, Bytes>> {
    match query
    case None => Ok(map[])
    case Some(q) =>
      match DecodeQuery(q)
      case RuntimeError => RuntimeError
      case Ok(text) => Ok(EmplaceAll(map[], QueryPairs(Tokens(text, [AMPERSAND]))))
  }

  /** `klib::URL`, the part that concerns the query. */
  class Url {
    var query: map<Bytes, Bytes>

    constructor ()
      ensures query == map[]
    {
      query := map[];
    }

    /** The query part of the constructor from a string. */
    method ParseQuery(raw: Option<Bytes>) returns (r: Result<()>)
      requires query == map[]
      modifies this
      ensures match ParsedQuery(raw)
              case Ok(m) => r == Ok(()) && query == m
              case RuntimeError => r == RuntimeError && query == map[]
    {
      hide PairOf, DecodeQuery;
      if raw == None {
        return Ok(());
      }
      var text := DecodeQuery(raw.value);
      if text == RuntimeError {
        return RuntimeError;
      }
      var items := Tokens(text.value, [AMPERSAND]);
      ghost var pairs := QueryPairs(items);
      var k := 0;
      assert pairs[0..] == pairs;
      while k < |items|
        invariant k <= |items|
        invariant EmplaceAll(query, pairs[k..]) == EmplaceAll(map[], pairs)
      {
        assert pairs[k..][1..] == pairs[k + 1..];
        query := Emplace(query, PairOf(items[k]));
        k := k + 1;
      }
      return Ok(());
    }

    /** The query part of `to_string`, for the order in which the hash map is walked. */
    method BuildQuery(order: seq<Bytes>) returns (handle: Option<Bytes>)
      requires IsOrder(order, query)
      ensures handle == AppendAll(None, Entries(order, query))
    {
      hide AppendQuery;
      ghost var pairs := Entries(order, query);
      handle := None;
      var k := 0;
      assert pairs[0..] == pairs;
      while k < |order|
        invariant k <= |order|
        invariant AppendAll(handle, pairs[k..]) == AppendAll(None, pairs)
      {
        assert pairs[k..][1..] == pairs[k + 1..];
        handle := AppendQuery(handle, order[k] + [EQUALS] + query[order[k]]);
        k := k + 1;
      }
    }
  }

  // --- when a query survives printing and parsing ---

  /** What no key and no value of a query may contain. */
  predicate CleanKey(key: Bytes) {
    AMPERSAND !in key && EQUALS !in key && forall i | 0 <= i < |key| :: key[i] >= 0x20
  }

  predicate CleanValue(value: Bytes) {
    AMPERSAND !in value && forall i | 0 <= i < |value| :: value[i] >= 0x20
  }

  ghost predicate Clean(data: map<Bytes, Bytes>) {
    forall key | key in data :: CleanKey(key) && CleanValue(data[key])
  }

  lemma {:induction false} TokensOfSame(s: Bytes, separate: Bytes, k: nat)
    requires k < |Tokens(s, separate)|
    ensures forall i | 0 <= i < |Tokens(s, separate)[k]| :: Tokens(s, separate)[k][i] in s
    ensures NoneOf(Tokens(s, separate)[k], separate)
    decreases |s|
  {
    var n := TokenLength(s, separate);
    if n < |s| && k > 0 {
      var rest := s[n + RunLength(s[n..], separate)..];
      TokensOfSame(rest, separate, k - 1);
      assert Tokens(s, separate)[k] == Tokens(rest, separate)[k - 1];
    }
  }

  /** The map of items holds the keys of all of them, each with the value of its first item. */
  lemma EmplacedItems(items: seq<Bytes>, key: Bytes, value: Bytes)
    ensures var m := EmplaceAll(map[], QueryPairs(items));
            && (key in m <==> HasItemFor(items, key))
            && (key in m && m[key] == value <==> IsFirstItem(items, key, value))
  {
    hide PairOf, EmplaceAll, IsItem;
    var m, pairs := EmplaceAll(map[], QueryPairs(items)), QueryPairs(items);
    EmplaceAllLookup(map[], pairs, key);
    forall i, v | 0 <= i < |items|
      ensures IsItem(items[i], key, v) <==> pairs[i].0 == key && pairs[i].1 == v
    {
      PairOfExactly(items[i], key, v);
    }
    var n := FirstFor(pairs, key);
    if n < |pairs| {
      assert IsItem(items[n], key, pairs[n].1);
      assert forall j, v | 0 <= j < n :: !IsItem(items[j], key, v);
    }
    forall i | 0 <= i < |items| && IsItem(items[i], key, value) && forall j, v | 0 <= j < i :: !IsItem(items[j], key, v)
      ensures n == i
    {
    }
  }

  /** What the constructor of `URL` makes of a query, where `spaced` is the query with spaces for plus signs: it throws
      exactly when the decoded text holds a control character; otherwise the map has exactly the keys of the items
      between the ampersands, each with the value of its first item. */
  lemma ParsedExactly(q: Bytes, spaced: Bytes, key: Bytes, value: Bytes)
    requires |spaced| == |q| && forall i | 0 <= i < |q| :: spaced[i] == if q[i] == 0x2B then 0x20 else q[i]
    ensures var text, r := PercentDecode(spaced), ParsedQuery(Some(q));
            var items := Tokens(text, [0x26]);
            && (r.Ok? <==> forall b | b in text :: b >= 0x20)
            && (r.Ok? ==>
                  && (key in r.value <==> HasItemFor(items, key))
                  && (key in r.value && r.value[key] == value <==> IsFirstItem(items, key, value)))
  {
    hide DecodeQuery, Tokens, PercentDecode, EmplaceAll, QueryPairs, HasItemFor, IsFirstItem;
    assert spaced == PlusToSpace(q);
    DecodeQueryExactly(q);
    EmplacedItems(Tokens(PercentDecode(spaced), [0x26]), key, value);
  }

  lemma DecodeQueryExactly(q: Bytes)
    ensures var text := PercentDecode(PlusToSpace(q));
            DecodeQuery(q) == if forall b | b in text :: b >= 0x20 then Ok(text) else RuntimeError
  {
    hide PercentDecode, PlusToSpace;
    var text := PercentDecode(PlusToSpace(q));
    assert forall k | 0 <= k < |text| :: text[k] in text;
  }

  /** A query that is one word is its own key and value. */
  lemma WordAsQuery(word: Bytes)
    requires word != []
    requires forall b | b in word ::
               || 'A' <= b as char <= 'Z' || 'a' <= b as char <= 'z' || '0' <= b as char <= '9'
               || b as char in "-._~"
    ensures ParsedQuery(Some(word)) == Ok(map[word := word])
  {
    hide PercentDecode, PercentEncode, Tokens, PairOf, PlusToSpace, CString, DecodeQuery, EmplaceAll, NoneOf;
    DecodeQueryExactly(word);
    PlainWord(word);
    PairOfExactly(word, word, word);
    assert QueryPairs([word]) == [(word, word)];
    SingleEntry(word, word);
  }

  lemma PlainWord(word: Bytes)
    requires forall b | b in word ::
               || 'A' <= b as char <= 'Z' || 'a' <= b as char <= 'z' || '0' <= b as char <= '9'
               || b as char in "-._~"
    ensures PercentDecode(PlusToSpace(word)) == word
    ensures Tokens(word, [AMPERSAND]) == [word]
    ensures EQUALS !in word && forall b | b in word :: b >= 0x20
  {
    hide PercentDecode, PercentEncode, Tokens, PlusToSpace, CString;
    forall b | b in word
      ensures b >= 0x20 && b != AMPERSAND && b != EQUALS
    {
      UnreservedByte(b);
    }
    assert forall k | 0 <= k < |word| :: word[k] in word;
    UnreservedStays(word);
    UnescapeEncoded(CString(word));
    OneToken(word, [AMPERSAND]);
  }

  lemma SingleEntry(key: Bytes, value: Bytes)
    ensures EmplaceAll(map[], [(key, value)]) == map[key := value]
  {
  }

  /** Whatever text is parsed, the resulting map is clean. */
  lemma ParsedIsClean(query: Option<Bytes>)
    ensures ParsedQuery(query).Ok? ==> Clean(ParsedQuery(query).value)
  {
    if query.Some? && DecodeQuery(query.value).Ok? {
      hide Tokens, PercentDecode;
      var text := DecodeQuery(query.value).value;
      var items := Tokens(text, [AMPERSAND]);
      var m := ParsedQuery(query).value;
      forall key | key in m
        ensures CleanKey(key) && CleanValue(m[key])
      {
        EmplaceAllLookup(map[], QueryPairs(items), key);
        var i := FirstFor(QueryPairs(items), key);
        TokensOfSame(text, [AMPERSAND], i);
        CleanPair(items[i], text);
      }
    }
  }

  lemma CleanPair(item: Bytes, text: Bytes)
    requires NoneOf(item, [AMPERSAND])
    requires forall i | 0 <= i < |item| :: item[i] in text
    requires forall i | 0 <= i < |text| :: text[i] >= 0x20
    ensures CleanKey(PairOf(item).0) && CleanValue(PairOf(item).1)
  {
  }

  function Raw(pairs: seq<Pair>): (r: seq<Bytes>)
    ensures |r| == |pairs|
  {
    seq(|pairs|, i requires 0 <= i < |pairs| => pairs[i].0 + [EQUALS] + pairs[i].1)
  }

  /** `encoded` stands for `raw` wherever it occurs in a query. */
  ghost predicate DecodesTo(encoded: Bytes, raw: Bytes) {
    forall rest :: PercentDecode(PlusToSpace(encoded + rest)) == raw + PercentDecode(PlusToSpace(rest))
  }

  lemma {:induction false} DecodeJoined(encoded: seq<Bytes>, raw: seq<Bytes>)
    requires |encoded| == |raw| && forall i | 0 <= i < |raw| :: DecodesTo(encoded[i], raw[i])
    ensures PercentDecode(PlusToSpace(JoinAmp(encoded))) == JoinAmp(raw)
  {
    if |raw| == 1 {
      assert encoded[0] + [] == encoded[0];
      assert PercentDecode(PlusToSpace(encoded[0] + [])) == raw[0] + PercentDecode(PlusToSpace([]));
    } else if |raw| > 1 {
      var rest, text := JoinAmp(encoded[1..]), JoinAmp(raw[1..]);
      DecodeJoined(encoded[1..], raw[1..]);
      assert encoded[0] + [AMPERSAND] + rest == encoded[0] + ([AMPERSAND] + rest);
      assert PlusToSpace([AMPERSAND] + rest) == [AMPERSAND] + PlusToSpace(rest);
      DecodeLiteral(AMPERSAND, PlusToSpace(rest));
      assert raw[0] + ([AMPERSAND] + text) == raw[0] + [AMPERSAND] + text;
    }
  }

  /** Joined clean pairs parse to the map they come from. */
  lemma ParseJoined(encoded: seq<Bytes>, data: map<Bytes, Bytes>, order: seq<Bytes>)
    requires IsOrder(order, data) && order != [] && Clean(data)
    requires |encoded| == |order|
    requires forall i | 0 <= i < |order| :: DecodesTo(encoded[i], Raw(Entries(order, data))[i])
    ensures ParsedQuery(Some(JoinAmp(encoded))) == Ok(data)
  {
    hide DecodesTo, PercentDecode, PairOf, Tokens, EmplaceAll, JoinAmp;
    var pairs := Entries(order, data);
    var raw := Raw(pairs);
    DecodeJoined(encoded, raw);
    forall i | 0 <= i < |raw|
      ensures raw[i] != [] && AMPERSAND !in raw[i]
      ensures forall j | 0 <= j < |raw[i]| :: raw[i][j] >= 0x20
      ensures PairOf(raw[i]) == pairs[i]
    {
      assert CleanKey(order[i]) && CleanValue(data[order[i]]);
      PairOfJoined(order[i], data[order[i]]);
    }
    JoinAmpBytes(raw);
    TokensOfJoinAmp(raw);
    assert QueryPairs(raw) == pairs;
    EmplaceEntries(order, data);
  }

  lemma {:induction false} JoinAmpBytes(parts: seq<Bytes>)
    requires forall i, j | 0 <= i < |parts| && 0 <= j < |parts[i]| :: parts[i][j] >= 0x20
    ensures forall j | 0 <= j < |JoinAmp(parts)| :: JoinAmp(parts)[j] >= 0x20
  {
    if |parts| > 1 {
      JoinAmpBytes(parts[1..]);
    }
  }

  // --- the two encodings ---

  lemma {:induction false} EncodedQueryDecodes(s: Bytes, keepEquals: bool, rest: Bytes)
    ensures PercentDecode(PlusToSpace(EncodeQuery(s, keepEquals) + rest)) == s + PercentDecode(PlusToSpace(rest))
    decreases |s|
  {
    hide PercentDecode, QueryByte, PlusToSpace;
    var d := PercentDecode(PlusToSpace(rest));
    if s == [] {
      assert EncodeQuery(s, keepEquals) + rest == rest && s + d == d;
    } else {
      var a, e := QueryByte(s[0], keepEquals), EncodeQuery(s[1..], keepEquals && s[0] != EQUALS);
      assert EncodeQuery(s, keepEquals) + rest == a + (e + rest);
      QueryByteDecodes(s[0], keepEquals, e + rest);
      EncodedQueryDecodes(s[1..], keepEquals && s[0] != EQUALS, rest);
      assert [s[0]] + (s[1..] + d) == s + d;
    }
  }

  lemma QueryByteDecodes(b: byte, keepEquals: bool, rest: Bytes)
    ensures PercentDecode(PlusToSpace(QueryByte(b, keepEquals) + rest)) == [b] + PercentDecode(PlusToSpace(rest))
  {
    hide PercentDecode;
    var a := QueryByte(b, keepEquals);
    if |a| == 1 {
      assert PlusToSpace(a + rest) == [b] + PlusToSpace(rest);
      DecodeLiteral(b, PlusToSpace(rest));
    } else {
      assert PlusToSpace(a + rest) == a + PlusToSpace(rest);
      DecodeTriplet(b, 0x61, PlusToSpace(rest));
    }
  }

  lemma UrlEncodedDecodes(s: Bytes, rest: Bytes)
    ensures PercentDecode(PlusToSpace(PercentEncode(s) + rest)) == s + PercentDecode(PlusToSpace(rest))
  {
    hide PercentDecode, PercentEncode;
    EncodedBytes(s);
    assert PlusToSpace(PercentEncode(s) + rest) == PercentEncode(s) + PlusToSpace(rest);
    DecodeEncoded(s, PlusToSpace(rest));
  }

  lemma FieldPartDecodes(p: Pair)
    requires CString(p.0) == p.0 && CString(p.1) == p.1
    ensures DecodesTo(FieldPart(p), p.0 + [EQUALS] + p.1)
  {
    hide PercentDecode, PercentEncode, PlusToSpace;
    forall rest
      ensures PercentDecode(PlusToSpace(FieldPart(p) + rest)) ==
              p.0 + [EQUALS] + p.1 + PercentDecode(PlusToSpace(rest))
    {
      var a, b, d := PercentEncode(p.0), PercentEncode(p.1), PercentDecode(PlusToSpace(rest));
      assert FieldPart(p) + rest == a + ([EQUALS] + (b + rest));
      UrlEncodedDecodes(p.0, [EQUALS] + (b + rest));
      EqualsDecodes(b + rest);
      UrlEncodedDecodes(p.1, rest);
      assert p.0 + ([EQUALS] + (p.1 + d)) == p.0 + [EQUALS] + p.1 + d;
    }
  }

  lemma EqualsDecodes(rest: Bytes)
    ensures PercentDecode(PlusToSpace([EQUALS] + rest)) == [EQUALS] + PercentDecode(PlusToSpace(rest))
  {
    assert PlusToSpace([EQUALS] + rest) == [EQUALS] + PlusToSpace(rest);
    DecodeLiteral(EQUALS, PlusToSpace(rest));
  }

  // --- what appending builds ---

  function Encoded(pairs: seq<Pair>): (r: seq<Bytes>)
    ensures |r| == |pairs|
  {
    seq(|pairs|, i requires 0 <= i < |pairs| => EncodeQuery(pairs[i].0 + [EQUALS] + pairs[i].1, true))
  }

  lemma {:induction false} EncodedQueryBytes(s: Bytes, keepEquals: bool)
    ensures AMPERSAND !in EncodeQuery(s, keepEquals)
    ensures s != [] ==> EncodeQuery(s, keepEquals) != []
    decreases |s|
  {
    if s != [] {
      EncodedQueryBytes(s[1..], keepEquals && s[0] != EQUALS);
      QueryByteBytes(s[0], keepEquals);
    }
  }

  lemma QueryByteBytes(b: byte, keepEquals: bool)
    ensures AMPERSAND !in QueryByte(b, keepEquals) && QueryByte(b, keepEquals) != []
  {
  }

  lemma {:induction false} AppendAllJoins(done: seq<Bytes>, pairs: seq<Pair>)
    requires forall i | 0 <= i < |done| :: done[i] != [] && AMPERSAND !in done[i]
    requires forall i | 0 <= i < |pairs| :: 0 !in pairs[i].0 && 0 !in pairs[i].1
    ensures AppendAll(if done == [] then None else Some(JoinAmp(done)), pairs) ==
            if done + Encoded(pairs) == [] then None else Some(JoinAmp(done + Encoded(pairs)))
    decreases |pairs|
  {
    hide EncodeQuery, JoinAmp;
    if pairs == [] {
      assert done + Encoded(pairs) == done;
    } else {
      var query := if done == [] then None else Some(JoinAmp(done));
      var next := Encoded(pairs)[0];
      AppendOne(done, pairs[0]);
      AppendAllJoins(done + [next], pairs[1..]);
      assert Encoded(pairs)[1..] == Encoded(pairs[1..]);
      assert done + [next] + Encoded(pairs[1..]) == done + Encoded(pairs);
    }
  }

  lemma AppendOne(done: seq<Bytes>, p: Pair)
    requires forall i | 0 <= i < |done| :: done[i] != [] && AMPERSAND !in done[i]
    requires 0 !in p.0 && 0 !in p.1
    ensures var part := p.0 + [EQUALS] + p.1;
            var next := EncodeQuery(part, true);
            && next != [] && AMPERSAND !in next
            && AppendQuery(if done == [] then None else Some(JoinAmp(done)), part) == Some(JoinAmp(done + [next]))
  {
    hide EncodeQuery;
    var part := p.0 + [EQUALS] + p.1;
    assert CString(part) == part;
    EncodedQueryBytes(part, true);
    JoinAmpSnoc(done, EncodeQuery(part, true));
    JoinAmpLast(done);
  }

  lemma {:induction false} JoinAmpLast(parts: seq<Bytes>)
    requires forall i | 0 <= i < |parts| :: parts[i] != [] && AMPERSAND !in parts[i]
    ensures parts != [] ==> JoinAmp(parts) != [] && JoinAmp(parts)[|JoinAmp(parts)| - 1] != AMPERSAND
  {
    if |parts| > 1 {
      JoinAmpLast(parts[1..]);
    }
  }

  // --- the printed query byte by byte ---

  lemma {:induction false} EncodeQueryAppend(a: Bytes, b: Bytes, keepEquals: bool)
    ensures EncodeQuery(a + b, keepEquals) ==
            EncodeQuery(a, keepEquals) + EncodeQuery(b, keepEquals && EQUALS !in a)
    decreases |a|
  {
    hide QueryByte, EncodeQuery;
    EncodeQueryStep(a, keepEquals);
    if a == [] {
      assert a + b == b;
    } else {
      var s, rest, keep := a + b, a[1..], keepEquals && a[0] != EQUALS;
      assert (keepEquals && EQUALS !in a) == (keep && EQUALS !in rest) by {
        assert a == [a[0]] + rest;
      }
      EncodeQueryAppend(rest, b, keep);
      EncodeQueryStep(s, keepEquals);
      assert s[1..] == rest + b && s[0] == a[0];
    }
  }

  lemma EncodeQueryStep(s: Bytes, keepEquals: bool)
    ensures EncodeQuery(s, keepEquals) ==
            if s == [] then [] else QueryByte(s[0], keepEquals) + EncodeQuery(s[1..], keepEquals && s[0] != EQUALS)
  {
  }

  /** Without an equals sign to keep, nothing depends on whether one would be kept. */
  lemma EncodeQueryPlain(s: Bytes)
    requires EQUALS !in s
    ensures EncodeQuery(s, true) == EncodeQuery(s, false)
  {
    if s != [] {
      assert s[0] in s && EQUALS !in s[1..];
      EncodeQueryPlain(s[1..]);
    }
  }

  /** The printed key or value is put together byte by byte: a space becomes a plus sign, and what is no letter, digit
      or one of four marks becomes a percent sign and two lower-case hexadecimal digits, an equals sign too. */
  lemma PrintedByteByByte(before: Bytes, b: byte, after: Bytes)
    ensures EncodeQuery([], false) == []
    ensures var plain := || 'A' <= b as char <= 'Z' || 'a' <= b as char <= 'z' || '0' <= b as char <= '9'
                         || b as char in "-._~";
            var digits := "0123456789abcdef";
            EncodeQuery(before + [b] + after, false) ==
            EncodeQuery(before, false)
            + (if b == 0x20 then [0x2B] else if plain then [b]
               else [0x25, digits[b / 16] as byte, digits[b % 16] as byte])
            + EncodeQuery(after, false)
  {
    hide EncodeQuery;
    EncodeQueryAppend(before + [b], after, false);
    EncodeQueryAppend(before, [b], false);
    EncodeQueryStep([b], false);
    EncodeQueryStep([], false);
    assert [b][1..] == [];
    UnreservedByte(b);
    HexDigits(b);
  }

  /** Letters, digits and the four marks are printed as they are. */
  lemma {:induction false} PlainPrinted(s: Bytes)
    requires forall b | b in s ::
               || 'A' <= b as char <= 'Z' || 'a' <= b as char <= 'z' || '0' <= b as char <= '9'
               || b as char in "-._~"
    ensures EncodeQuery(s, false) == s
  {
    if s != [] {
      assert s[0] in s;
      assert forall b | b in s[1..] :: b in s;
      PlainPrinted(s[1..]);
      UnreservedByte(s[0]);
    }
  }

  /** The printed query grows by one entry: an ampersand between the entries, an equals sign in each. */
  lemma QueryGrows(pairs: seq<Pair>, p: Pair)
    requires forall i | 0 <= i < |pairs| :: 0 !in pairs[i].0 && 0 !in pairs[i].1
    requires 0 !in p.0 && 0 !in p.1 && 0x3D !in p.0
    ensures pairs != [] ==> AppendAll(None, pairs).Some?
    ensures AppendAll(None, pairs + [p]) ==
            Some((if pairs == [] then [] else AppendAll(None, pairs).value + [0x26])
                 + EncodeQuery(p.0, false) + [0x3D] + EncodeQuery(p.1, false))
  {
    hide EncodeQuery, JoinAmp, AppendAll;
    AppendAllJoins([], pairs);
    AppendAllJoins([], pairs + [p]);
    PrintedEntry(p.0, p.1);
    var part := EncodeQuery(p.0 + [EQUALS] + p.1, true);
    assert [] + Encoded(pairs) == Encoded(pairs);
    assert [] + Encoded(pairs + [p]) == Encoded(pairs) + [part];
    JoinAmpSnoc(Encoded(pairs), part);
    var front := if pairs == [] then [] else JoinAmp(Encoded(pairs)) + [AMPERSAND];
    assert JoinAmp(Encoded(pairs) + [part]) == front + part;
    assert AppendAll(None, pairs + [p]) == Some(JoinAmp(Encoded(pairs) + [part]));
    EntryBehind(front, EncodeQuery(p.0, false), EncodeQuery(p.1, false));
  }

  lemma EntryBehind(front: Bytes, key: Bytes, value: Bytes)
    ensures front + (key + [EQUALS] + value) == front + key + [EQUALS] + value
  {
  }

  lemma PrintedEntry(key: Bytes, value: Bytes)
    requires EQUALS !in key
    ensures EncodeQuery(key + [EQUALS] + value, true) == EncodeQuery(key, false) + [EQUALS] + EncodeQuery(value, false)
  {
    hide EncodeQuery;
    EncodeQueryAppend(key + [EQUALS], value, true);
    EncodeQueryAppend(key, [EQUALS], true);
    EncodeQueryPlain(key);
    EncodeQueryStep([EQUALS], true);
    EncodeQueryStep([], false);
  }

  lemma PlainEntry(key: Bytes, value: Bytes)
    requires forall b | b in key + value ::
               || 'A' <= b as char <= 'Z' || 'a' <= b as char <= 'z' || '0' <= b as char <= '9'
               || b as char in "-._~"
    ensures AppendAll(None, [(key, value)]) == Some(key + [0x3D] + value)
  {
    hide EncodeQuery;
    assert forall b | b in key || b in value :: b in key + value;
    QueryGrows([], (key, value));
    PlainPrinted(key);
    PlainPrinted(value);
    assert [] + [(key, value)] == [(key, value)] && [] + key == key;
  }

  // --- the printed query at its receiver ---

  /** What stands in the URL; no query reads like an empty one. */
  function QueryText(query: Option<Bytes>): Bytes {
    match query case None => [] case Some(q) => q
  }

  /** The items as they are printed, each cut at its first NUL byte. */
  function Printed(pairs: seq<Pair>): (r: seq<Bytes>)
    ensures |r| == |pairs|
  {
    seq(|pairs|, i requires 0 <= i < |pairs| => CString(pairs[i].0 + [EQUALS] + pairs[i].1))
  }

  function Items(query: Option<Bytes>): seq<Bytes> {
    NonEmpty(Tokens(QueryText(query), [AMPERSAND]))
  }

  function EncodedItems(texts: seq<Bytes>): (r: seq<Bytes>)
    ensures |r| == |texts|
  {
    seq(|texts|, i requires 0 <= i < |texts| => EncodeQuery(texts[i], true))
  }

  /** Appending adds one item, if it is not empty. */
  lemma ItemsOfAppend(query: Option<Bytes>, part: Bytes)
    ensures Items(AppendQuery(query, part)) == Items(query) + NonEmpty([EncodeQuery(CString(part), true)])
  {
    hide EncodeQuery, CString, Tokens, NonEmpty, NoneOf, AllOf;
    var encoded := EncodeQuery(CString(part), true);
    EncodedQueryBytes(CString(part), true);
    OneItem(encoded);
    var present := QueryText(query);
    if present == [] {
      NothingToRead();
      assert Items(query) == [];
    } else if present[|present| - 1] == AMPERSAND {
      ItemsBehindAmpersand(present, encoded);
    } else {
      NonEmptyDistributes(present, [AMPERSAND], encoded, [AMPERSAND]);
    }
  }

  lemma OneItem(item: Bytes)
    requires AMPERSAND !in item
    ensures Tokens(item, [AMPERSAND]) == [item]
    ensures AllOf([AMPERSAND], [AMPERSAND])
  {
    OneToken(item, [AMPERSAND]);
  }

  lemma ItemsBehindAmpersand(present: Bytes, encoded: Bytes)
    requires present != [] && present[|present| - 1] == AMPERSAND
    ensures NonEmpty(Tokens(present + encoded, [AMPERSAND])) ==
            NonEmpty(Tokens(present, [AMPERSAND])) + NonEmpty(Tokens(encoded, [AMPERSAND]))
  {
    hide Tokens, NonEmpty;
    NothingToRead();
    var shorter := present[..|present| - 1];
    assert present == shorter + [AMPERSAND] + [];
    assert present + encoded == shorter + [AMPERSAND] + encoded;
    NonEmptyDistributes(shorter, [AMPERSAND], [], [AMPERSAND]);
    NonEmptyDistributes(shorter, [AMPERSAND], encoded, [AMPERSAND]);
  }

  lemma {:induction false} ItemsOfAppendAll(query: Option<Bytes>, pairs: seq<Pair>)
    ensures Items(AppendAll(query, pairs)) == Items(query) + NonEmpty(EncodedItems(Printed(pairs)))
    decreases |pairs|
  {
    hide EncodeQuery, CString, Items, AppendQuery, NonEmpty;
    if pairs == [] {
      assert EncodedItems(Printed(pairs)) == [];
      NonEmptyOfNothing();
    } else {
      var part := pairs[0].0 + [EQUALS] + pairs[0].1;
      var next := AppendQuery(query, part);
      var first := [EncodeQuery(CString(part), true)];
      ItemsOfAppendAll(next, pairs[1..]);
      ItemsOfAppend(query, part);
      assert EncodedItems(Printed(pairs)) == first + EncodedItems(Printed(pairs[1..]));
      NonEmptyAppend(first, EncodedItems(Printed(pairs[1..])));
    }
  }

  lemma NonEmptyOfNothing()
    ensures NonEmpty([]) == []
  {
  }

  /** An encoded item is empty only when the item is. */
  lemma {:induction false} NonEmptyEncoded(texts: seq<Bytes>)
    ensures NonEmpty(EncodedItems(texts)) == EncodedItems(NonEmpty(texts))
  {
    hide EncodeQuery;
    if texts != [] {
      NonEmptyEncoded(texts[1..]);
      EncodedQueryBytes(texts[0], true);
      EncodeQueryStep(texts[0], true);
      assert EncodedItems(texts)[1..] == EncodedItems(texts[1..]);
      if texts[0] != [] {
        assert EncodedItems([texts[0]] + NonEmpty(texts[1..])) ==
               [EncodeQuery(texts[0], true)] + EncodedItems(NonEmpty(texts[1..]));
      }
    }
  }

  lemma UnescapePrinted(s: Bytes)
    ensures Unescape(EncodeQuery(s, false)) == s
    ensures EQUALS !in EncodeQuery(s, false)
  {
    hide PercentDecode, EncodeQuery;
    EncodedQueryDecodes(s, false, []);
    DecodeNothing();
    assert EncodeQuery(s, false) + [] == EncodeQuery(s, false) && s + [] == s;
    NoEqualsPrinted(s);
  }

  lemma {:induction false} NoEqualsPrinted(s: Bytes)
    ensures EQUALS !in EncodeQuery(s, false)
  {
    if s != [] {
      NoEqualsPrinted(s[1..]);
      EncodedEquals(s[0]);
    }
  }

  lemma EncodedEquals(b: byte)
    ensures EQUALS !in QueryByte(b, false)
  {
  }

  /** Cutting a printed item and decoding the parts is cutting the item. */
  lemma PairOfPrinted(x: Bytes)
    ensures var p := PairOf(EncodeQuery(x, true));
            (Unescape(p.0), Unescape(p.1)) == PairOf(x)
  {
    hide EncodeQuery, Unescape;
    var (key, value) := PairOf(x);
    PairOfExactly(x, key, value);
    UnescapePrinted(key);
    UnescapePrinted(value);
    if EQUALS in x {
      PrintedEntry(key, value);
      PairOfJoined(EncodeQuery(key, false), EncodeQuery(value, false));
    } else {
      EncodeQueryPlain(x);
      PairOfExactly(EncodeQuery(x, false), EncodeQuery(x, false), EncodeQuery(x, false));
    }
  }

  lemma ReadFormOfPrinted(pairs: seq<Pair>)
    ensures ReadForm(QueryText(AppendAll(None, pairs))) == EmplaceAll(map[], QueryPairs(NonEmpty(Printed(pairs))))
  {
    hide EncodeQuery, PairOf, Unescape, Tokens, NonEmpty, EmplaceAll, AppendAll, Printed;
    var texts := NonEmpty(Printed(pairs));
    ItemsOfAppendAll(None, pairs);
    NothingToRead();
    assert Items(None) == [] && Items(AppendAll(None, pairs)) == NonEmpty(EncodedItems(Printed(pairs)));
    NonEmptyEncoded(Printed(pairs));
    forall i | 0 <= i < |texts|
      ensures FormPairs(EncodedItems(texts))[i] == QueryPairs(texts)[i]
    {
      PairOfPrinted(texts[i]);
    }
    assert FormPairs(EncodedItems(texts)) == QueryPairs(texts);
  }

  /** The receiver of a printed query, who splits before decoding, gets the map back, whatever the order of the entries,
      exactly when no key holds an equals sign and nothing holds a NUL byte. */
  lemma QueryReadBack(data: map<Bytes, Bytes>, order: seq<Bytes>)
    requires IsOrder(order, data)
    ensures ReadForm(QueryText(AppendAll(None, Entries(order, data)))) == data <==>
            forall key | key in data :: 0x3D !in key && 0 !in key && 0 !in data[key]
  {
    hide ReadForm, CString, EmplaceAll, AppendAll, PairOf;
    var pairs := Entries(order, data);
    ReadFormOfPrinted(pairs);
    if forall key | key in data :: 0x3D !in key && 0 !in key && 0 !in data[key] {
      PrintedWhole(pairs);
      EmplaceEntries(order, data);
    }
    var r := EmplaceAll(map[], QueryPairs(NonEmpty(Printed(pairs))));
    forall key | key in r
      ensures 0x3D !in key && 0 !in key && 0 !in r[key]
    {
      PrintedIsCut(pairs, key);
    }
  }

  lemma PrintedWhole(pairs: seq<Pair>)
    requires forall i | 0 <= i < |pairs| :: EQUALS !in pairs[i].0 && 0 !in pairs[i].0 && 0 !in pairs[i].1
    ensures QueryPairs(NonEmpty(Printed(pairs))) == pairs
  {
    hide CString, PairOf;
    forall i | 0 <= i < |pairs|
      ensures Printed(pairs)[i] != [] && PairOf(Printed(pairs)[i]) == pairs[i]
    {
      PairOfJoined(pairs[i].0, pairs[i].1);
    }
    NonEmptyKeepsAll(Printed(pairs));
  }

  lemma PrintedIsCut(pairs: seq<Pair>, key: Bytes)
    ensures var r := EmplaceAll(map[], QueryPairs(NonEmpty(Printed(pairs))));
            key in r ==> EQUALS !in key && 0 !in key && 0 !in r[key]
  {
    hide CString, PairOf;
    var texts := NonEmpty(Printed(pairs));
    EmplaceAllLookup(map[], QueryPairs(texts), key);
    var n := FirstFor(QueryPairs(texts), key);
    if n < |texts| {
      NonEmptyMembers(Printed(pairs), n);
      PairOfExactly(texts[n], PairOf(texts[n]).0, PairOf(texts[n]).1);
    }
  }

  lemma {:induction false} NonEmptyMembers(lines: seq<Bytes>, n: nat)
    requires n < |NonEmpty(lines)|
    ensures NonEmpty(lines)[n] in lines
  {
    if lines[0] == [] {
      NonEmptyMembers(lines[1..], n);
    } else if n > 0 {
      NonEmptyMembers(lines[1..], n - 1);
    }
  }

  // --- main results ---

  /** Writing the query of a URL and parsing it again gives the map back, whatever the order of its entries, exactly
      when no key holds an ampersand or an equals sign, no value holds an ampersand, and nothing holds a control
      character. */
  lemma UrlQueryRoundTrip(data: map<Bytes, Bytes>, order: seq<Bytes>)
    requires IsOrder(order, data)
    ensures ParsedQuery(AppendAll(None, Entries(order, data))) == Ok(data) <==> Clean(data)
  {
    hide ParsedQuery, EncodeQuery, JoinAmp, PercentDecode, PlusToSpace;
    var pairs := Entries(order, data);
    ParsedIsClean(AppendAll(None, pairs));
    if Clean(data) {
      forall i | 0 <= i < |order|
        ensures 0 !in pairs[i].0 && 0 !in pairs[i].1
        ensures DecodesTo(Encoded(pairs)[i], Raw(pairs)[i])
      {
        assert CleanKey(order[i]) && CleanValue(data[order[i]]);
        forall rest
          ensures PercentDecode(PlusToSpace(Encoded(pairs)[i] + rest)) ==
                  Raw(pairs)[i] + PercentDecode(PlusToSpace(rest))
        {
          EncodedQueryDecodes(Raw(pairs)[i], true, rest);
        }
      }
      AppendAllJoins([], pairs);
      assert [] + Encoded(pairs) == Encoded(pairs);
      if order == [] {
        NoQuery(data, order);
      } else {
        ParseJoined(Encoded(pairs), data, order);
      }
    }
  }

  lemma NoQuery(data: map<Bytes, Bytes>, order: seq<Bytes>)
    requires IsOrder(order, data) && order == []
    ensures data == map[] && ParsedQuery(None) == Ok(data)
  {
  }

  /** The form fields of http.cpp, read as the query of a URL: `URL` decodes before it splits, so the same bytes must be
      absent. An empty form reads as one empty pair: libcurl before 8.8.0 hands out an empty query, later versions
      treat it as no query, and then the empty map comes back too. */
  lemma FormAsUrlQuery(data: map<Bytes, Bytes>, order: seq<Bytes>)
    requires IsOrder(order, data)
    ensures ParsedQuery(Some(JoinAmp(FieldParts(Entries(order, data))))) == Ok(data) <==> data != map[] && Clean(data)
  {
    hide ParsedQuery, FieldPart, CString;
    var pairs := Entries(order, data);
    ParsedIsClean(Some(JoinAmp(FieldParts(pairs))));
    if order == [] {
      NoQuery(data, order);
      EmptyQuery();
      assert FieldParts(pairs) == [] && JoinAmp([]) == [];
      var odd: map<Bytes, Bytes> := map[[] := []];
      assert [] in odd;
    } else if Clean(data) {
      forall i | 0 <= i < |order|
        ensures DecodesTo(FieldParts(pairs)[i], Raw(pairs)[i])
      {
        assert CleanKey(order[i]) && CleanValue(data[order[i]]);
        FieldPartDecodes(pairs[i]);
      }
      ParseJoined(FieldParts(pairs), data, order);
      assert order[0] in data;
    }
  }

  /** The empty query as libcurl before 8.8.0 reports it. */
  lemma EmptyQuery()
    ensures ParsedQuery(Some([])) == Ok(map[[] := []])
  {
    assert PercentDecode(PlusToSpace([])) == [];
    assert Tokens([], [AMPERSAND]) == [[]];
    assert QueryPairs([[]]) == [([], [])];
    assert EmplaceAll(map[], [([], [])]) == map[[] := []];
  }
}
