/** parse_query_string: splitting a query string into decoded name/value pairs. */
module Query {
  import opened Bytes
  import opened UrlCodec

  const MAX_QUERY := 16
  const MAX_QUERY_NAME := 1024
  const MAX_QUERY_VALUE := 1024

  /** A token up to and after its first '='. */
  function SplitPair(token: string): Pair {
    var eq := UpTo(token, '=');
    if eq < |token| then (token[..eq], token[eq + 1..]) else (token, "")
  }

  predicate Oversized(token: string) {
    |SplitPair(token).0| > MAX_QUERY_NAME || |SplitPair(token).1| > MAX_QUERY_VALUE
  }

  function DecodePair(token: string): Pair {
    (DecodeOrEmpty(SplitPair(token).0), DecodeOrEmpty(SplitPair(token).1))
  }

  function DecodePairs(tokens: seq<string>): (r: seq<Pair>)
    ensures |r| == |tokens| && forall i :: 0 <= i < |r| ==> r[i] == DecodePair(tokens[i])
  {
    seq(|tokens|, i requires 0 <= i < |tokens| => DecodePair(tokens[i]))
  }

  function Examined(qs: string): (ts: seq<string>)
    ensures |ts| <= MAX_QUERY
  {
    var ts := Tokens(qs, "&");
    if |ts| > MAX_QUERY then ts[..MAX_QUERY] else ts
  }

  /** The pairs of a query string: none at all if one of the examined parts is over its cap. */
  function ParsePairs(qs: string): seq<Pair> {
    var ts := Examined(qs);
    if exists i :: 0 <= i < |ts| && Oversized(ts[i]) then [] else DecodePairs(ts)
  }

  // ---------------------------------------------------------------- the parser

  function Count(s: string, c: char): nat {
    if s == "" then 0 else (if s[0] == c then 1 else 0) + Count(s[1..], c)
  }

  lemma {:induction false} CountStep(s: string, i: nat, c: char)
    requires i < |s|
    ensures Count(s[..i + 1], c) == Count(s[..i], c) + if s[i] == c then 1 else 0
  {
    if i > 0 {
      CountStep(s[1..], i - 1, c);
      assert s[..i + 1][1..] == s[1..][..i];
      assert s[..i][1..] == s[1..][..i - 1];
    }
  }

  lemma {:induction false} CountSuffix(s: string, n: nat, c: char)
    requires n <= |s|
    ensures Count(s[n..], c) <= Count(s, c)
  {
    if n > 0 {
      CountSuffix(s[1..], n - 1, c);
      assert s[1..][n - 1..] == s[n..];
    }
  }

  /** There is never more than one token for each separator and one besides: the arrays are large enough. */
  lemma {:induction false} TokensAtMostSeparators(s: string, sep: char)
    ensures |Tokens(s, [sep])| <= Count(s, sep) + 1
    ensures s != "" && s[0] == sep ==> |Tokens(s, [sep])| <= Count(s, sep)
    decreases |s|
  {
    if s == "" {
    } else if s[0] == sep {
      TokensAtMostSeparators(s[1..], sep);
    } else {
      var n := RunLength(s, [sep]);
      TokensAtMostSeparators(s[n..], sep);
      CountSuffix(s, n, sep);
    }
  }

  /** The number of slots parse_query_string allocates. */
  method CountSlots(qs: string) returns (count: nat)
    ensures 1 <= count <= MAX_QUERY && |Examined(qs)| <= count
    ensures count < MAX_QUERY ==> |Tokens(qs, "&")| <= count
  {
    count := 1;
    for i := 0 to |qs|
      invariant count == 1 + Count(qs[..i], '&')
    {
      CountStep(qs, i, '&');
      if qs[i] == '&' {
        count := count + 1;
      }
    }
    assert qs[..|qs|] == qs;
    TokensAtMostSeparators(qs, '&');
    if count > MAX_QUERY {
      count := MAX_QUERY;
    }
  }

  /** One token: cut at '=', checked against the caps, both halves decoded. */
  method TakePair(token: string) returns (oversized: bool, name: string, value: string)
    requires NulFree(token)
    ensures oversized == Oversized(token)
    ensures !oversized ==> (name, value) == DecodePair(token)
  {
    name, value := token, "";
    var eq := UpTo(token, '=');
    if eq < |token| {
      name, value := token[..eq], token[eq + 1..];
    }
    oversized := |name| > MAX_QUERY_NAME || |value| > MAX_QUERY_VALUE;
    if !oversized {
      name := DecodeCopy(name);
      value := DecodeCopy(value);
    }
  }

  /** What strtok_r has delivered last and has still to deliver. */
  function Pending(token: Option<string>, rest: string): seq<string> {
    if token.Some? then [token.value] + Tokens(rest, "&") else []
  }

  predicate Progress(qs: string, seen: seq<string>, token: Option<string>, rest: string) {
    && Tokens(qs, "&") == seen + Pending(token, rest)
    && forall i :: 0 <= i < |seen| ==> !Oversized(seen[i])
  }

  lemma ProgressStart(qs: string, token: Option<string>, rest: string)
    requires Tokens(qs[0..], "&") == Pending(token, rest)
    ensures Progress(qs, [], token, rest)
    ensures Zip([], []) == DecodePairs([])
  {
    assert qs[0..] == qs;
    assert [] + Pending(token, rest) == Pending(token, rest);
  }

  lemma ProgressStep(qs: string, seen: seq<string>, token: string, rest: string, token': Option<string>, rest': string)
    requires Progress(qs, seen, Some(token), rest) && !Oversized(token)
    requires Tokens(rest, "&") == Pending(token', rest')
    ensures Progress(qs, seen + [token], token', rest')
  {
    Assoc(seen, [token], Tokens(rest, "&"));
    forall i | 0 <= i < |seen + [token]|
      ensures !Oversized((seen + [token])[i])
    {
      if i < |seen| { assert (seen + [token])[i] == seen[i]; }
    }
  }

  lemma DecodePairsAppend(seen: seq<string>, token: string)
    ensures DecodePairs(seen + [token]) == DecodePairs(seen) + [DecodePair(token)]
  {
  }

  lemma AllExamined(qs: string, seen: seq<string>, token: Option<string>, rest: string)
    requires Progress(qs, seen, token, rest)
    requires |seen| <= MAX_QUERY && (token.None? || |seen| == MAX_QUERY || |Tokens(qs, "&")| <= |seen|)
    ensures ParsePairs(qs) == DecodePairs(seen)
  {
    assert Examined(qs) == seen;
  }

  lemma OversizedSeen(qs: string, seen: seq<string>, token: Option<string>, rest: string)
    requires Progress(qs, seen, token, rest)
    requires |seen| < MAX_QUERY && token.Some? && Oversized(token.value)
    ensures ParsePairs(qs) == []
  {
    assert Examined(qs)[|seen|] == token.value;
  }

  function Zip(names: seq<string>, values: seq<string>): seq<Pair>
    requires |names| == |values|
  {
    seq(|names|, i requires 0 <= i < |names| => (names[i], values[i]))
  }

  method StoreAt(names: array<string>, values: array<string>, idx: nat, name: string, value: string)
    requires names != values && idx < names.Length == values.Length
    modifies names, values
    ensures Zip(names[..idx + 1], values[..idx + 1]) == Zip(old(names[..idx]), old(values[..idx])) + [(name, value)]
  {
    names[idx], values[idx] := name, value;
    assert names[..idx + 1] == old(names[..idx]) + [name];
    assert values[..idx + 1] == old(values[..idx]) + [value];
  }

  /** All or nothing: one oversized part among the first sixteen tokens empties the whole result;
      without one there is a pair for each of them, and later tokens count for nothing. */
  lemma AllOrNothing(qs: string)
    ensures var ts := Tokens(qs, "&");
            var n := Min(MAX_QUERY, |ts|);
            |ParsePairs(qs)| == if exists i :: 0 <= i < n && Oversized(ts[i]) then 0 else n
  {
    var ts := Tokens(qs, "&");
    assert forall i :: 0 <= i < |Examined(qs)| ==> Examined(qs)[i] == ts[i];
    if exists i :: 0 <= i < Min(MAX_QUERY, |ts|) && Oversized(ts[i]) {
      var i :| 0 <= i < Min(MAX_QUERY, |ts|) && Oversized(ts[i]);
      assert Oversized(Examined(qs)[i]);
    }
  }

  lemma NoPairs()
    ensures ParsePairs("") == []
  {
  }

  /** parse_query_string.  The result is the first `idx` entries of two arrays of `count` slots. */
  method ParseQueryString(qs: string) returns (pairs: seq<Pair>)
    requires NulFree(qs)
    ensures pairs == ParsePairs(qs)
    ensures var ts := Tokens(qs, "&"); var n := Min(MAX_QUERY, |ts|);
            |pairs| == if exists i :: 0 <= i < n && Oversized(ts[i]) then 0 else n
  {
    hide Progress, DecodePairs, Zip, ParsePairs, DecodePair, Oversized, Tokens, Examined;
    AllOrNothing(qs);
    if qs == "" {
      NoPairs();
      return [];
    }
    var count := CountSlots(qs);
    var names, values := new string[count], new string[count];
    var idx := 0;
    var token, next := StrTok(qs, 0, "&");
    ghost var seen: seq<string> := [];
    ProgressStart(qs, token, qs[next..]);
    while token.Some? && idx < count
      invariant idx == |seen| <= count && next <= |qs|
      invariant Progress(qs, seen, token, qs[next..])
      invariant token.Some? ==> NulFree(token.value)
      invariant Zip(names[..idx], values[..idx]) == DecodePairs(seen)
      decreases |qs| - next, token.Some?
    {
      var oversized, name, value := TakePair(token.value);
      if oversized {
        OversizedSeen(qs, seen, token, qs[next..]);
        return [];
      }
      StoreAt(names, values, idx, name, value);
      ghost var was, rest := token.value, qs[next..];
      token, next := StrTok(qs, next, "&");
      ProgressStep(qs, seen, was, rest, token, qs[next..]);
      DecodePairsAppend(seen, was);
      seen := seen + [was];
      idx := idx + 1;
    }
    AllExamined(qs, seen, token, qs[next..]);
    pairs := Zip(names[..idx], values[..idx]);
  }

  // ---------------------------------------------------------------- the round trip

  /** One pair of an application/x-www-form-urlencoded text, by the pieces of its two halves. */
  datatype EncodedPair = EncodedPair(name: seq<Piece>, value: seq<Piece>) {
    /** '=' cannot occur in a name nor '&' in either half, other than escaped; both halves are within their caps. */
    predicate Valid() {
      && AllValid(name) && AllValid(value)
      && '=' !in Spell(name) && '&' !in Spell(name) && '&' !in Spell(value)
      && |Spell(name)| <= MAX_QUERY_NAME && |Spell(value)| <= MAX_QUERY_VALUE
    }

    function Text(): string { Spell(name) + "=" + Spell(value) }

    function Meaning(): Pair
      requires Valid()
    {
      (Read(name), Read(value))
    }
  }

  function Texts(ps: seq<EncodedPair>): seq<string> {
    seq(|ps|, i requires 0 <= i < |ps| => ps[i].Text())
  }

  function Serialize(ps: seq<EncodedPair>): string { Join(Texts(ps), '&') }

  lemma TextDecodes(p: EncodedPair)
    requires p.Valid()
    ensures p.Text() != "" && DelimFree(p.Text(), "&")
    ensures !Oversized(p.Text()) && DecodePair(p.Text()) == p.Meaning()
  {
    var t := p.Text();
    UpToIs(t, '=', |Spell(p.name)|);
    assert t[..|Spell(p.name)|] == Spell(p.name) && t[|Spell(p.name)| + 1..] == Spell(p.value);
    DecodeOfSpelling(p.name);
    DecodeOfSpelling(p.value);
  }

  /** Any spelling of up to 16 pairs is parsed back into exactly those pairs, in order. */
  lemma QueryRoundTrip(ps: seq<EncodedPair>)
    requires |ps| <= MAX_QUERY && forall i :: 0 <= i < |ps| ==> ps[i].Valid()
    ensures |ParsePairs(Serialize(ps))| == |ps|
    ensures forall i :: 0 <= i < |ps| ==> ParsePairs(Serialize(ps))[i] == ps[i].Meaning()
  {
    forall i | 0 <= i < |ps|
      ensures ps[i].Text() != "" && DelimFree(ps[i].Text(), "&")
      ensures !Oversized(ps[i].Text()) && DecodePair(ps[i].Text()) == ps[i].Meaning()
    {
      TextDecodes(ps[i]);
    }
    TokensOfJoin(Texts(ps), '&');
    assert Examined(Serialize(ps)) == Texts(ps);
  }

  function PercentEncoded(pairs: seq<Pair>): seq<EncodedPair>
    requires forall i :: 0 <= i < |pairs| ==> Encodable(pairs[i])
  {
    seq(|pairs|, i requires 0 <= i < |pairs| && Encodable(pairs[i]) =>
      EncodedPair(EncodePieces(pairs[i].0), EncodePieces(pairs[i].1)))
  }

  predicate Encodable(p: Pair) {
    && AllBytes(p.0) && AllBytes(p.1) && NulFree(p.0) && NulFree(p.1)
    && |Encode(p.0)| <= MAX_QUERY_NAME && |Encode(p.1)| <= MAX_QUERY_VALUE
  }

  /** In particular percent-encoding followed by parse_query_string is the identity. */
  lemma PercentEncodingRoundTrip(pairs: seq<Pair>)
    requires |pairs| <= MAX_QUERY && forall i :: 0 <= i < |pairs| ==> Encodable(pairs[i])
    ensures ParsePairs(Serialize(PercentEncoded(pairs))) == pairs
  {
    var ps := PercentEncoded(pairs);
    forall i | 0 <= i < |pairs|
      ensures ps[i].Valid() && ps[i].Meaning() == pairs[i]
    {
      EncodeHasNoSeparators(pairs[i].0);
      EncodeHasNoSeparators(pairs[i].1);
    }
    QueryRoundTrip(ps);
  }

  // ---------------------------------------------------------------- any query string

  /** What a part means: what its pieces read, or nothing if it is not made of pieces. */
  ghost predicate Means(part: string, meaning: string) {
    || (exists ps :: AllValid(ps) && Spell(ps) == part && Read(ps) == meaning)
    || (meaning == "" && !exists ps :: AllValid(ps) && Spell(ps) == part)
  }

  lemma PartMeans(part: string)
    ensures Means(part, DecodeOrEmpty(part))
  {
    hide Decode;
    var d := Decode(part);
    if d.Some? {
      DecodesExactlyTheEncodings(part, d.value);
    } else if exists ps :: AllValid(ps) && Spell(ps) == part {
      var ps :| AllValid(ps) && Spell(ps) == part;
      DecodesExactlyTheEncodings(part, Read(ps));
    }
  }

  /** A part between two '&' as it stands in the text. */
  datatype RawPair = RawPair(name: string, value: Option<string>) {
    predicate Valid() {
      && '=' !in name && '&' !in name
      && (value.Some? ==> '&' !in value.value)
      && (value.None? ==> name != "")
    }

    function Value(): string { if value.Some? then value.value else "" }

    function Text(): string { name + if value.Some? then "=" + value.value else "" }

    predicate Long() { |name| > MAX_QUERY_NAME || |Value()| > MAX_QUERY_VALUE }
  }

  function RawTexts(ps: seq<RawPair>): seq<string> {
    seq(|ps|, i requires 0 <= i < |ps| => ps[i].Text())
  }

  lemma RawSplits(p: RawPair)
    requires p.Valid()
    ensures p.Text() != "" && DelimFree(p.Text(), "&")
    ensures SplitPair(p.Text()) == (p.name, p.Value())
  {
    hide UpTo;
    var t := p.Text();
    if p.value.Some? {
      UpToIs(t, '=', |p.name|);
      assert t[..|p.name|] == p.name && t[|p.name| + 1..] == p.value.value;
    } else {
      assert t == p.name;
      UpToIs(t, '=', |t|);
    }
  }

  /** Every query string: the first sixteen parts count, each with or without '='; one part over its cap
      empties the result; otherwise each part is read as what it means. */
  lemma QueryExactly(ps: seq<RawPair>)
    requires forall i :: 0 <= i < |ps| ==> ps[i].Valid()
    ensures var n := Min(16, |ps|); var r := ParsePairs(Join(RawTexts(ps), '&'));
            && |r| == (if exists i :: 0 <= i < n && ps[i].Long() then 0 else n)
            && forall i :: 0 <= i < |r| ==> Means(ps[i].name, r[i].0) && Means(ps[i].Value(), r[i].1)
  {
    hide Means, Tokens, SplitPair, RawPair.Text, DecodeOrEmpty;
    var ts, qs, n := RawTexts(ps), Join(RawTexts(ps), '&'), Min(16, |ps|);
    forall i | 0 <= i < |ps|
      ensures ts[i] != "" && DelimFree(ts[i], "&") && SplitPair(ts[i]) == (ps[i].name, ps[i].Value())
    {
      RawSplits(ps[i]);
    }
    TokensOfJoin(ts, '&');
    assert Examined(qs) == ts[..n];
    forall i | 0 <= i < n
      ensures Oversized(ts[i]) <==> ps[i].Long()
      ensures Means(ps[i].name, DecodePair(ts[i]).0) && Means(ps[i].Value(), DecodePair(ts[i]).1)
    {
      PartMeans(ps[i].name);
      PartMeans(ps[i].Value());
    }
    LongOnes(ps, ts, n);
  }

  lemma LongOnes(ps: seq<RawPair>, ts: seq<string>, n: nat)
    requires n <= |ps| == |ts| && forall i :: 0 <= i < n ==> (Oversized(ts[i]) <==> ps[i].Long())
    ensures (exists i :: 0 <= i < n && ps[i].Long()) <==> exists i :: 0 <= i < |ts[..n]| && Oversized(ts[..n][i])
  {
    hide Oversized, RawPair.Long;
    if i :| 0 <= i < n && ps[i].Long() { assert Oversized(ts[..n][i]); }
    if i :| 0 <= i < |ts[..n]| && Oversized(ts[..n][i]) { assert ps[i].Long(); }
  }
}
