/** Which answer a request gets: every outcome of a request text, from the values of its headers, and what an
    accepted request looks like to the handler. */
module Outcomes {
  import opened Bytes
  import opened HeadScan
  import opened Request
  import opened RequestText
  import opened ScanAgreement
  import opened Connection
  import Cookies
  import Query
  import Routes

  // ---------------------------------------------------------------- the answer to a request text

  /** The outcome that verb, target, headers and what follows them should have. */
  function TextOutcome(verb: Routes.Method, target: string, hs: seq<Header>, tail: string, maxBody: nat): Outcome {
    match PlanOf(hs, maxBody)
    case Refuse(e) => Refused(e)
    case Expect(n) =>
      if |tail| < n then Refused(BodyTooLarge)
      else if !Storable(hs) then Refused(HeadersTooLarge)
      else Served(Meant(verb, target, hs, tail[..n]))
  }

  lemma TextFirstOutcome(verb: Routes.Method, target: string, hs: seq<Header>, tail: string, maxBody: nat)
    requires ValidTarget(target) && AllWritable(hs) && maxBody <= SIZE_MAX - 6
    requires |HeadText(verb, target, hs)| <= BUFFER_LIMIT
    ensures var h := HeadText(verb, target, hs);
            && WellFormedHead(h) && RequestLine(h).Some?
            && FirstOutcome(h, tail, maxBody) == TextOutcome(verb, target, hs, tail, maxBody)
  {
    hide HeadText, RequestLine, PlanBody, PlanOf, ParseHeaders, WellFormedHead, Inner, HeadEnd, VerbName, ParseVerb, Storable,
      CookiesOf, KeepsAlive, UpTo, Query.ParsePairs, Tokens, AllHeaders, AllLines;
    var h := HeadText(verb, target, hs);
    HeadOfText(verb, target, hs);
    HeadersStored(verb, target, hs);
    HeadTextLine(verb, target, hs);
    PlanFollowsHeaders(verb, target, hs, maxBody);
    VerbIsWord(verb);
    EndOfHead(h);
  }

  /** The value of a Content-Length header is a plain numeral. */
  predicate Plain(value: string) { value != "" && AllDigits(value) }

  /** Which of the five outcomes a request text gets, however it is cut, is decided by the values of its
      Content-Length and Transfer-Encoding headers, the bytes behind it and the caps on its lines. */
  lemma TextGets(feed: Feed, verb: Routes.Method, target: string, hs: seq<Header>, tail: string, maxBody: nat)
    requires ValidTarget(target) && AllWritable(hs) && maxBody <= SIZE_MAX - 6
    requires |HeadText(verb, target, hs)| <= BUFFER_LIMIT
    requires ValidFeed(feed) && Concat(feed) == HeadText(verb, target, hs) + tail
    ensures var lengths, codings := StoredValues(hs, CONTENT_LENGTH), StoredValues(hs, TRANSFER_ENCODING);
            var outcomes := Serve(feed, "", maxBody);
            var single := |lengths| == 1 && codings == [];
            var n := if |lengths| == 1 && Plain(lengths[0]) then ValueOf(lengths[0]) else 0;
            var framed := codings == [] && |lengths| <= 1 && (|lengths| == 1 ==> Plain(lengths[0])) && n <= maxBody && n <= |tail|;
            && outcomes != []
            && (outcomes[0] == Refused(DuplicateContentLength) <==> |lengths| > 1)
            && (outcomes[0] == Refused(UnsupportedTransferEncoding) <==> |lengths| <= 1 && codings != [])
            && (outcomes[0] == Refused(BadContentLength) <==> single && !Plain(lengths[0]))
            && (outcomes[0] == Refused(BodyTooLarge) <==> single && Plain(lengths[0]) && (n > maxBody || n > |tail|))
            && (outcomes[0] == Refused(HeadersTooLarge) <==> framed && !Storable(hs))
            && (outcomes[0].Served? <==> framed && Storable(hs))
            && (framed && Storable(hs) ==> outcomes[0] == Served(Meant(verb, target, hs, tail[..n])))
  {
    hide HeadText, RequestLine, WellFormedHead, Serve, FirstOutcome, Meant, StoredValues, Storable;
    TextFirstOutcome(verb, target, hs, tail, maxBody);
    FirstRequestIndependentOfPieces(feed, HeadText(verb, target, hs), tail, maxBody);
  }

  // ---------------------------------------------------------------- other methods

  const METHODS := ["GET", "POST", "PUT", "PATCH", "DELETE", "HEAD", "OPTIONS"]

  lemma MethodsAre(w: string)
    ensures ParseVerb(w).Some? <==> w in METHODS
  {
  }

  function WordText(word: string, target: string, hs: seq<Header>): string {
    Block([word + " " + target + VERSION] + HeaderLines(hs))
  }

  predicate Word(w: string) { w != "" && NulFree(w) && forall i :: 0 <= i < |w| ==> !IsSpace(w[i]) }

  lemma WordLine(word: string, target: string, hs: seq<Header>)
    requires Word(word) && ValidTarget(target) && AllWritable(hs)
    ensures var ls := [word + " " + target + VERSION] + HeaderLines(hs);
            Lines(ls) && forall i :: 0 <= i < |ls| ==> NulFree(ls[i])
  {
    hide IsHeaderLine, HeaderOf, HeaderLine, Writable;
    var first := word + " " + target + VERSION;
    assert forall i :: 0 <= i < |word| ==> !IsSpace(word[i]);
    assert forall i :: 0 <= i < |target| ==> !IsSpace(target[i]);
    assert NoBreak(word) && NoBreak(target) && NoBreak(" ") && NoBreak(VERSION) && NulFree(" ") && NulFree(VERSION);
    PlainConcat(word, " ");
    PlainConcat(word + " ", target);
    PlainConcat(word + " " + target, VERSION);
    forall i | 0 <= i < |hs|
      ensures Line(HeaderLine(hs[i])) && NulFree(HeaderLine(hs[i]))
    {
      HeaderLineReadsBack(hs[i]);
    }
  }

  /** The first word of the text, as much of it as %15s takes. */
  lemma WordIsRead(word: string, rest: string)
    requires Word(word) && rest != "" && IsSpace(rest[0]) && exists i :: 0 <= i < |rest| && !IsSpace(rest[i])
    ensures RequestLine(word + rest).Some? && RequestLine(word + rest).value.0 == word[..Min(|word|, 15)]
  {
    hide SpaceRun, WordRun;
    var s, n := word + rest, Min(|word|, 15);
    SpaceRunIs(s, 0);
    assert s[0..] == s;
    WordRunIs(s, |word|);
    assert s[..n] == word[..n];
    SomethingLeft(s[n..], rest);
  }

  lemma SomethingLeft(s: string, rest: string)
    requires |s| >= |rest| && s[|s| - |rest|..] == rest && exists i :: 0 <= i < |rest| && !IsSpace(rest[i])
    ensures ScanWord(s, MAX_TARGET).Some?
  {
    var i :| 0 <= i < |rest| && !IsSpace(rest[i]);
    assert s[|s| - |rest| + i] == rest[i];
  }

  /** Every first word but the seven methods is refused as such, whatever else the head says. */
  lemma OtherWordIsRefused(feed: Feed, word: string, target: string, hs: seq<Header>, tail: string, maxBody: nat)
    requires Word(word) && word !in METHODS && ValidTarget(target) && AllWritable(hs)
    requires |WordText(word, target, hs)| <= BUFFER_LIMIT
    requires ValidFeed(feed) && Concat(feed) == WordText(word, target, hs) + tail
    ensures Serve(feed, "", maxBody) == [Refused(UnsupportedMethod)]
  {
    hide RequestLine, PlanBody, WellFormedHead, Inner, HeadEnd, ParseVerb, Block, Serve, ValidTarget, Word, AllWritable;
    var ls := [word + " " + target + VERSION] + HeaderLines(hs);
    var h := WordText(word, target, hs);
    WordLine(word, target, hs);
    BlockIsHead(ls);
    BlockIsInner(ls);
    SomeHeaders(hs);
    InnerHasBreak(ls);
    BlockFirst(ls);
    var rest := " " + (target + VERSION + (CRLF + Block(ls[1..])));
    assert h == word + rest;
    TargetShows(target, VERSION + (CRLF + Block(ls[1..])));
    assert target + VERSION + (CRLF + Block(ls[1..])) == target + (VERSION + (CRLF + Block(ls[1..])));
    WordIsRead(word, rest);
    NoMethod(word);
    EndOfHead(h);
    assert h[..|h| - 4] == Inner(ls);
    FirstRequestIndependentOfPieces(feed, h, tail, maxBody);
  }

  lemma TargetShows(target: string, more: string)
    requires ValidTarget(target)
    ensures var rest := " " + (target + more); exists i :: 0 <= i < |rest| && !IsSpace(rest[i])
  {
    var rest := " " + (target + more);
    assert rest[1] == target[0];
  }

  lemma NoMethod(word: string)
    requires word !in METHODS
    ensures ParseVerb(word[..Min(|word|, 15)]).None?
  {
    hide ParseVerb;
    MethodsAre(word[..Min(|word|, 15)]);
    assert |word| <= 15 ==> word[..|word|] == word;
    assert forall m :: m in METHODS ==> |m| < 15;
  }

  // ---------------------------------------------------------------- what an accepted request looks like

  lemma {:induction false} WithinLimit(ds: string, maxBody: nat)
    requires AllDigits(ds) && !Accumulate(ds, maxBody).1
    ensures Accumulate(ds, maxBody).0 <= maxBody
  {
  }

  /** No accepted request has a body over the limit, whatever its head looks like. */
  lemma AcceptedWithinLimit(feed: Feed, buf: string, maxBody: nat)
    requires ValidFeed(feed) && ParseRequest(feed, buf, maxBody).0.Ok?
    ensures |ParseRequest(feed, buf, maxBody).0.request.body| <= maxBody
  {
    hide ParseRequest, HeadEnd, CStr, LineInitial, ParseHeaders, ParseLength;
    AcceptedPlan(feed, buf, maxBody);
    var v := CStr(buf);
    var hits := LineInitial(v, CONTENT_LENGTH, 0, HeadEnd(v).value.pos);
    if |hits| == 1 {
      assert hits[0] in hits;
      LengthWithinLimit(v[hits[0] + |CONTENT_LENGTH|..], maxBody);
    }
  }

  lemma LengthWithinLimit(text: string, maxBody: nat)
    requires ParseLength(text, maxBody).Length?
    ensures ParseLength(text, maxBody).value <= maxBody
  {
    hide Accumulate;
    var val := text[Blanks(text)..];
    WithinLimit(val[..Digits(val)], maxBody);
  }

  /** And none shows the handler a Transfer-Encoding, unless it stood directly behind a CR. */
  lemma AcceptedWithoutCoding(feed: Feed, buf: string, maxBody: nat)
    requires ValidFeed(feed) && ParseRequest(feed, buf, maxBody).0.Ok?
    requires HeadEnd(CStr(buf)).Some? && NoneBehindCr(CStr(buf)[..HeadEnd(CStr(buf)).value.pos], TRANSFER_ENCODING)
    ensures StoredValues(ParseRequest(feed, buf, maxBody).0.request.headers, TRANSFER_ENCODING) == []
  {
    hide ParseRequest, HeadEnd, CStr, LineInitial, ParseLength, ParseHeaders, StoredValues, NoneBehindCr;
    AcceptedPlan(feed, buf, maxBody);
    var v := CStr(buf);
    var end := HeadEnd(v).value.pos;
    SeparatorIsDelim(v);
    ContentLengthIsName();
    ScansAgreeIff(v, end, TRANSFER_ENCODING);
  }

  // ---------------------------------------------------------------- what the handler sees

  /** A delivered text: the preconditions under which it reaches the handler. */
  predicate Delivered(feed: Feed, verb: Routes.Method, target: string, hs: seq<Header>, body: string, rest: string, maxBody: nat) {
    && ValidTarget(target) && ValidHeaders(hs) && Framed(hs, body, maxBody)
    && |HeadText(verb, target, hs)| <= BUFFER_LIMIT
    && ValidFeed(feed) && Concat(feed) == HeadText(verb, target, hs) + body + rest
  }

  /** The connection stays open exactly if some header is "Connection: keep-alive", in any case, wherever it stands. */
  lemma KeepAliveSeen(feed: Feed, verb: Routes.Method, target: string, hs: seq<Header>, body: string, rest: string, maxBody: nat)
    requires Delivered(feed, verb, target, hs, body, rest, maxBody)
    ensures var outcomes := Serve(feed, "", maxBody);
            && outcomes != [] && outcomes[0].Served?
            && (outcomes[0].request.keepAlive
                <==> exists i :: 0 <= i < |hs| && Same(hs[i].name, "connection") && Same(hs[i].value, "keep-alive"))
  {
    hide Serve, HeadText, Framed, ValidTarget, ValidHeaders, CookiesOf, Query.ParsePairs;
    RequestDelivered(feed, verb, target, hs, body, rest, maxBody);
  }

  lemma {:induction false} LastCookieCounts(before: seq<Header>, h: Header, after: seq<Header>)
    requires Same(h.name, "cookie") && forall i :: 0 <= i < |after| ==> !Same(after[i].name, "cookie")
    ensures CookiesOf(before + [h] + after) == Cookies.ParseCookies(h.value)
    decreases |after|
  {
    hide Same, Cookies.ParseCookies;
    var hs := before + [h] + after;
    if after != [] {
      assert hs[|hs| - 1] == after[|after| - 1];
      assert hs[..|hs| - 1] == before + [h] + after[..|after| - 1];
      LastCookieCounts(before, h, after[..|after| - 1]);
    } else {
      assert hs[|hs| - 1] == h;
    }
  }

  lemma {:induction false} NoCookies(hs: seq<Header>)
    requires forall i :: 0 <= i < |hs| ==> !Same(hs[i].name, "cookie")
    ensures CookiesOf(hs) == []
    decreases |hs|
  {
    if hs != [] { NoCookies(hs[..|hs| - 1]); }
  }

  /** The handler sees the cookies of the last Cookie header, in order, and none if there is no such header. */
  lemma CookiesSeen(feed: Feed, verb: Routes.Method, target: string, before: seq<Header>, name: string, ps: seq<Pair>,
                    after: seq<Header>, body: string, rest: string, maxBody: nat)
    requires Delivered(feed, verb, target, before + [Header(name, Cookies.CookieHeader(ps))] + after, body, rest, maxBody)
    requires Same(name, "cookie") && (forall i :: 0 <= i < |after| ==> !Same(after[i].name, "cookie"))
    requires forall i :: 0 <= i < |ps| ==> Cookies.ValidCookie(ps[i])
    ensures var outcomes := Serve(feed, "", maxBody);
            outcomes != [] && outcomes[0].Served? && outcomes[0].request.cookies == ps
  {
    hide Serve, HeadText, Framed, ValidTarget, ValidHeaders, CookiesOf, KeepsAlive, Query.ParsePairs, Cookies.ParseCookies, Cookies.CookieHeader, Same;
    var hs := before + [Header(name, Cookies.CookieHeader(ps))] + after;
    RequestDelivered(feed, verb, target, hs, body, rest, maxBody);
    LastCookieCounts(before, Header(name, Cookies.CookieHeader(ps)), after);
    Cookies.CookieRoundTrip(ps);
  }

  lemma NoCookiesSeen(feed: Feed, verb: Routes.Method, target: string, hs: seq<Header>, body: string, rest: string, maxBody: nat)
    requires Delivered(feed, verb, target, hs, body, rest, maxBody)
    requires forall i :: 0 <= i < |hs| ==> !Same(hs[i].name, "cookie")
    ensures var outcomes := Serve(feed, "", maxBody);
            outcomes != [] && outcomes[0].Served? && outcomes[0].request.cookies == []
  {
    hide Serve, HeadText, Framed, ValidTarget, ValidHeaders, CookiesOf, KeepsAlive, Query.ParsePairs, Same;
    RequestDelivered(feed, verb, target, hs, body, rest, maxBody);
    NoCookies(hs);
  }

  /** The target is cut at its first '?': in front of it the path, behind it the query, whose pairs are read
      back as they were written. */
  lemma TargetSeen(feed: Feed, verb: Routes.Method, path: string, pairs: Option<seq<Pair>>, hs: seq<Header>,
                   body: string, rest: string, maxBody: nat)
    requires '?' !in path
    requires pairs.Some? ==> |pairs.value| <= 16 && forall i :: 0 <= i < |pairs.value| ==> Query.Encodable(pairs.value[i])
    requires Delivered(feed, verb, TargetOf(path, pairs), hs, body, rest, maxBody)
    ensures var outcomes := Serve(feed, "", maxBody);
            && outcomes != [] && outcomes[0].Served?
            && outcomes[0].request.verb == verb && outcomes[0].request.path == path
            && outcomes[0].request.query.Some? == pairs.Some?
            && outcomes[0].request.queryPairs == (if pairs.Some? then pairs.value else [])
            && outcomes[0].request.headers == hs && outcomes[0].request.body == body
  {
    hide Serve, HeadText, Framed, ValidTarget, ValidHeaders, CookiesOf, KeepsAlive, Query.ParsePairs, UpTo, QueryText;
    var target := TargetOf(path, pairs);
    RequestDelivered(feed, verb, target, hs, body, rest, maxBody);
    if pairs.Some? {
      UpToIs(target, '?', |path|);
      assert target[..|path|] == path && target[|path| + 1..] == QueryText(pairs.value);
      QueryTextReadsBack(pairs.value);
    } else {
      UpToIs(target, '?', |path|);
      assert target[..|target|] == target;
    }
  }

  function QueryText(pairs: seq<Pair>): string
    requires forall i :: 0 <= i < |pairs| ==> Query.Encodable(pairs[i])
  {
    Query.Serialize(Query.PercentEncoded(pairs))
  }

  lemma QueryTextReadsBack(pairs: seq<Pair>)
    requires |pairs| <= 16 && forall i :: 0 <= i < |pairs| ==> Query.Encodable(pairs[i])
    ensures Query.ParsePairs(QueryText(pairs)) == pairs
  {
    Query.PercentEncodingRoundTrip(pairs);
  }

  function TargetOf(path: string, pairs: Option<seq<Pair>>): string
    requires pairs.Some? ==> forall i :: 0 <= i < |pairs.value| ==> Query.Encodable(pairs.value[i])
  {
    if pairs.Some? then path + "?" + QueryText(pairs.value) else path
  }
}
