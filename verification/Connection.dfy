/** mnet_handle_client: one connection from its first byte to its last, with keep-alive and pipelining. */
module Connection {
  import opened Bytes
  import opened HeadScan
  import opened Request
  import Cookies
  import Query
  import Routes

  /** sizeof(buffer) - 1: the last byte of the 8192 is kept for the terminator. */
  const BUFFER_LIMIT := 8191

  // ---------------------------------------------------------------- reading a head

  /** The read loop: until the buffer shows a separator, is full, or nothing more comes. */
  function ReadHead(feed: Feed, buf: string): (r: (Feed, string))
    requires ValidFeed(feed) && |buf| <= BUFFER_LIMIT
    ensures ValidFeed(r.0) && |r.1| <= BUFFER_LIMIT
    ensures r.1 + Concat(r.0) == buf + Concat(feed)
    decreases BUFFER_LIMIT - |buf|
  {
    if Complete(CStr(buf)) || |buf| == BUFFER_LIMIT then (feed, buf)
    else
      var (data, rest) := Recv(feed, BUFFER_LIMIT - |buf|);
      if data.None? then (rest, buf)
      else
        Assoc(buf, data.value, Concat(rest));
        ReadHead(rest, buf + data.value)
  }

  /** The head arrives as a whole, however it is cut: the loop stops neither before its end nor
      without it, and keeps the bytes behind it. */
  lemma {:induction false} ReadHeadFinds(feed: Feed, k: nat, h: string, tail: string) returns (x: string)
    requires ValidFeed(feed) && AnyHead(h) && |h| <= BUFFER_LIMIT
    requires k <= |h| && h[..k] + Concat(feed) == h + tail
    ensures ReadHead(feed, h[..k]).1 == h + x && x + Concat(ReadHead(feed, h[..k]).0) == tail
    decreases |h| - k
  {
    hide AnyHead, Complete, CStr, Concat, Recv;
    var buf := h[..k];
    if k == |h| {
      HeadComplete(h, "");
      x := "";
      CutAt(h, Concat(feed), tail);
      ReadHeadStops(feed, h);
    } else {
      PrefixNulFree(h, k);
      var (data, rest) := Recv(feed, BUFFER_LIMIT - k);
      NothingMissing(h, k, Concat(feed), tail);
      ReadHeadStep(feed, buf);
      ConcatNonEmpty(feed);
      var d := data.value;
      if k + |d| <= |h| {
        CutInside(h, k, d, Concat(rest), tail);
        x := ReadHeadFinds(rest, k + |d|, h, tail);
      } else {
        x := CutBeyond(h, k, d, Concat(rest), tail);
        HeadComplete(h, x);
        ReadHeadStops(rest, h + x);
      }
    }
  }

  lemma ConcatNonEmpty(feed: Feed)
    requires Concat(feed) != ""
    ensures feed != []
  {
  }

  lemma CutAt(h: string, more: string, tail: string)
    requires h[..|h|] + more == h + tail
    ensures h[..|h|] == h == h + "" && "" + more == tail
  {
    assert (h + more)[|h|..] == more && (h + tail)[|h|..] == tail;
  }

  lemma CutInside(h: string, k: nat, d: string, more: string, tail: string)
    requires k + |d| <= |h| && h[..k] + (d + more) == h + tail
    ensures h[..k] + d == h[..k + |d|] && h[..k + |d|] + more == h + tail
  {
    Assoc(h[..k], d, more);
    var n := k + |d|;
    assert ((h[..k] + d) + more)[..n] == h[..k] + d && (h + tail)[..n] == h[..n];
  }

  lemma CutBeyond(h: string, k: nat, d: string, more: string, tail: string) returns (x: string)
    requires k <= |h| < k + |d| && h[..k] + (d + more) == h + tail
    ensures h[..k] + d == h + x && x + more == tail
  {
    Assoc(h[..k], d, more);
    var all := h[..k] + d;
    x := all[|h|..];
    assert (all + more)[..|h|] == all[..|h|] && (h + tail)[..|h|] == h;
    assert all == all[..|h|] + x;
    assert (all + more)[|h|..] == x + more && (h + tail)[|h|..] == tail;
  }

  lemma HeadComplete(h: string, x: string)
    requires AnyHead(h)
    ensures Complete(CStr(h + x)) && Complete(CStr(h))
  {
    hide CStr;
    SeparatorInHead(h);
    CStrAppend(h, x);
    SeparatorStays(h, CStr(x));
    CStrAppend(h, "");
    NothingBehind(h);
    SeparatorStays(h, "");
  }

  lemma SeparatorStays(h: string, x: string)
    requires AnyHead(h)
    ensures Complete(h + x)
  {
    if WellFormedHead(h) { FirstInHead(h, x, CRLF2); } else { FirstInHead(h, x, LF2); }
  }

  lemma PrefixNulFree(h: string, k: nat)
    requires AnyHead(h) && k < |h|
    ensures CStr(h[..k]) == h[..k] && !Complete(CStr(h[..k]))
  {
    SeparatorInHead(h);
    CStrAppend(h[..k], "");
    NothingBehind(h[..k]);
    PrefixIncomplete(h, k);
  }

  lemma NothingMissing(h: string, k: nat, more: string, tail: string)
    requires k < |h| && h[..k] + more == h + tail
    ensures more != ""
  {
    assert |h[..k] + more| == k + |more|;
  }

  // ---------------------------------------------------------------- what stays in the buffer

  /** The buffer for the next request of a kept-alive connection: what follows the head, if it shows
      another CRLFCRLF; otherwise nothing. */
  function NextBuffer(buf: string): (next: string)
    ensures buf != "" ==> |next| < |buf|
    ensures buf == "" ==> next == ""
  {
    var end := HeadEnd(CStr(buf));
    if end.None? then ""
    else
      var n := end.value.pos + end.value.len;
      if n < |buf| && Find(CStr(buf[n..]), CRLF2).Some? then buf[n..] else ""
  }

  /** After a request with its body in the buffer, the next request is found in place exactly if there
      was no body and a whole CRLFCRLF follows, or if nothing follows at all: otherwise body bytes are
      taken for the next head, or the bytes that have arrived early are dropped. */
  lemma NextBufferIff(h: string, body: string, rest: string)
    requires WellFormedHead(h)
    ensures NextBuffer(h + body + rest) == rest
            <==> if Find(CStr(body + rest), CRLF2).Some? then body == "" else rest == ""
  {
    hide CStr, Find, NextBuffer, WellFormedHead;
    var x := body + rest;
    assert h + body + rest == h + x;
    NextBufferIs(h, x);
    assert x == rest <==> body == "";
    assert x == "" <==> body == "" && rest == "";
    if x == "" { NothingFound(); }
  }

  lemma NextBufferIs(h: string, x: string)
    requires WellFormedHead(h)
    ensures NextBuffer(h + x) == if Find(CStr(x), CRLF2).Some? then x else ""
  {
    hide CStr, Find, HeadEnd, WellFormedHead;
    HeadNulFree(h);
    CStrAppend(h, x);
    HeadEndAppend(h, CStr(x));
    assert (h + x)[|h|..] == x;
    if x == "" { NothingFound(); }
  }

  lemma HeadNulFree(h: string)
    requires WellFormedHead(h)
    ensures NulFree(h) && |h| >= 4
  {
  }

  lemma NothingFound()
    ensures Find(CStr(""), CRLF2) == None
  {
  }

  // ---------------------------------------------------------------- the connection

  datatype Outcome = Served(request: Request) | Refused(error: ParseError) | HeadTooLarge

  /** The requests handed to dispatch, in order, and the error that ends the connection, if any. */
  function Serve(feed: Feed, buf: string, maxBody: nat): seq<Outcome>
    requires ValidFeed(feed) && |buf| <= BUFFER_LIMIT
    decreases |buf + Concat(feed)|
  {
    var (feed1, buf1) := ReadHead(feed, buf);
    if !Complete(CStr(buf1)) then (if |buf1| >= BUFFER_LIMIT then [HeadTooLarge] else [])
    else
      var (parsed, feed2) := ParseRequest(feed1, buf1, maxBody);
      match parsed
      case Error(e) => [Refused(e)]
      case Ok(request) =>
        ParseConsumes(feed1, buf1, maxBody);
        [Served(request)] + (if request.keepAlive then Serve(feed2, NextBuffer(buf1), maxBody) else [])
  }

  lemma {:induction false} ReadMoreConsumes(feed: Feed, need: nat)
    requires ValidFeed(feed)
    ensures |Concat(ReadMore(feed, need).1)| <= |Concat(feed)|
  {
    ReadMoreTakes(feed, need);
  }

  lemma ParseConsumes(feed: Feed, buf: string, maxBody: nat)
    requires ValidFeed(feed) && Complete(CStr(buf))
    ensures |Concat(ParseRequest(feed, buf, maxBody).1)| <= |Concat(feed)|
    ensures buf != ""
  {
    var head := ParseHead(CStr(buf), maxBody);
    if head.GoodHead? && head.length > |buf| - head.bodyStart {
      ReadMoreConsumes(feed, head.length - (|buf| - head.bodyStart));
    }
  }

  /** The part of what follows a head that can be in the buffer with it. */
  function Bufferable(h: string, tail: string): (x: string)
    requires |h| <= BUFFER_LIMIT
  {
    tail[..Min(|tail|, BUFFER_LIMIT - |h|)]
  }

  lemma NoneInPrefix(x: string, y: string)
    requires x <= y && Find(CStr(y), CRLF2) == None
    ensures Find(CStr(x), CRLF2) == None
  {
    hide CStr;
    CStrOfPrefix(x, y);
    forall i: nat | i + 4 <= |CStr(x)|
      ensures !OccursAt(CStr(x), CRLF2, i)
    {
      assert CStr(x)[i..i + 4] == CStr(y)[i..i + 4];
      assert !OccursAt(CStr(y), CRLF2, i);
    }
  }

  lemma {:induction false} CStrOfPrefix(x: string, y: string)
    requires x <= y
    ensures CStr(x) <= CStr(y)
  {
    if x != "" && x[0] != NUL { CStrOfPrefix(x[1..], y[1..]); }
  }

  /** The first outcome of a stream that starts with the head h and goes on with `tail`. */
  function FirstOutcome(h: string, tail: string, maxBody: nat): Outcome
    requires AnyHead(h)
  {
    if |h| > BUFFER_LIMIT then HeadTooLarge
    else
      match ParseHead(h, maxBody)
      case BadHead(e) => Refused(e)
      case GoodHead(_, _, _, _, n) =>
        if |tail| < n then Refused(BodyTooLarge) else OutcomeOf(RequestOf(h, tail[..n], maxBody))
  }

  function OutcomeOf(p: Parsed): Outcome {
    match p
    case Ok(request) => Served(request)
    case Error(e) => Refused(e)
  }

  /** Whatever is in the buffer with its head, the head ends where it ends: for a head that ends in LFLF
      this needs that no CRLFCRLF can be buffered behind it. */
  predicate EndStays(h: string, tail: string) {
    |h| <= BUFFER_LIMIT ==> Clear(h, CStr(Bufferable(h, tail)))
  }

  lemma EndStaysBuffered(h: string, x: string, more: string)
    requires EndStays(h, x + more) && |h + x| <= BUFFER_LIMIT
    ensures Clear(h, CStr(x)) && x <= Bufferable(h, x + more)
  {
    hide CStr, Find, WellFormedHead;
    var b := Bufferable(h, x + more);
    assert x <= b;
    if !WellFormedHead(h) { NoneInPrefix(x, b); }
  }

  /** Segmentation does not matter: however the stream is cut into pieces, the first outcome is the one
      its bytes make: the request with exactly the announced bytes as its body, or the error; and an
      error is the last outcome. */
  lemma FirstRequestIndependentOfPieces(feed: Feed, h: string, tail: string, maxBody: nat)
    requires ValidFeed(feed) && Concat(feed) == h + tail && AnyHead(h) && RequestLine(h).Some? && EndStays(h, tail)
    ensures var outcomes := Serve(feed, "", maxBody);
            && outcomes != []
            && outcomes[0] == FirstOutcome(h, tail, maxBody)
            && (!outcomes[0].Served? ==> |outcomes| == 1)
  {
    if |h| > BUFFER_LIMIT {
      LongHeadIsRefused(feed, h, tail, maxBody);
    } else {
      hide ParseHead, ParseRequest, RequestOf, AnyHead, RequestLine, ReadHead, Complete, CStr, EndStays;
      assert h[..0] == "" && h[..0] + Concat(feed) == Concat(feed);
      var x := ReadHeadFinds(feed, 0, h, tail);
      HeadComplete(h, x);
      EndStaysBuffered(h, x, Concat(ReadHead(feed, "").0));
      ParseMakesOutcome(ReadHead(feed, "").0, h, x, tail, maxBody);
    }
  }

  /** The stream is answered with 400, however it is cut. */
  ghost predicate BadInAllCuts(h: string, tail: string, maxBody: nat) {
    forall feed :: ValidFeed(feed) && Concat(feed) == h + tail ==> Serve(feed, "", maxBody) == [Refused(BadRequest)]
  }

  /** A head with fewer than two words is answered with 400 under all cuts exactly if its first line does
      not end before the separator, or no cut puts the missing words into the buffer. */
  lemma ShortLineIff(h: string, tail: string, maxBody: nat)
    requires AnyHead(h) && |h| <= BUFFER_LIMIT && RequestLine(h).None? && EndStays(h, tail)
    ensures |h| >= SepLength(h)
    ensures BadInAllCuts(h, tail, maxBody)
            <==> '\n' !in h[..|h| - SepLength(h)] || RequestLine(h + CStr(Bufferable(h, tail))).None?
  {
    hide AnyHead, SepLength, CStr, RequestLine, Serve, EndStays, Bufferable, Concat, ValidFeed, ReadHead;
    SeparatorInHead(h);
    var b := Bufferable(h, tail);
    if '\n' !in h[..|h| - SepLength(h)] || RequestLine(h + CStr(b)).None? {
      forall feed | ValidFeed(feed) && Concat(feed) == h + tail
        ensures Serve(feed, "", maxBody) == [Refused(BadRequest)]
      {
        var x := ShortLineServed(feed, h, tail, maxBody);
        StillShort(h, x, b);
      }
    } else {
      BufferableFits(h, tail);
      var feed := CutBehind(h, tail, |b|);
      var x := ShortLineServed(feed, h, tail, maxBody);
      ReadsFirst(feed, h, tail, |b|);
      assert (h + x)[|h|..] == x && (h + b)[|h|..] == b;
    }
  }

  lemma BufferableFits(h: string, tail: string)
    requires |h| <= BUFFER_LIMIT
    ensures var b := Bufferable(h, tail); |h| + |b| <= BUFFER_LIMIT && |b| <= |tail| && b == tail[..|b|]
  {
  }

  lemma StillShort(h: string, x: string, b: string)
    requires x <= b
    ensures RequestLine(h + CStr(b)).None? ==> RequestLine(h + CStr(x)).None?
  {
    hide CStr, RequestLine;
    CStrOfPrefix(x, b);
    var more := CStr(b)[|CStr(x)|..];
    assert h + CStr(b) == (h + CStr(x)) + more;
    if RequestLine(h + CStr(x)).Some? { RequestLineStays(h + CStr(x), more); }
  }

  lemma ShortLineServed(feed: Feed, h: string, tail: string, maxBody: nat) returns (x: string)
    requires AnyHead(h) && |h| <= BUFFER_LIMIT && RequestLine(h).None? && EndStays(h, tail)
    requires ValidFeed(feed) && Concat(feed) == h + tail
    ensures ReadHead(feed, "").1 == h + x && x <= Bufferable(h, tail) && |h| >= SepLength(h)
    ensures Serve(feed, "", maxBody) == [Refused(BadRequest)]
            <==> '\n' !in h[..|h| - SepLength(h)] || RequestLine(h + CStr(x)).None?
  {
    hide ParseHead, ParseRequest, AnyHead, RequestLine, ReadHead, Complete, CStr, EndStays, Clear, SepLength, Serve, NextBuffer, Concat;
    assert h[..0] == "" && h[..0] + Concat(feed) == Concat(feed);
    x := ReadHeadFinds(feed, 0, h, tail);
    var feed1 := ReadHead(feed, "").0;
    HeadComplete(h, x);
    EndStaysBuffered(h, x, Concat(feed1));
    ShortLineInBuffer(h, x, maxBody);
    BadRequestByHead(feed1, h + x, maxBody);
    ServeBad(feed, maxBody);
  }

  lemma ServeBad(feed: Feed, maxBody: nat)
    requires ValidFeed(feed) && Complete(CStr(ReadHead(feed, "").1))
    ensures var (feed1, buf1) := ReadHead(feed, "");
            Serve(feed, "", maxBody) == [Refused(BadRequest)] <==> ParseRequest(feed1, buf1, maxBody).0 == Error(BadRequest)
  {
    hide ParseRequest, ReadHead, Complete, CStr, NextBuffer, Concat, Serve;
    ServeUnfolds(feed, "", maxBody);
    var (feed1, buf1) := ReadHead(feed, "");
    assert Serve(feed, "", maxBody)[0] == OutcomeOf(ParseRequest(feed1, buf1, maxBody).0);
  }

  lemma ParseMakesOutcome(feed: Feed, h: string, x: string, tail: string, maxBody: nat)
    requires ValidFeed(feed) && AnyHead(h) && Clear(h, CStr(x)) && RequestLine(h).Some? && |h| <= BUFFER_LIMIT
    requires x + Concat(feed) == tail
    ensures OutcomeOf(ParseRequest(feed, h + x, maxBody).0) == FirstOutcome(h, tail, maxBody)
  {
    hide ParseHead, ParseRequest, RequestOf, AnyHead, Clear, CStr, RequestLine;
    var head := ParseHead(h, maxBody);
    if head.BadHead? {
      ParseRefused(feed, h, x, maxBody);
    } else if |tail| < head.length {
      ParseShort(feed, h, x, maxBody);
    } else {
      var body, rest := tail[..head.length], tail[head.length..];
      assert body + rest == tail;
      ParseTakesBody(feed, h, x, body, rest, maxBody);
    }
  }

  /** While nothing complete has arrived, the loop goes on to the end of the stream or of the buffer. */
  lemma {:induction false} ReadHeadRunsOn(feed: Feed, buf: string, all: string)
    requires ValidFeed(feed) && |buf| <= BUFFER_LIMIT && buf + Concat(feed) == all
    requires forall j :: 0 <= j <= Min(|all|, BUFFER_LIMIT) ==> !Complete(CStr(all[..j]))
    ensures ReadHead(feed, buf).1 == all[..Min(|all|, BUFFER_LIMIT)]
    decreases BUFFER_LIMIT - |buf|
  {
    hide Complete, CStr, Recv, Concat;
    assert buf == all[..|buf|];
    if |buf| < BUFFER_LIMIT {
      ReadHeadStep(feed, buf);
      var (data, rest) := Recv(feed, BUFFER_LIMIT - |buf|);
      if data.Some? {
        Assoc(buf, data.value, Concat(rest));
        ReadHeadRunsOn(rest, buf + data.value, all);
      } else {
        NothingArrives();
      }
    } else {
      ReadHeadStops(feed, buf);
    }
  }

  lemma NothingArrives()
    ensures Concat([]) == ""
  {
  }

  /** A head that does not fit the buffer is refused, whatever follows it. */
  lemma LongHeadIsRefused(feed: Feed, h: string, tail: string, maxBody: nat)
    requires ValidFeed(feed) && AnyHead(h) && |h| > BUFFER_LIMIT && Concat(feed) == h + tail
    ensures Serve(feed, "", maxBody) == [HeadTooLarge]
  {
    hide AnyHead, Complete, CStr, ReadHead;
    forall j | 0 <= j <= BUFFER_LIMIT
      ensures !Complete(CStr((h + tail)[..j]))
    {
      assert (h + tail)[..j] == h[..j];
      PrefixNulFree(h, j);
    }
    assert "" + Concat(feed) == h + tail;
    ReadHeadRunsOn(feed, "", h + tail);
  }

  /** A stream that ends inside a head gets no request served, and an answer only if the buffer is full. */
  lemma CutHeadIsNotServed(feed: Feed, h: string, k: nat, maxBody: nat)
    requires ValidFeed(feed) && AnyHead(h) && k < |h| && Concat(feed) == h[..k]
    ensures Serve(feed, "", maxBody) == if k >= BUFFER_LIMIT then [HeadTooLarge] else []
  {
    hide AnyHead, Complete, CStr, ReadHead;
    forall j | 0 <= j <= k
      ensures !Complete(CStr(h[..k][..j]))
    {
      assert h[..k][..j] == h[..j];
      PrefixNulFree(h, j);
    }
    assert "" + Concat(feed) == h[..k];
    ReadHeadRunsOn(feed, "", h[..k]);
  }

  // ---------------------------------------------------------------- pipelining

  /** A request that keeps the connection open: a head and the body it announces. */
  predicate KeptAlive(h: string, body: string, maxBody: nat) {
    && WellFormedHead(h) && RequestLine(h).Some?
    && ParseHead(h, maxBody).GoodHead? && ParseHead(h, maxBody).length == |body|
    && RequestOf(h, body, maxBody).Ok? && RequestOf(h, body, maxBody).request.keepAlive
  }

  /** A body-less one. */
  predicate Pipelined(h: string, maxBody: nat) { KeptAlive(h, "", maxBody) }

  predicate AllPipelined(hs: seq<string>, maxBody: nat) {
    forall i :: 0 <= i < |hs| ==> Pipelined(hs[i], maxBody)
  }

  /** Each of the requests as if it were alone. */
  function Alone(hs: seq<string>, maxBody: nat): seq<Outcome>
    requires AllPipelined(hs, maxBody)
  {
    seq(|hs|, i requires 0 <= i < |hs| && Pipelined(hs[i], maxBody) => Served(RequestOf(hs[i], "", maxBody).request))
  }

  /** A buffered head is parsed at once, and leaves the next ones in the buffer. */
  lemma ServeBuffered(feed: Feed, h: string, x: string, maxBody: nat)
    requires ValidFeed(feed) && Pipelined(h, maxBody) && |h + x| <= BUFFER_LIMIT
    ensures Serve(feed, h + x, maxBody)
            == [Served(RequestOf(h, "", maxBody).request)] + Serve(feed, NextBuffer(h + x), maxBody)
  {
    hide ParseHead, ParseRequest, RequestOf, WellFormedHead, RequestLine, Complete, CStr, NextBuffer;
    HeadComplete(h, x);
    ParseBuffered(feed, h, x, maxBody, 0);
    assert x[..0] == "";
    NextBufferShorter(h + x);
  }

  lemma NextBufferShorter(buf: string)
    ensures |NextBuffer(buf)| <= |buf|
  {
  }

  lemma NextBufferOfHeads(h: string, x: string)
    requires WellFormedHead(h)
    ensures x == "" ==> NextBuffer(h + x) == ""
    ensures Complete(CStr(x)) && Find(CStr(x), CRLF2).Some? ==> NextBuffer(h + x) == x
  {
    NextBufferIff(h, "", x);
    assert h + "" + x == h + x && "" + x == x;
    if x == "" { assert CStr(x) == ""; }
  }

  lemma HeadsStart(h: string, x: string)
    requires WellFormedHead(h)
    ensures Complete(CStr(h + x)) && Find(CStr(h + x), CRLF2).Some?
  {
    HeadComplete(h, x);
    CStrAppend(h, x);
    HeadEndAppend(h, CStr(x));
    OccursAppend(h, CStr(x), CRLF2, |h| - 4);
  }

  /** A buffer that holds only complete body-less keep-alive requests: they are served in order, each
      as if it were alone, and then the connection goes on with an empty buffer. */
  lemma {:induction false} PipelineInBuffer(feed: Feed, hs: seq<string>, maxBody: nat)
    requires ValidFeed(feed) && hs != [] && AllPipelined(hs, maxBody) && |Concat(hs)| <= BUFFER_LIMIT
    ensures Serve(feed, Concat(hs), maxBody) == Alone(hs, maxBody) + Serve(feed, "", maxBody)
    decreases |hs|
  {
    hide Serve, Pipelined, ParseHead, RequestOf, NextBuffer, Complete, Find;
    var h, rest := hs[0], Concat(hs[1..]);
    assert Pipelined(h, maxBody);
    PipelinedIsHead(h, maxBody);
    ServeBuffered(feed, h, rest, maxBody);
    NextBufferOfHeads(h, rest);
    if |hs| > 1 {
      assert forall i :: 0 <= i < |hs| - 1 ==> hs[1..][i] == hs[i + 1];
      assert rest == hs[1] + Concat(hs[1..][1..]);
      PipelinedIsHead(hs[1], maxBody);
      HeadsStart(hs[1], Concat(hs[1..][1..]));
      PipelineInBuffer(feed, hs[1..], maxBody);
      Assoc([Served(RequestOf(h, "", maxBody).request)], Alone(hs[1..], maxBody), Serve(feed, "", maxBody));
      assert Alone(hs, maxBody) == [Served(RequestOf(h, "", maxBody).request)] + Alone(hs[1..], maxBody);
    } else {
      assert hs[1..] == [] && rest == "";
      assert Alone(hs, maxBody) == [Served(RequestOf(h, "", maxBody).request)];
    }
  }

  lemma PipelinedIsHead(h: string, maxBody: nat)
    requires Pipelined(h, maxBody)
    ensures WellFormedHead(h)
    ensures RequestOf(h, "", maxBody).Ok?
  {
  }

  /** Pipelining: if the first piece that arrives is a sequence of complete body-less keep-alive requests,
      exactly these are served, in order, each parsed as if it were alone. */
  lemma PipelineServed(feed: Feed, hs: seq<string>, maxBody: nat)
    requires ValidFeed(feed) && hs != [] && AllPipelined(hs, maxBody) && |Concat(hs)| <= BUFFER_LIMIT
    ensures Concat(hs) != "" && ValidFeed([Concat(hs)] + feed)
    ensures Serve([Concat(hs)] + feed, "", maxBody) == Alone(hs, maxBody) + Serve(feed, "", maxBody)
  {
    hide Pipelined, ParseHead, RequestOf, NextBuffer, Find, ParseRequest;
    var all := Concat(hs);
    assert Pipelined(hs[0], maxBody);
    PipelinedIsHead(hs[0], maxBody);
    HeadsStart(hs[0], Concat(hs[1..]));
    assert all == hs[0] + Concat(hs[1..]);
    ReadsWhole(feed, all);
    ServeSame([all] + feed, "", feed, all, maxBody);
    PipelineInBuffer(feed, hs, maxBody);
  }

  lemma ReadsWhole(feed: Feed, all: string)
    requires ValidFeed(feed) && 0 < |all| <= BUFFER_LIMIT && Complete(CStr(all))
    ensures ValidFeed([all] + feed)
    ensures ReadHead([all] + feed, "") == (feed, all) == ReadHead(feed, all)
  {
    var fed := [all] + feed;
    assert fed[1..] == feed && CStr("") == "";
    assert "" + all == all;
    assert Recv(fed, BUFFER_LIMIT) == (Some(all), feed);
  }

  /** The connection only depends on where the read loop ends. */
  lemma ServeSame(feed: Feed, buf: string, feed': Feed, buf': string, maxBody: nat)
    requires ValidFeed(feed) && ValidFeed(feed') && |buf| <= BUFFER_LIMIT && |buf'| <= BUFFER_LIMIT
    requires ReadHead(feed, buf) == ReadHead(feed', buf')
    ensures Serve(feed, buf, maxBody) == Serve(feed', buf', maxBody)
  {
  }

  // ---------------------------------------------------------------- keeping alive behind a body

  lemma {:induction false} ReadHeadAppend(a: Feed, b: Feed, buf: string)
    requires ValidFeed(a) && ValidFeed(b) && |buf| <= BUFFER_LIMIT && Complete(CStr(ReadHead(a, buf).1))
    ensures ValidFeed(a + b) && ReadHead(a + b, buf) == (ReadHead(a, buf).0 + b, ReadHead(a, buf).1)
    decreases BUFFER_LIMIT - |buf|
  {
    hide Complete, CStr, Recv;
    if !Complete(CStr(buf)) && |buf| < BUFFER_LIMIT {
      assert a != [];
      RecvAppend(a, b, BUFFER_LIMIT - |buf|);
      var (data, rest) := Recv(a, BUFFER_LIMIT - |buf|);
      ReadHeadAppend(rest, b, buf + data.value);
    }
  }

  /** One request of a kept-alive connection, in any pieces of its own: it is served as if alone, and
      all it leaves are the bytes x of its body that came with the head, if they show CRLFCRLF. */
  lemma KeptAliveTurn(part: Feed, feed: Feed, h: string, body: string, maxBody: nat) returns (x: string)
    requires ValidFeed(part) && ValidFeed(feed) && Concat(part) == h + body
    requires KeptAlive(h, body, maxBody) && |h| <= BUFFER_LIMIT
    ensures ReadHead(part, "").1 == h + x && |h + x| <= BUFFER_LIMIT && x <= body
    ensures ValidFeed(part + feed)
    ensures Serve(part + feed, "", maxBody)
            == [Served(RequestOf(h, body, maxBody).request)]
               + Serve(feed, if Find(CStr(x), CRLF2).Some? then x else "", maxBody)
  {
    hide ParseHead, ParseRequest, RequestOf, WellFormedHead, RequestLine, ReadHead, Complete, CStr, NextBuffer, Concat, Find, Serve;
    assert h[..0] == "" && h[..0] + Concat(part) == Concat(part);
    x := ReadHeadFinds(part, 0, h, body);
    var rest := ReadHead(part, "").0;
    HeadComplete(h, x);
    ReadHeadAppend(part, feed, "");
    assert body + "" == body;
    ParseTakesBody(rest, h, x, body, "", maxBody);
    NothingLeft(ParseRequest(rest, h + x, maxBody).1, x, rest, body);
    ParseRequestAppend(rest, feed, h + x, maxBody);
    assert [] + feed == feed;
    NextBufferIs(h, x);
    ServeUnfolds(part + feed, "", maxBody);
  }

  /** A whole body leaves nothing on the stream. */
  lemma NothingLeft(left: Feed, x: string, rest: Feed, body: string)
    requires ValidFeed(left) && ValidFeed(rest) && x + Concat(rest) == body
    requires |x| <= |body| ==> Concat(left) == ""
    ensures left == [] && x <= body
  {
    assert body[..|x|] == x;
  }

  /** In whatever pieces the request arrives, as long as none of them goes past its end, it is served once
      and the connection goes on with what follows it. */
  ghost predicate ServedAsOne(h: string, body: string, maxBody: nat)
    requires KeptAlive(h, body, maxBody)
  {
    forall part, feed :: ValidFeed(part) && ValidFeed(feed) && Concat(part) == h + body ==>
      && ValidFeed(part + feed)
      && Serve(part + feed, "", maxBody) == [Served(RequestOf(h, body, maxBody).request)] + Serve(feed, "", maxBody)
  }

  /** With bodies, keep-alive works in all pieces that end where the request ends exactly if what can be
      buffered of the body shows no CRLFCRLF. */
  lemma ServedAsOneIff(h: string, body: string, maxBody: nat)
    requires KeptAlive(h, body, maxBody) && |h| <= BUFFER_LIMIT
    ensures ServedAsOne(h, body, maxBody) <==> Find(CStr(Bufferable(h, body)), CRLF2) == None
  {
    hide Find, CStr, Serve, RequestOf, ReadHead, ParseHead, WellFormedHead, RequestLine;
    var b := Bufferable(h, body);
    if Find(CStr(b), CRLF2).None? {
      forall part, feed | ValidFeed(part) && ValidFeed(feed) && Concat(part) == h + body
        ensures ValidFeed(part + feed)
        ensures Serve(part + feed, "", maxBody) == [Served(RequestOf(h, body, maxBody).request)] + Serve(feed, "", maxBody)
      {
        var x := KeptAliveTurn(part, feed, h, body, maxBody);
        assert x <= b;
        NoneInPrefix(x, b);
      }
    } else {
      BodyTakenForHead(h, body, maxBody);
    }
  }

  /** Otherwise there are pieces for which body bytes are taken for the next head. */
  lemma BodyTakenForHead(h: string, body: string, maxBody: nat)
    requires KeptAlive(h, body, maxBody) && |h| <= BUFFER_LIMIT && Find(CStr(Bufferable(h, body)), CRLF2).Some?
    ensures !ServedAsOne(h, body, maxBody)
  {
    hide Find, CStr, RequestOf, ReadHead, ParseRequest, WellFormedHead, RequestLine, ParseHead, Complete, NextBuffer, Serve;
    var b := Bufferable(h, body);
    var part, nothing: Feed := [h + body], [];
    assert Concat(part) == h + body && ValidFeed(part) && ValidFeed(nothing);
    var x := KeptAliveTurn(part, nothing, h, body, maxBody);
    ReadsAll(h + body);
    assert x == b;
    SomethingHappens(x, maxBody);
    NothingHappens(maxBody);
    var one := [Served(RequestOf(h, body, maxBody).request)];
    assert |one + Serve(nothing, x, maxBody)| > |one + Serve(nothing, "", maxBody)|;
  }

  /** The first read takes all there is, up to the end of the buffer. */
  lemma ReadsAll(s: string)
    requires s != ""
    ensures ReadHead([s], "").1 == s[..Min(|s|, BUFFER_LIMIT)]
  {
    hide Complete;
    var (data, rest) := Recv([s], BUFFER_LIMIT);
    assert CStr("") == "" && !Complete("") by { NothingIncomplete(); }
    assert "" + data.value == s[..Min(|s|, BUFFER_LIMIT)];
  }

  lemma SomethingHappens(x: string, maxBody: nat)
    requires |x| <= BUFFER_LIMIT && Find(CStr(x), CRLF2).Some?
    ensures Serve([], x, maxBody) != []
  {
    hide Find, CStr, ParseRequest;
  }

  lemma NothingHappens(maxBody: nat)
    ensures Serve([], "", maxBody) == []
  {
    NothingIncomplete();
    assert CStr("") == "";
  }

  /** A head and its body. */
  datatype Message = Message(head: string, body: string)

  predicate Servable(m: Message, maxBody: nat) {
    KeptAlive(m.head, m.body, maxBody) && |m.head| <= BUFFER_LIMIT && Find(CStr(Bufferable(m.head, m.body)), CRLF2) == None
  }

  predicate AllServable(ms: seq<Message>, maxBody: nat) {
    forall i :: 0 <= i < |ms| ==> Servable(ms[i], maxBody)
  }

  /** Each of the requests as if it were alone. */
  function EachOf(ms: seq<Message>, maxBody: nat): seq<Outcome>
    requires AllServable(ms, maxBody)
  {
    if ms == [] then []
    else
      assert Servable(ms[0], maxBody);
      [Served(RequestOf(ms[0].head, ms[0].body, maxBody).request)] + EachOf(ms[1..], maxBody)
  }

  /** So a connection of such requests, each in any pieces of its own, serves exactly these, in order. */
  lemma {:induction false} KeptAliveServed(parts: seq<Feed>, ms: seq<Message>, feed: Feed, maxBody: nat)
    requires |parts| == |ms| && AllServable(ms, maxBody) && ValidFeed(feed)
    requires forall i :: 0 <= i < |ms| ==> ValidFeed(parts[i]) && Concat(parts[i]) == ms[i].head + ms[i].body
    ensures ValidFeed(Together(parts, feed))
    ensures Serve(Together(parts, feed), "", maxBody) == EachOf(ms, maxBody) + Serve(feed, "", maxBody)
    decreases |ms|
  {
    hide Find, CStr, Serve, RequestOf, ParseHead, WellFormedHead, RequestLine, Concat, ValidFeed;
    if ms == [] {
      assert [] + Serve(feed, "", maxBody) == Serve(feed, "", maxBody);
    } else {
      KeptAliveServed(parts[1..], ms[1..], feed, maxBody);
      ServedFirst(parts[0], Together(parts[1..], feed), ms[0], maxBody);
      Assoc([Served(RequestOf(ms[0].head, ms[0].body, maxBody).request)], EachOf(ms[1..], maxBody), Serve(feed, "", maxBody));
    }
  }

  lemma ServedFirst(part: Feed, feed: Feed, m: Message, maxBody: nat)
    requires Servable(m, maxBody) && ValidFeed(part) && ValidFeed(feed) && Concat(part) == m.head + m.body
    ensures ValidFeed(part + feed)
    ensures Serve(part + feed, "", maxBody)
            == [Served(RequestOf(m.head, m.body, maxBody).request)] + Serve(feed, "", maxBody)
  {
    hide Find, CStr, Serve, RequestOf, ParseHead, WellFormedHead, RequestLine, Concat, ValidFeed;
    ServedAsOneIff(m.head, m.body, maxBody);
  }

  /** The pieces of the requests, one after the other, and then feed. */
  function Together(parts: seq<Feed>, feed: Feed): Feed {
    if parts == [] then feed else parts[0] + Together(parts[1..], feed)
  }

  // ---------------------------------------------------------------- any cut of the whole stream

  /** What the turn for the next request starts from: its buffer, and the stream behind that. */
  function Left(feed: Feed, maxBody: nat): string
    requires ValidFeed(feed)
  {
    var (feed1, buf1) := ReadHead(feed, "");
    NextBuffer(buf1) + Concat(ParseRequest(feed1, buf1, maxBody).1)
  }

  /** However the whole stream is cut, the next turn starts with exactly what follows the request. */
  ghost predicate NothingLost(h: string, body: string, rest: string, maxBody: nat) {
    forall feed :: ValidFeed(feed) && Concat(feed) == h + body + rest ==> Left(feed, maxBody) == rest
  }

  /** No read can reach behind the request, and none can show the end of a head inside its body. */
  predicate Sealed(h: string, body: string, rest: string)
    requires |h| <= BUFFER_LIMIT
  {
    Find(CStr(Bufferable(h, body)), CRLF2) == None && (rest == "" || |h + body| >= BUFFER_LIMIT)
  }

  /** The first turn on a kept-alive request, cut in any way together with what follows it. */
  lemma FirstTurn(feed: Feed, h: string, body: string, rest: string, maxBody: nat) returns (x: string, later: Feed)
    requires ValidFeed(feed) && Concat(feed) == h + body + rest && KeptAlive(h, body, maxBody) && |h| <= BUFFER_LIMIT
    ensures |h + x| <= BUFFER_LIMIT && ReadHead(feed, "").1 == h + x
    ensures ValidFeed(later) && later == ParseRequest(ReadHead(feed, "").0, h + x, maxBody).1
    ensures |x| <= |body| ==> x <= body && Concat(later) == rest
    ensures |x| >= |body| ==> later == ReadHead(feed, "").0 && x + Concat(later) == body + rest
    ensures var next := if Find(CStr(x), CRLF2).Some? then x else "";
            && Left(feed, maxBody) == next + Concat(later)
            && Serve(feed, "", maxBody) == [Served(RequestOf(h, body, maxBody).request)] + Serve(later, next, maxBody)
  {
    hide ParseHead, ParseRequest, RequestOf, WellFormedHead, RequestLine, ReadHead, Complete, CStr, NextBuffer, Concat, Find, Serve;
    assert h[..0] == "" && h[..0] + Concat(feed) == Concat(feed) && h + (body + rest) == h + body + rest;
    x := ReadHeadFinds(feed, 0, h, body + rest);
    var feed1 := ReadHead(feed, "").0;
    later := ParseRequest(feed1, h + x, maxBody).1;
    HeadComplete(h, x);
    ParseTakesBody(feed1, h, x, body, rest, maxBody);
    if |x| <= |body| { assert (x + Concat(feed1))[..|x|] == x && (body + rest)[..|x|] == body[..|x|]; }
    NextBufferIs(h, x);
    ServeUnfolds(feed, "", maxBody);
  }

  /** A sealed request is served whole and leaves what follows it, under every cut of the stream. */
  lemma SealedTurn(feed: Feed, h: string, body: string, rest: string, maxBody: nat) returns (later: Feed)
    requires ValidFeed(feed) && Concat(feed) == h + body + rest && KeptAlive(h, body, maxBody) && |h| <= BUFFER_LIMIT
    requires Sealed(h, body, rest)
    ensures ValidFeed(later) && Concat(later) == rest && Left(feed, maxBody) == rest
    ensures Serve(feed, "", maxBody) == [Served(RequestOf(h, body, maxBody).request)] + Serve(later, "", maxBody)
  {
    hide KeptAlive, Find, CStr, Serve, RequestOf, ReadHead, Left, ParseRequest, Concat;
    var x;
    x, later := FirstTurn(feed, h, body, rest, maxBody);
    StreamLength(feed, h, x, body, rest);
    assert x <= Bufferable(h, body);
    NoneInPrefix(x, Bufferable(h, body));
  }

  lemma StreamLength(feed: Feed, h: string, x: string, body: string, rest: string)
    requires ValidFeed(feed) && Concat(feed) == h + body + rest && ReadHead(feed, "").1 == h + x && |h + x| <= BUFFER_LIMIT
    requires rest == "" || |h + body| >= BUFFER_LIMIT
    ensures |x| <= |body|
  {
    hide ReadHead, Concat;
    assert |h + x + Concat(ReadHead(feed, "").0)| == |h + body + rest|;
  }

  /** Exactly then is nothing lost and nothing read twice: otherwise either body bytes are taken for a head,
      or a read that takes the first byte of what follows loses it or brings the body back. */
  lemma NothingLostIff(h: string, body: string, rest: string, maxBody: nat)
    requires KeptAlive(h, body, maxBody) && |h| <= BUFFER_LIMIT
    ensures NothingLost(h, body, rest, maxBody) <==> Sealed(h, body, rest)
  {
    hide KeptAlive, Left, Sealed;
    if Sealed(h, body, rest) {
      forall feed | ValidFeed(feed) && Concat(feed) == h + body + rest
        ensures Left(feed, maxBody) == rest
      {
        var later := SealedTurn(feed, h, body, rest, maxBody);
      }
    } else {
      var feed := BadCut(h, body, rest, maxBody);
    }
  }

  lemma BadCut(h: string, body: string, rest: string, maxBody: nat) returns (feed: Feed)
    requires KeptAlive(h, body, maxBody) && |h| <= BUFFER_LIMIT && !Sealed(h, body, rest)
    ensures ValidFeed(feed) && Concat(feed) == h + body + rest && Left(feed, maxBody) != rest
  {
    hide KeptAlive, Find, CStr, Left, ReadHead, ParseRequest, Serve, RequestOf, ValidFeed, Concat;
    var inBody := Find(CStr(Bufferable(h, body)), CRLF2).Some?;
    var n := if inBody then |Bufferable(h, body)| else |body| + 1;
    KeptAliveIsHead(h, body, maxBody);
    feed := CutBehind(h, body + rest, n);
    assert h + (body + rest) == h + body + rest;
    var x, later := FirstTurn(feed, h, body, rest, maxBody);
    ReadsFirst(feed, h, body + rest, n);
    assert x == (body + rest)[..n];
    if inBody {
      assert x == Bufferable(h, body);
    } else {
      assert |x + Concat(later)| == |body + rest|;
    }
  }

  lemma KeptAliveIsHead(h: string, body: string, maxBody: nat)
    requires KeptAlive(h, body, maxBody)
    ensures WellFormedHead(h) && h != ""
  {
  }

  /** A stream whose first piece is h and the first n bytes behind it. */
  lemma CutBehind(h: string, s: string, n: nat) returns (feed: Feed)
    requires h != "" && n <= |s|
    ensures ValidFeed(feed) && Concat(feed) == h + s && feed != [] && feed[0] == h + s[..n]
  {
    if n < |s| {
      feed := [h + s[..n], s[n..]];
      assert feed[1..] == [s[n..]] && Concat(feed[1..]) == s[n..] + "";
      assert h + s[..n] + s[n..] == h + s;
    } else {
      feed := [h + s];
      assert feed[1..] == [] && s[..n] == s && Concat(feed) == h + s + "";
    }
  }

  lemma ReadsFirst(feed: Feed, h: string, s: string, n: nat)
    requires ValidFeed(feed) && feed != [] && n <= |s| && feed[0] == h + s[..n] && |h| + n <= BUFFER_LIMIT && AnyHead(h)
    ensures ReadHead(feed, "").1 == h + s[..n]
  {
    hide AnyHead;
    HeadComplete(h, s[..n]);
    SeparatorInHead(h);
    assert feed == [feed[0]] + feed[1..];
    ReadsWhole(feed[1..], h + s[..n]);
  }

  /** So a stream of such requests, cut in any way, serves exactly these, in order, and goes on with what follows. */
  lemma {:induction false} SealedServed(feed: Feed, ms: seq<Message>, rest: string, maxBody: nat) returns (later: Feed)
    requires ValidFeed(feed) && Concat(feed) == TextOf(ms) + rest && AllServable(ms, maxBody)
    requires forall i :: 0 <= i < |ms| && (i < |ms| - 1 || rest != "") ==> |ms[i].head + ms[i].body| >= BUFFER_LIMIT
    ensures ValidFeed(later) && Concat(later) == rest
    ensures Serve(feed, "", maxBody) == EachOf(ms, maxBody) + Serve(later, "", maxBody)
    decreases |ms|
  {
    hide Find, CStr, Serve, RequestOf, ParseHead, WellFormedHead, RequestLine, Concat, ValidFeed, Left;
    if ms == [] {
      later := feed;
      assert "" + rest == rest && [] + Serve(feed, "", maxBody) == Serve(feed, "", maxBody);
    } else {
      var m, behind := ms[0], TextOf(ms[1..]) + rest;
      assert m.head + m.body + behind == TextOf(ms) + rest;
      assert |ms| == 1 ==> TextOf(ms[1..]) == "" && "" + rest == rest;
      assert Servable(m, maxBody);
      var next := SealedTurn(feed, m.head, m.body, behind, maxBody);
      later := SealedServed(next, ms[1..], rest, maxBody);
      Assoc([Served(RequestOf(m.head, m.body, maxBody).request)], EachOf(ms[1..], maxBody), Serve(later, "", maxBody));
    }
  }

  function TextOf(ms: seq<Message>): string {
    if ms == [] then "" else ms[0].head + ms[0].body + TextOf(ms[1..])
  }

  // ---------------------------------------------------------------- a body served again

  /** A buffered body that is itself a request of this kind is served a second time, as that request. */
  lemma BodyServedAgain(feed: Feed, h: string, body: string, maxBody: nat)
    requires ValidFeed(feed) && KeptAlive(h, body, maxBody) && Pipelined(body, maxBody) && |h + body| <= BUFFER_LIMIT
    ensures ValidFeed([h + body] + feed)
    ensures Serve([h + body] + feed, "", maxBody)
            == [Served(RequestOf(h, body, maxBody).request), Served(RequestOf(body, "", maxBody).request)]
               + Serve(feed, "", maxBody)
  {
    hide Find, CStr, RequestOf, ReadHead, ParseRequest, WellFormedHead, RequestLine, ParseHead, Complete, Serve;
    var part: Feed := [h + body];
    assert Concat(part) == h + body;
    var x := KeptAliveTurn(part, feed, h, body, maxBody);
    ReadsAll(h + body);
    assert x == body;
    HeadsStart(body, "");
    assert body + "" == body && Concat([body]) == body;
    PipelineInBuffer(feed, [body], maxBody);
  }

  // ---------------------------------------------------------------- the connection handler

  class Socket {
    var feed: Feed
    var broken: bool   // whether an error or a timeout, and not a close, ends the stream

    ghost predicate Valid()
      reads this
    {
      ValidFeed(feed)
    }

    /** mnet_poll and mnet_recv. */
    method Receive(max: nat) returns (data: Option<string>)
      requires Valid() && max > 0
      modifies this
      ensures Valid() && (data, feed) == Recv(old(feed), max) && broken == old(broken)
    {
      var (received, rest) := Recv(feed, max);
      data, feed := received, rest;
    }
  }

  /** Copies data behind the first `used` characters. */
  method CopyInto(buffer: array<char>, used: nat, data: string)
    requires used + |data| <= buffer.Length
    modifies buffer
    ensures buffer[..used + |data|] == old(buffer[..used]) + data
  {
    ghost var before := buffer[..used];
    for i := 0 to |data|
      invariant buffer[..used + i] == before + data[..i]
    {
      buffer[used + i] := data[i];
      assert buffer[..used + i + 1] == buffer[..used + i] + [data[i]];
      assert data[..i + 1] == data[..i] + [data[i]];
    }
    assert data[..|data|] == data;
  }

  /** The read loop of mnet_handle_client. */
  method ReadHeadLoop(sock: Socket, buffer: array<char>, used: nat) returns (end: nat, have: bool)
    requires sock.Valid() && buffer.Length == BUFFER_LIMIT + 1 && used <= BUFFER_LIMIT
    modifies sock, buffer
    ensures sock.Valid() && end <= BUFFER_LIMIT
    ensures (sock.feed, buffer[..end]) == ReadHead(old(sock.feed), old(buffer[..used]))
    ensures have == Complete(CStr(buffer[..end]))
  {
    hide ReadHead, Recv, Complete, CStr, Concat;
    end := used;
    have := end > 0 && Complete(CStr(buffer[..end]));
    NothingIncomplete();
    while !have && end < BUFFER_LIMIT
      invariant sock.Valid() && end <= BUFFER_LIMIT
      invariant ReadHead(sock.feed, buffer[..end]) == ReadHead(old(sock.feed), old(buffer[..used]))
      invariant have == Complete(CStr(buffer[..end]))
      decreases BUFFER_LIMIT - end
    {
      ReadHeadStep(sock.feed, buffer[..end]);
      var data := sock.Receive(BUFFER_LIMIT - end);
      if data.None? {
        return;
      }
      CopyInto(buffer, end, data.value);
      end := end + |data.value|;
      have := Complete(CStr(buffer[..end]));
    }
    ReadHeadStops(sock.feed, buffer[..end]);
  }

  lemma ReadHeadStops(feed: Feed, buf: string)
    requires ValidFeed(feed) && |buf| <= BUFFER_LIMIT && (Complete(CStr(buf)) || |buf| == BUFFER_LIMIT)
    ensures ReadHead(feed, buf) == (feed, buf)
  {
  }

  lemma ReadHeadStep(feed: Feed, buf: string)
    requires ValidFeed(feed) && |buf| < BUFFER_LIMIT && !Complete(CStr(buf))
    ensures var (data, rest) := Recv(feed, BUFFER_LIMIT - |buf|);
            ReadHead(feed, buf) == if data.None? then (rest, buf) else ReadHead(rest, buf + data.value)
  {
  }

  lemma NothingIncomplete()
    ensures !Complete(CStr(""))
  {
  }

  /** The decision of read_full_body, by its three scans. */
  method PlanBodyLoop(v: string, end: nat, maxBody: nat) returns (plan: Plan)
    ensures plan == PlanBody(v, end, maxBody)
  {
    hide LineInitial, ParseLength;
    BothAreNeedles();
    var count, last := CountHeader(v, CONTENT_LENGTH, end);
    if count > 1 {
      return Refuse(DuplicateContentLength);
    }
    var chunked := HasHeader(v, TRANSFER_ENCODING, end);
    if chunked {
      return Refuse(UnsupportedTransferEncoding);
    }
    if last.None? {
      return Expect(0);
    }
    assert last.value in LineInitial(v, CONTENT_LENGTH, 0, end);
    HitFits(v, CONTENT_LENGTH, last.value);
    var length := ParseLengthLoop(v, last.value + |CONTENT_LENGTH|, maxBody);
    match length
    case Malformed => plan := Refuse(BadContentLength);
    case TooLarge => plan := Refuse(BodyTooLarge);
    case Length(n) => plan := Expect(n);
  }

  /** Received data put before what the rest of the loop delivers. */
  function Then(done: string, r: (Option<string>, Feed)): (Option<string>, Feed) {
    (if r.0.None? then None else Some(done + r.0.value), r.1)
  }

  lemma ThenOne(done: string, feed: Feed, need: nat)
    requires ValidFeed(feed) && need > 0
    ensures var (data, rest) := Recv(feed, need);
            Then(done, ReadMore(feed, need))
            == if data.None? then (None, rest) else Then(done + data.value, ReadMore(rest, need - |data.value|))
  {
    var (data, rest) := Recv(feed, need);
    if data.Some? {
      var more := ReadMore(rest, need - |data.value|).0;
      if more.Some? { Assoc(done, data.value, more.value); }
    }
  }

  /** The receive loop of read_full_body: fills a fresh block of `length` bytes, `initial` of them first. */
  method ReadBodyLoop(sock: Socket, initial: string, length: nat) returns (body: Option<string>)
    requires sock.Valid() && |initial| <= length
    modifies sock
    ensures sock.Valid()
    ensures (body, sock.feed) == Then(initial, ReadMore(old(sock.feed), length - |initial|))
  {
    hide ReadMore;
    var full := new char[length + 1];
    CopyInto(full, 0, initial);
    var total := |initial|;
    assert full[..total] == initial;
    while total < length
      invariant sock.Valid() && total <= length
      invariant Then(full[..total], ReadMore(sock.feed, length - total)) == Then(initial, ReadMore(old(sock.feed), length - |initial|))
    {
      ThenOne(full[..total], sock.feed, length - total);
      var data := sock.Receive(length - total);
      if data.None? {
        return None;
      }
      CopyInto(full, total, data.value);
      total := total + |data.value|;
    }
    NothingMore(full[..total], sock.feed);
    full[length] := NUL;
    return Some(full[..length]);
  }

  lemma NothingMore(done: string, feed: Feed)
    requires ValidFeed(feed)
    ensures Then(done, ReadMore(feed, 0)) == (Some(done), feed)
  {
    assert done + "" == done;
  }

  /** The loop over the stored headers: the last Cookie header counts, any Connection: keep-alive does. */
  method ScanHeaders(hs: seq<Header>) returns (cookies: seq<Pair>, keepAlive: bool)
    ensures cookies == CookiesOf(hs) && keepAlive == KeepsAlive(hs)
  {
    hide Same, Cookies.ParseCookies;
    cookies, keepAlive := [], false;
    for i := 0 to |hs|
      invariant cookies == CookiesOf(hs[..i]) && keepAlive == KeepsAlive(hs[..i])
    {
      assert hs[..i + 1][..i] == hs[..i] && hs[..i + 1][i] == hs[i];
      assert KeepsAlive(hs[..i + 1]) <==> KeepsAlive(hs[..i]) || (Same(hs[i].name, "connection") && Same(hs[i].value, "keep-alive")) by {
        AliveStep(hs, i);
      }
      if Same(hs[i].name, "cookie") {
        cookies := Cookies.ParseCookiesLoop(hs[i].value);
      }
      if Same(hs[i].name, "connection") && Same(hs[i].value, "keep-alive") {
        keepAlive := true;
      }
    }
    assert hs[..|hs|] == hs;
  }

  lemma AliveStep(hs: seq<Header>, i: nat)
    requires i < |hs|
    ensures KeepsAlive(hs[..i + 1]) <==> KeepsAlive(hs[..i]) || (Same(hs[i].name, "connection") && Same(hs[i].value, "keep-alive"))
  {
    hide Same;
    if KeepsAlive(hs[..i]) {
      var k :| 0 <= k < i && Same(hs[..i][k].name, "connection") && Same(hs[..i][k].value, "keep-alive");
      assert hs[..i + 1][k] == hs[..i][k];
    }
    if KeepsAlive(hs[..i + 1]) {
      var k :| 0 <= k < i + 1 && Same(hs[..i + 1][k].name, "connection") && Same(hs[..i + 1][k].value, "keep-alive");
      if k < i { assert hs[..i][k] == hs[..i + 1][k]; }
    }
    assert hs[..i + 1][i] == hs[i];
  }

  /** Assemble, with the loops of parse_headers, parse_request and parse_query_string. */
  method AssembleLoop(head: string, verb: Routes.Method, target: string, body: string) returns (parsed: Parsed)
    requires NulFree(target)
    ensures parsed == Assemble(head, verb, target, body)
  {
    hide ParseHeaders, CookiesOf, KeepsAlive, Query.ParsePairs, UpTo;
    var hs := ParseHeadersLoop(head);
    if hs.None? {
      return Error(HeadersTooLarge);
    }
    var mark := UpTo(target, '?');
    var query: Option<string>, pairs := None, [];
    if mark < |target| {
      query := Some(target[mark + 1..]);
      pairs := Query.ParseQueryString(target[mark + 1..]);
    }
    var cookies, keepAlive := ScanHeaders(hs.value);
    return Ok(Request(verb, target, target[..mark], query, pairs, hs.value, cookies, keepAlive, body));
  }

  lemma TargetNulFree(v: string)
    requires NulFree(v) && RequestLine(v).Some?
    ensures NulFree(RequestLine(v).value.1)
  {
    var first := ScanWord(v, MAX_METHOD).value.1;
    assert NulFree(first);
  }

  /** parse_request. */
  method ParseRequestCall(sock: Socket, buf: string, maxBody: nat) returns (parsed: Parsed)
    requires sock.Valid()
    modifies sock
    ensures sock.Valid()
    ensures (parsed, sock.feed) == ParseRequest(old(sock.feed), buf, maxBody)
  {
    hide CStr, RequestLine, PlanBody, ReadMore, Assemble, HeadEnd, ParseVerb;
    var v := CStr(buf);
    var sep := HeadEnd(v);
    if sep.None? || '\n' !in v[..sep.value.pos] {
      return Error(BadRequest);
    }
    var line := RequestLine(v);
    if line.None? {
      return Error(BadRequest);
    }
    TargetNulFree(v);
    var verb := ParseVerb(line.value.0);
    if verb.None? {
      return Error(UnsupportedMethod);
    }
    var plan := PlanBodyLoop(v, sep.value.pos, maxBody);
    if plan.Refuse? {
      return Error(plan.error);
    }
    var start := sep.value.pos + sep.value.len;
    var body := buf[start..];
    if plan.length <= |body| {
      assert body[..plan.length] == buf[start..start + plan.length];
      body := body[..plan.length];
    } else {
      var full := ReadBodyLoop(sock, body, plan.length);
      if full.None? {
        return Error(BodyTooLarge);
      }
      body := full.value;
    }
    parsed := AssembleLoop(v[..sep.value.pos], verb.value, line.value.1, body);
  }

  /** The end of the loop body: moves the pipelined rest to the front, or forgets the buffer. */
  method Shift(buffer: array<char>, used: nat) returns (left: nat)
    requires used <= BUFFER_LIMIT < buffer.Length
    modifies buffer
    ensures left <= used && buffer[..left] == NextBuffer(old(buffer[..used]))
  {
    hide HeadEnd, CStr, Find;
    var end := HeadEnd(CStr(buffer[..used]));
    if end.Some? {
      var headLength := end.value.pos + end.value.len;
      assert buffer[..used][headLength..] == buffer[headLength..used];
      if headLength < used && Find(CStr(buffer[headLength..used]), CRLF2).Some? {
        left := used - headLength;
        MoveDown(buffer, headLength, left);
        return;
      }
    }
    left := 0;
  }

  /** memmove(buffer, buffer + from, count). */
  method MoveDown(buffer: array<char>, from: nat, count: nat)
    requires from + count <= buffer.Length
    modifies buffer
    ensures buffer[..count] == old(buffer[from..from + count])
  {
    ghost var all := buffer[..];
    for i := 0 to count
      invariant forall k :: 0 <= k < i ==> buffer[k] == all[from + k]
      invariant forall k :: i <= k < buffer.Length ==> buffer[k] == all[k]
    {
      buffer[i] := buffer[from + i];
    }
  }

  /** mnet_handle_client. */
  method HandleClient(sock: Socket, maxBody: nat) returns (outcomes: seq<Outcome>)
    requires sock.Valid()
    modifies sock
    ensures outcomes == Serve(old(sock.feed), "", maxBody)
  {
    hide Serve, ReadHead, ParseRequest, NextBuffer, Complete, CStr, Concat;
    var buffer := new char[BUFFER_LIMIT + 1];
    var used := 0;
    var keepAlive := true;
    outcomes := [];
    assert buffer[..0] == "";
    ghost var all := Serve(sock.feed, "", maxBody);
    assert [] + all == all;
    while keepAlive
      invariant sock.Valid() && 0 <= used <= BUFFER_LIMIT && fresh(buffer)
      invariant all == outcomes + (if keepAlive then Serve(sock.feed, buffer[..used], maxBody) else [])
      decreases keepAlive, |buffer[..used] + Concat(sock.feed)|
    {
      ghost var before := (sock.feed, buffer[..used]);
      var have;
      used, have := ReadHeadLoop(sock, buffer, used);
      ServeUnfolds(before.0, before.1, maxBody);
      if !have {
        if used >= BUFFER_LIMIT {
          outcomes := outcomes + [HeadTooLarge];
        }
        return;
      }
      ghost var feed1, buf1 := sock.feed, buffer[..used];
      var parsed := ParseRequestCall(sock, buffer[..used], maxBody);
      if parsed.Error? {
        outcomes := outcomes + [Refused(parsed.error)];
        return;
      }
      ghost var rest := if parsed.request.keepAlive then Serve(sock.feed, NextBuffer(buf1), maxBody) else [];
      Assoc(outcomes, [Served(parsed.request)], rest);
      outcomes := outcomes + [Served(parsed.request)];
      keepAlive := parsed.request.keepAlive;
      if keepAlive {
        used := Shift(buffer, used);
      }
    }
    assert outcomes + [] == outcomes;
  }

  /** One turn of the loop. */
  lemma ServeUnfolds(feed: Feed, buf: string, maxBody: nat)
    requires ValidFeed(feed) && |buf| <= BUFFER_LIMIT
    ensures var (feed1, buf1) := ReadHead(feed, buf);
            if !Complete(CStr(buf1)) then
              Serve(feed, buf, maxBody) == if |buf1| >= BUFFER_LIMIT then [HeadTooLarge] else []
            else
              var (parsed, feed2) := ParseRequest(feed1, buf1, maxBody);
              && |NextBuffer(buf1)| <= |buf1|
              && |NextBuffer(buf1) + Concat(feed2)| < |buf + Concat(feed)|
              && Serve(feed, buf, maxBody)
                 == match parsed
                    case Error(e) => [Refused(e)]
                    case Ok(request) =>
                      [Served(request)] + (if request.keepAlive then Serve(feed2, NextBuffer(buf1), maxBody) else [])
  {
    var (feed1, buf1) := ReadHead(feed, buf);
    if Complete(CStr(buf1)) { ParseConsumes(feed1, buf1, maxBody); }
  }
}
