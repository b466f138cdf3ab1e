/** parse_request: from the bytes in the connection buffer, and the rest of the body on the socket, to a request. */
module Request {
  import opened Bytes
  import opened HeadScan
  import Cookies
  import Query
  import Routes
  import ScanAgreement

  const CRLF2 := "\r\n\r\n"
  const LF2 := "\n\n"
  const MAX_METHOD := 15
  const MAX_TARGET := 2047

  // ---------------------------------------------------------------- the end of the head

  /** Where the separator starts and how long it is. */
  datatype Separator = Separator(pos: nat, len: nat)

  /** CRLFCRLF anywhere is preferred over LFLF. */
  function HeadEnd(v: string): (r: Option<Separator>)
    ensures r.Some? ==> r.value.pos + r.value.len <= |v| && 0 < r.value.len
  {
    var crlf := Find(v, CRLF2);
    var lf := Find(v, LF2);
    if crlf.Some? then Some(Separator(crlf.value, 4))
    else if lf.Some? then Some(Separator(lf.value, 2))
    else None
  }

  predicate Complete(v: string) { HeadEnd(v).Some? }

  // ---------------------------------------------------------------- the request line

  /** isspace in the C locale. */
  predicate IsSpace(c: char) { c == ' ' || 9 <= c as int <= 13 }

  /** Blank, tab, line feed, vertical tab, form feed and carriage return. */
  lemma SpacesAre(c: char)
    ensures IsSpace(c) <==> c in [' ', '\t', '\n', 11 as char, 12 as char, '\r']
  {
  }

  function SpaceRun(s: string): (n: nat)
    ensures n <= |s| && (n < |s| ==> !IsSpace(s[n])) && forall i :: 0 <= i < n ==> IsSpace(s[i])
  {
    if s != "" && IsSpace(s[0]) then 1 + SpaceRun(s[1..]) else 0
  }

  function WordRun(s: string): (n: nat)
    ensures n <= |s| && (n < |s| ==> IsSpace(s[n])) && forall i :: 0 <= i < n ==> !IsSpace(s[i])
  {
    if s != "" && !IsSpace(s[0]) then 1 + WordRun(s[1..]) else 0
  }

  /** sscanf's %<max>s: skips white space, then takes up to max other characters; None at the end of input. */
  function ScanWord(s: string, max: nat): (r: Option<(string, string)>)
    requires max > 0
  {
    var t := s[SpaceRun(s)..];
    var n := Min(WordRun(t), max);
    if t == "" then None else Some((t[..n], t[n..]))
  }

  /** sscanf(buffer, "%15s %2047s", ...), which does not stop at the end of the line or of the head. */
  function RequestLine(v: string): Option<(string, string)> {
    var first := ScanWord(v, MAX_METHOD);
    if first.None? then None
    else
      var second := ScanWord(first.value.1, MAX_TARGET);
      if second.None? then None else Some((first.value.0, second.value.0))
  }

  function ParseVerb(m: string): Option<Routes.Method> {
    if m == "GET" then Some(Routes.GET)
    else if m == "POST" then Some(Routes.POST)
    else if m == "PUT" then Some(Routes.PUT)
    else if m == "PATCH" then Some(Routes.PATCH)
    else if m == "DELETE" then Some(Routes.DELETE)
    else if m == "HEAD" then Some(Routes.HEAD)
    else if m == "OPTIONS" then Some(Routes.OPTIONS)
    else None
  }

  // ---------------------------------------------------------------- what the head says

  datatype ParseError = BadRequest | BodyTooLarge | HeadersTooLarge | UnsupportedMethod
    | BadContentLength | DuplicateContentLength | UnsupportedTransferEncoding

  datatype Plan = Refuse(error: ParseError) | Expect(length: nat)

  /** How many body bytes read_full_body wants. */
  function PlanBody(v: string, end: nat, maxBody: nat): Plan {
    var hits := LineInitial(v, CONTENT_LENGTH, 0, end);
    if |hits| > 1 then Refuse(DuplicateContentLength)
    else if LineInitial(v, TRANSFER_ENCODING, 0, end) != [] then Refuse(UnsupportedTransferEncoding)
    else if hits == [] then Expect(0)
    else
      assert hits[0] in hits;
      match ParseLength(v[hits[0] + |CONTENT_LENGTH|..], maxBody)
      case Malformed => Refuse(BadContentLength)
      case TooLarge => Refuse(BodyTooLarge)
      case Length(n) => Expect(n)
  }

  datatype HeadResult = BadHead(error: ParseError)
    | GoodHead(verb: Routes.Method, target: string, end: nat, bodyStart: nat, length: nat)

  /** Everything parse_request learns before it touches the body. */
  function ParseHead(v: string, maxBody: nat): (r: HeadResult)
    ensures r.GoodHead? ==> r.end < r.bodyStart <= |v|
  {
    var sep := HeadEnd(v);
    if sep.None? || '\n' !in v[..sep.value.pos] then BadHead(BadRequest)
    else
      var line := RequestLine(v);
      if line.None? then BadHead(BadRequest)
      else
        var verb := ParseVerb(line.value.0);
        if verb.None? then BadHead(UnsupportedMethod)
        else
          match PlanBody(v, sep.value.pos, maxBody)
          case Refuse(e) => BadHead(e)
          case Expect(n) => GoodHead(verb.value, line.value.1, sep.value.pos, sep.value.pos + sep.value.len, n)
  }

  // ---------------------------------------------------------------- the request

  datatype Request = Request(
    verb: Routes.Method, target: string, path: string, query: Option<string>,
    queryPairs: seq<Pair>, headers: seq<Header>, cookies: seq<Pair>, keepAlive: bool, body: string)

  datatype Parsed = Ok(request: Request) | Error(error: ParseError)

  /** The cookies of the last Cookie header. */
  function CookiesOf(hs: seq<Header>): seq<Pair>
    decreases |hs|
  {
    if hs == [] then []
    else if Same(hs[|hs| - 1].name, "cookie") then Cookies.ParseCookies(hs[|hs| - 1].value)
    else CookiesOf(hs[..|hs| - 1])
  }

  predicate KeepsAlive(hs: seq<Header>) {
    exists i :: 0 <= i < |hs| && Same(hs[i].name, "connection") && Same(hs[i].value, "keep-alive")
  }

  /** The request that head and body make. */
  function Assemble(head: string, verb: Routes.Method, target: string, body: string): Parsed {
    var hs := ParseHeaders(head);
    if hs.None? then Error(HeadersTooLarge)
    else
      var mark := UpTo(target, '?');
      var query := if mark < |target| then Some(target[mark + 1..]) else None;
      Ok(Request(verb, target, target[..mark], query,
                 if query.Some? then Query.ParsePairs(query.value) else [],
                 hs.value, CookiesOf(hs.value), KeepsAlive(hs.value), body))
  }

  // ---------------------------------------------------------------- the socket

  /** What will arrive: one non-empty piece for each moment at which data becomes readable; after the
      last piece the peer closes or the deadline passes. */
  type Feed = seq<string>

  predicate ValidFeed(feed: Feed) { forall i :: 0 <= i < |feed| ==> feed[i] != "" }

  function Concat(feed: Feed): string {
    if feed == [] then "" else feed[0] + Concat(feed[1..])
  }

  /** One poll and recv of at most `max` bytes; None is a timeout, an error or the end of the stream. */
  function Recv(feed: Feed, max: nat): (r: (Option<string>, Feed))
    requires max > 0 && ValidFeed(feed)
    ensures ValidFeed(r.1)
    ensures r.0.None? <==> feed == []
    ensures r.0.None? ==> r.1 == []
    ensures r.0.Some? ==> 0 < |r.0.value| <= max && Concat(feed) == r.0.value + Concat(r.1)
  {
    if feed == [] then (None, [])
    else if |feed[0]| <= max then (Some(feed[0]), feed[1..])
    else
      var rest := [feed[0][max..]] + feed[1..];
      assert rest[1..] == feed[1..];
      assert feed[0] == feed[0][..max] + feed[0][max..];
      (Some(feed[0][..max]), rest)
  }

  /** The receive loop of read_full_body: exactly `need` more bytes, or failure. */
  function ReadMore(feed: Feed, need: nat): (r: (Option<string>, Feed))
    requires ValidFeed(feed)
    ensures ValidFeed(r.1)
    decreases need
  {
    if need == 0 then (Some(""), feed)
    else
      var (data, rest) := Recv(feed, need);
      if data.None? then (None, rest)
      else
        var (more, rest') := ReadMore(rest, need - |data.value|);
        (if more.None? then None else Some(data.value + more.value), rest')
  }

  /** It delivers the next `need` bytes of the stream, however they are cut into pieces. */
  lemma {:induction false} ReadMoreTakes(feed: Feed, need: nat)
    requires ValidFeed(feed)
    ensures var (data, rest) := ReadMore(feed, need);
            if |Concat(feed)| >= need
            then data == Some(Concat(feed)[..need]) && Concat(rest) == Concat(feed)[need..]
            else data == None && rest == []
    decreases need
  {
    if need > 0 {
      var (data, rest) := Recv(feed, need);
      if data.Some? {
        ReadMoreTakes(rest, need - |data.value|);
        var all := Concat(feed);
        if |all| >= need {
          assert all[..need] == data.value + Concat(rest)[..need - |data.value|];
          assert all[need..] == Concat(rest)[need - |data.value|..];
        }
      }
    }
  }

  // ---------------------------------------------------------------- parse_request

  function ParseRequest(feed: Feed, buf: string, maxBody: nat): (r: (Parsed, Feed))
    requires ValidFeed(feed)
    ensures ValidFeed(r.1)
  {
    var v := CStr(buf);
    match ParseHead(v, maxBody)
    case BadHead(e) => (Error(e), feed)
    case GoodHead(verb, target, end, start, n) =>
      var have := |buf| - start;
      if n <= have then (Assemble(v[..end], verb, target, buf[start..start + n]), feed)
      else
        var (more, rest) := ReadMore(feed, n - have);
        (if more.None? then Error(BodyTooLarge) else Assemble(v[..end], verb, target, buf[start..] + more.value), rest)
  }

  // ---------------------------------------------------------------- parsing ignores what follows the head

  /** A head whose only separator is the CRLFCRLF it ends with. */
  predicate WellFormedHead(h: string) {
    && NulFree(h) && |h| >= 4
    && Find(h, CRLF2) == Some(|h| - 4)
    && Find(h, LF2) == None
  }

  /** A head whose only separator is the LFLF it ends with. */
  predicate LfHead(h: string) {
    && NulFree(h) && |h| >= 2
    && Find(h, LF2) == Some(|h| - 2)
    && Find(h, CRLF2) == None
  }

  predicate AnyHead(h: string) { WellFormedHead(h) || LfHead(h) }

  function SepLength(h: string): nat { if WellFormedHead(h) then 4 else 2 }

  /** CRLFCRLF behind a head that ends in LFLF would move its end. */
  predicate Clear(h: string, x: string) { WellFormedHead(h) || Find(x, CRLF2) == None }

  lemma NothingBehind(h: string)
    ensures Clear(h, "") && CStr("") == "" && h + "" == h
  {
  }

  lemma {:induction false} CStrAppend(h: string, x: string)
    requires NulFree(h)
    ensures CStr(h + x) == h + CStr(x)
  {
    if h == "" {
      assert h + x == x;
    } else {
      assert (h + x)[1..] == h[1..] + x;
      CStrAppend(h[1..], x);
    }
  }

  lemma OccursAppend(h: string, x: string, needle: string, i: nat)
    requires i + |needle| <= |h|
    ensures OccursAt(h + x, needle, i) <==> OccursAt(h, needle, i)
  {
    assert (h + x)[i..i + |needle|] == h[i..i + |needle|];
  }

  lemma HeadEndAppend(h: string, x: string)
    requires AnyHead(h) && Clear(h, x)
    ensures |h| >= SepLength(h) && HeadEnd(h + x) == Some(Separator(|h| - SepLength(h), SepLength(h)))
  {
    if WellFormedHead(h) {
      FirstInHead(h, x, CRLF2);
    } else {
      FirstInHead(h, x, LF2);
      NoStraddle(h, x);
    }
  }

  lemma EndOfHead(h: string)
    requires WellFormedHead(h)
    ensures |h| >= 4 && HeadEnd(h) == Some(Separator(|h| - 4, 4))
  {
    NothingBehind(h);
    HeadEndAppend(h, "");
  }

  /** The first occurrence in h is the first in h + x. */
  lemma FirstInHead(h: string, x: string, needle: string)
    requires Find(h, needle).Some?
    ensures Find(h + x, needle) == Find(h, needle)
  {
    var at := Find(h, needle).value;
    forall j: nat | j <= at
      ensures OccursAt(h + x, needle, j) <==> OccursAt(h, needle, j)
    {
      OccursAppend(h, x, needle, j);
    }
  }

  /** No CRLFCRLF starts in a head that ends in LFLF. */
  lemma NoStraddle(h: string, x: string)
    requires LfHead(h) && Find(x, CRLF2) == None
    ensures Find(h + x, CRLF2) == None
  {
    hide LfHead;
    var s := h + x;
    EndsInLines(h);
    forall j: nat
      ensures !OccursAt(s, CRLF2, j)
    {
      if j + 4 <= |h| {
        OccursAppend(h, x, CRLF2, j);
      } else if j < |h| {
        assert s[|h| - 1] == '\n' && s[|h| - 2] == '\n';
        if j + 4 <= |s| { assert s[j..j + 4][0] == s[j] && s[j..j + 4][2] == s[j + 2]; }
      } else if j + 4 <= |s| {
        assert s[j..j + 4] == x[j - |h|..j - |h| + 4];
        assert !OccursAt(x, CRLF2, j - |h|);
      }
    }
  }

  lemma EndsInLines(h: string)
    requires LfHead(h)
    ensures |h| >= 2 && h[|h| - 2] == '\n' && h[|h| - 1] == '\n' && Find(h, CRLF2) == None
  {
    var t := h[|h| - 2..|h| - 2 + 2];
    assert t == LF2;
    assert h[|h| - 2] == t[0] && h[|h| - 1] == t[1];
  }

  /** No proper prefix of a head looks complete. */
  lemma PrefixIncomplete(h: string, k: nat)
    requires AnyHead(h) && k < |h|
    ensures HeadEnd(h[..k]) == None
  {
    var p := h[..k];
    assert h == p + h[k..];
    forall j: nat
      ensures !OccursAt(p, CRLF2, j) && !OccursAt(p, LF2, j)
    {
      if j + 4 <= k { OccursAppend(p, h[k..], CRLF2, j); }
      if j + 2 <= k { OccursAppend(p, h[k..], LF2, j); }
    }
  }

  lemma {:induction false} SpaceRunIs(s: string, n: nat)
    requires n <= |s| && (forall i :: 0 <= i < n ==> IsSpace(s[i])) && (n < |s| ==> !IsSpace(s[n]))
    ensures SpaceRun(s) == n
  {
    if n > 0 { SpaceRunIs(s[1..], n - 1); }
  }

  lemma {:induction false} WordRunIs(s: string, n: nat)
    requires n <= |s| && (forall i :: 0 <= i < n ==> !IsSpace(s[i])) && (n < |s| ==> IsSpace(s[n]))
    ensures WordRun(s) == n
  {
    if n > 0 { WordRunIs(s[1..], n - 1); }
  }

  predicate EndsInSpace(s: string) { s != "" && IsSpace(s[|s| - 1]) }

  /** A word that ends inside h is read the same whatever follows h. */
  lemma ScanWordAppend(h: string, x: string, max: nat)
    requires max > 0 && EndsInSpace(h) && ScanWord(h, max).Some?
    ensures var (word, rest) := ScanWord(h, max).value;
            EndsInSpace(rest) && ScanWord(h + x, max) == Some((word, rest + x))
  {
    hide SpaceRun, WordRun;
    var k := SpaceRun(h);
    var t := h[k..];
    assert t[|t| - 1] == h[|h| - 1];
    SpaceRunIs(h + x, k);
    assert (h + x)[k..] == t + x;
    var w := WordRun(t);
    WordRunIs(t + x, w);
    var n := Min(w, max);
    assert (t + x)[..n] == t[..n] && (t + x)[n..] == t[n..] + x;
    assert t[n..][|t| - n - 1] == t[|t| - 1];
  }

  /** A word that leaves something behind it is complete: more text does not change it. */
  lemma ScanWordMore(s: string, t: string, max: nat)
    requires max > 0 && ScanWord(s, max).Some?
    ensures ScanWord(s + t, max).Some?
    ensures var (word, rest) := ScanWord(s, max).value;
            rest != "" ==> ScanWord(s + t, max) == Some((word, rest + t))
  {
    hide SpaceRun, WordRun;
    var k := SpaceRun(s);
    var u := s[k..];
    SpaceRunIs(s + t, k);
    assert (s + t)[k..] == u + t;
    var w, n := WordRun(u), Min(WordRun(u), max);
    if n < |u| {
      if w < |u| { WordRunIs(u + t, w); } else { LongWord(u, t); }
      assert (u + t)[..n] == u[..n] && (u + t)[n..] == u[n..] + t;
    }
  }

  lemma LongWord(u: string, t: string)
    requires forall i :: 0 <= i < |u| ==> !IsSpace(u[i])
    ensures WordRun(u + t) >= |u|
  {
    hide WordRun;
    assert forall i :: 0 <= i < |u| ==> (u + t)[i] == u[i];
  }

  /** A request line that is there stays there. */
  lemma RequestLineStays(s: string, t: string)
    requires RequestLine(s).Some?
    ensures RequestLine(s + t).Some?
  {
    ScanWordMore(s, t, MAX_METHOD);
    var rest := ScanWord(s, MAX_METHOD).value.1;
    assert rest != "";
    ScanWordMore(rest, t, MAX_TARGET);
  }

  lemma RequestLineAppend(h: string, x: string)
    requires EndsInSpace(h) && RequestLine(h).Some?
    ensures RequestLine(h + x) == RequestLine(h)
  {
    ScanWordAppend(h, x, MAX_METHOD);
    ScanWordAppend(ScanWord(h, MAX_METHOD).value.1, x, MAX_TARGET);
  }

  lemma ParseLengthAppend(t: string, x: string, p: nat, maxBody: nat)
    requires p < |t| && ScanAgreement.Delim(t[p])
    ensures ParseLength(t + x, maxBody) == ParseLength(t, maxBody)
  {
    var b := Blanks(t);
    BlanksIs(t + x, b);
    var val := t[b..];
    assert (t + x)[b..] == val + x;
    var n := Digits(val);
    assert val[p - b] == t[p];
    DigitsIs(val + x, n);
    assert (val + x)[..n] == val[..n];
  }

  lemma LineInitialAppend(h: string, x: string, needle: string)
    requires AnyHead(h) && ScanAgreement.NamePattern(needle)
    ensures |h| >= SepLength(h)
    ensures LineInitial(h + x, needle, 0, |h| - SepLength(h)) == LineInitial(h, needle, 0, |h| - SepLength(h))
  {
    hide LineInitial, AnyHead, SepLength;
    SeparatorInHead(h);
    var end := |h| - SepLength(h);
    assert (h + x)[..end] == h[..end];
    ScanAgreement.HeadIsEnough(h, needle, 0, end);
    ScanAgreement.HeadIsEnough(h + x, needle, 0, end);
  }

  lemma EndsInBlankLine(h: string)
    requires WellFormedHead(h)
    ensures |h| >= 4 && h[|h| - 4] == '\r' && h[|h| - 3] == '\n' && h[|h| - 2] == '\r' && h[|h| - 1] == '\n'
  {
    var t := h[|h| - 4..|h| - 4 + 4];
    assert t == CRLF2;
    assert h[|h| - 4] == t[0] && h[|h| - 3] == t[1] && h[|h| - 2] == t[2] && h[|h| - 1] == t[3];
  }

  lemma SeparatorInHead(h: string)
    requires AnyHead(h)
    ensures NulFree(h) && 0 < SepLength(h) <= |h| && ScanAgreement.Delim(h[|h| - SepLength(h)]) && h[|h| - 1] == '\n'
  {
    if WellFormedHead(h) { EndsInBlankLine(h); } else { EndsInLines(h); }
  }

  lemma PlanAppend(h: string, x: string, maxBody: nat)
    requires AnyHead(h)
    ensures |h| >= SepLength(h)
    ensures PlanBody(h + x, |h| - SepLength(h), maxBody) == PlanBody(h, |h| - SepLength(h), maxBody)
  {
    hide LineInitial, ParseLength, HeaderAt, LineStart, AnyHead, SepLength;
    SeparatorInHead(h);
    var end := |h| - SepLength(h);
    ScanAgreement.ContentLengthIsName();
    LineInitialAppend(h, x, CONTENT_LENGTH);
    LineInitialAppend(h, x, TRANSFER_ENCODING);
    var hits := LineInitial(h, CONTENT_LENGTH, 0, end);
    if |hits| == 1 {
      var hit := hits[0];
      HitInsideHead(h, end, hit);
      var from := hit + |CONTENT_LENGTH|;
      assert (h + x)[from..] == h[from..] + x;
      ParseLengthAppend(h[from..], x, end - from, maxBody);
    }
  }

  lemma HitInsideHead(h: string, end: nat, hit: nat)
    requires end < |h| && ScanAgreement.Delim(h[end]) && hit in LineInitial(h, CONTENT_LENGTH, 0, end)
    ensures hit + |CONTENT_LENGTH| <= end
  {
    ScanAgreement.ContentLengthIsName();
    if end < hit + |CONTENT_LENGTH| { ScanAgreement.NotDelim(h, CONTENT_LENGTH, hit, end); }
  }

  /** What parse_request learns from a head does not depend on the bytes behind it. */
  lemma ParseHeadAppend(h: string, x: string, maxBody: nat)
    requires AnyHead(h) && Clear(h, x) && RequestLine(h).Some?
    ensures ParseHead(h + x, maxBody) == ParseHead(h, maxBody)
  {
    hide HeadEnd, RequestLine, PlanBody, AnyHead, SepLength, Clear;
    HeadEndAppend(h, x);
    NothingBehind(h);
    HeadEndAppend(h, "");
    SeparatorInHead(h);
    var end := |h| - SepLength(h);
    assert (h + x)[..end] == h[..end];
    RequestLineAppend(h, x);
    PlanAppend(h, x, maxBody);
  }

  /** The request that a head and its body make, told apart from any transport. */
  function RequestOf(h: string, body: string, maxBody: nat): Parsed
    requires AnyHead(h)
  {
    match ParseHead(h, maxBody)
    case BadHead(e) => Error(e)
    case GoodHead(verb, target, _, _, _) => Assemble(h[..|h| - SepLength(h)], verb, target, body)
  }

  /** The head in a buffer that goes on behind it, perhaps with NULs. */
  lemma HeadInBuffer(h: string, x: string, maxBody: nat)
    requires AnyHead(h) && Clear(h, CStr(x)) && RequestLine(h).Some?
    ensures |h| >= SepLength(h) && |CStr(h + x)| >= |h|
    ensures CStr(h + x)[..|h| - SepLength(h)] == h[..|h| - SepLength(h)]
    ensures ParseHead(CStr(h + x), maxBody) == ParseHead(h, maxBody)
    ensures ParseHead(h, maxBody).GoodHead? ==>
              ParseHead(h, maxBody).end == |h| - SepLength(h) && ParseHead(h, maxBody).bodyStart == |h|
  {
    hide AnyHead, SepLength, Clear, ParseHead, RequestLine;
    SeparatorInHead(h);
    CStrAppend(h, x);
    ParseHeadAppend(h, CStr(x), maxBody);
    GoodHeadEnds(h, maxBody);
    var end := |h| - SepLength(h);
    assert (h + CStr(x))[..end] == h[..end];
  }

  /** parse_request on a buffer that starts with an acceptable head. */
  lemma ParseGood(feed: Feed, h: string, x: string, maxBody: nat)
    requires ValidFeed(feed) && AnyHead(h) && Clear(h, CStr(x)) && RequestLine(h).Some? && ParseHead(h, maxBody).GoodHead?
    ensures ParseRequest(feed, h + x, maxBody)
            == var n := ParseHead(h, maxBody).length;
               if n <= |x| then (RequestOf(h, x[..n], maxBody), feed)
               else
                 var (more, rest) := ReadMore(feed, n - |x|);
                 (if more.None? then Error(BodyTooLarge) else RequestOf(h, x + more.value, maxBody), rest)
  {
    hide CStr, ParseHead, ReadMore, Assemble, AnyHead, SepLength, Clear, RequestLine, ValidFeed;
    HeadInBuffer(h, x, maxBody);
    assert (h + x)[|h|..] == x;
    var n := ParseHead(h, maxBody).length;
    if n <= |x| { BehindHead(h, x, n); }
  }

  lemma BehindHead(h: string, x: string, n: nat)
    requires n <= |x|
    ensures (h + x)[|h|..|h| + n] == x[..n]
  {
  }

  /** The body is already in the buffer. */
  lemma ParseBuffered(feed: Feed, h: string, x: string, maxBody: nat, n: nat)
    requires ValidFeed(feed) && AnyHead(h) && Clear(h, CStr(x)) && RequestLine(h).Some?
    requires ParseHead(h, maxBody).GoodHead? && n == ParseHead(h, maxBody).length <= |x|
    ensures ParseRequest(feed, h + x, maxBody) == (RequestOf(h, x[..n], maxBody), feed)
  {
    hide CStr, ParseHead, ReadMore, RequestOf, ParseRequest, AnyHead, Clear, RequestLine, ValidFeed;
    ParseGood(feed, h, x, maxBody);
  }

  /** Part of the body is still to be received. */
  lemma ParseSplit(feed: Feed, h: string, x: string, maxBody: nat, n: nat, more: string)
    requires ValidFeed(feed) && AnyHead(h) && Clear(h, CStr(x)) && RequestLine(h).Some?
    requires ParseHead(h, maxBody).GoodHead? && n == ParseHead(h, maxBody).length && |x| < n
    requires ReadMore(feed, n - |x|).0 == Some(more)
    ensures ParseRequest(feed, h + x, maxBody) == (RequestOf(h, x + more, maxBody), ReadMore(feed, n - |x|).1)
  {
    hide CStr, ParseHead, ReadMore, RequestOf, ParseRequest, AnyHead, Clear, RequestLine, ValidFeed;
    ParseGood(feed, h, x, maxBody);
  }

  /** However much of the body has arrived with the head, parse_request reports the same request, with
      exactly the announced bytes as its body, and leaves exactly the rest of the stream. */
  lemma ParseTakesBody(feed: Feed, h: string, x: string, body: string, rest: string, maxBody: nat)
    requires ValidFeed(feed) && AnyHead(h) && Clear(h, CStr(x)) && RequestLine(h).Some?
    requires ParseHead(h, maxBody).GoodHead? && |body| == ParseHead(h, maxBody).length
    requires x + Concat(feed) == body + rest
    ensures ParseRequest(feed, h + x, maxBody).0 == RequestOf(h, body, maxBody)
    ensures |x| <= |body| ==> Concat(ParseRequest(feed, h + x, maxBody).1) == rest
    ensures |x| >= |body| ==> ParseRequest(feed, h + x, maxBody).1 == feed
  {
    hide ParseRequest, ParseHead, ReadMore, AnyHead, SepLength, Clear, CStr, RequestLine, RequestOf, ValidFeed, Concat;
    if |body| <= |x| {
      ParseBuffered(feed, h, x, maxBody, |body|);
      BodyInBuffer(x, Concat(feed), body, rest);
    } else {
      ReadMoreTakes(feed, |body| - |x|);
      BodyOnSocket(x, Concat(feed), body, rest);
      ParseSplit(feed, h, x, maxBody, |body|, Concat(feed)[..|body| - |x|]);
    }
  }

  /** A head that is refused is refused whatever follows it, and nothing is read. */
  lemma ParseRefused(feed: Feed, h: string, x: string, maxBody: nat)
    requires ValidFeed(feed) && AnyHead(h) && Clear(h, CStr(x)) && RequestLine(h).Some? && ParseHead(h, maxBody).BadHead?
    ensures ParseRequest(feed, h + x, maxBody) == (Error(ParseHead(h, maxBody).error), feed)
  {
    hide CStr, ParseHead, ReadMore, Assemble, AnyHead, SepLength, Clear, RequestLine, ValidFeed;
    HeadInBuffer(h, x, maxBody);
  }

  /** The answer 400 is decided by the head alone. */
  lemma BadRequestByHead(feed: Feed, buf: string, maxBody: nat)
    requires ValidFeed(feed)
    ensures ParseRequest(feed, buf, maxBody).0 == Error(BadRequest) <==> ParseHead(CStr(buf), maxBody) == BadHead(BadRequest)
  {
    hide CStr, ParseHead, ReadMore, ParseHeaders, CookiesOf, KeepsAlive, Query.ParsePairs;
  }

  /** A head without a whole request line: sscanf reads on into what is buffered behind it. */
  lemma ShortLineInBuffer(h: string, x: string, maxBody: nat)
    requires AnyHead(h) && Clear(h, CStr(x)) && RequestLine(h).None?
    ensures |h| >= SepLength(h)
    ensures ParseHead(CStr(h + x), maxBody) == BadHead(BadRequest)
            <==> '\n' !in h[..|h| - SepLength(h)] || RequestLine(h + CStr(x)).None?
  {
    hide AnyHead, SepLength, Clear, RequestLine, CStr, HeadEnd, LineInitial, ParseLength, ParseVerb;
    SeparatorInHead(h);
    CStrAppend(h, x);
    HeadEndAppend(h, CStr(x));
    assert (h + CStr(x))[..|h| - SepLength(h)] == h[..|h| - SepLength(h)];
  }

  /** A body that does not arrive in full is refused as too large. */
  lemma ParseShort(feed: Feed, h: string, x: string, maxBody: nat)
    requires ValidFeed(feed) && AnyHead(h) && Clear(h, CStr(x)) && RequestLine(h).Some? && ParseHead(h, maxBody).GoodHead?
    requires |x + Concat(feed)| < ParseHead(h, maxBody).length
    ensures ParseRequest(feed, h + x, maxBody).0 == Error(BodyTooLarge)
  {
    hide CStr, ParseHead, ReadMore, RequestOf, ParseRequest, AnyHead, Clear, RequestLine, ValidFeed;
    ParseGood(feed, h, x, maxBody);
    ReadMoreTakes(feed, ParseHead(h, maxBody).length - |x|);
  }

  // ---------------------------------------------------------------- reading does not look ahead

  lemma RecvAppend(a: Feed, b: Feed, max: nat)
    requires ValidFeed(a) && ValidFeed(b) && a != [] && max > 0
    ensures ValidFeed(a + b) && Recv(a + b, max) == (Recv(a, max).0, Recv(a, max).1 + b)
  {
    var s := a + b;
    assert s[0] == a[0] && s[1..] == a[1..] + b;
    if |a[0]| > max { Assoc([a[0][max..]], a[1..], b); }
  }

  lemma {:induction false} ReadMoreAppend(a: Feed, b: Feed, need: nat)
    requires ValidFeed(a) && ValidFeed(b) && |Concat(a)| >= need
    ensures ValidFeed(a + b) && ReadMore(a + b, need) == (ReadMore(a, need).0, ReadMore(a, need).1 + b)
    decreases need
  {
    hide Recv;
    if need > 0 {
      RecvAppend(a, b, need);
      var (data, rest) := Recv(a, need);
      ReadMoreAppend(rest, b, need - |data.value|);
    }
  }

  /** An accepted request does not depend on what arrives later. */
  lemma ParseRequestAppend(a: Feed, b: Feed, buf: string, maxBody: nat)
    requires ValidFeed(a) && ValidFeed(b) && ParseRequest(a, buf, maxBody).0.Ok?
    ensures ValidFeed(a + b)
    ensures ParseRequest(a + b, buf, maxBody) == (ParseRequest(a, buf, maxBody).0, ParseRequest(a, buf, maxBody).1 + b)
  {
    hide ReadMore, ParseHead, Assemble, CStr;
    var head := ParseHead(CStr(buf), maxBody);
    assert head.GoodHead?;
    var have := |buf| - head.bodyStart;
    if have < head.length {
      ReadMoreTakes(a, head.length - have);
      ReadMoreAppend(a, b, head.length - have);
    }
  }

  lemma GoodHeadEnds(h: string, maxBody: nat)
    requires AnyHead(h)
    ensures |h| >= SepLength(h)
    ensures ParseHead(h, maxBody).GoodHead? ==>
              ParseHead(h, maxBody).end == |h| - SepLength(h) && ParseHead(h, maxBody).bodyStart == |h|
  {
    hide RequestLine, PlanBody, ParseVerb, HeadEnd, AnyHead, SepLength, Clear;
    NothingBehind(h);
    HeadEndAppend(h, "");
  }

  lemma BodyInBuffer(x: string, more: string, body: string, rest: string)
    requires x + more == body + rest && |body| <= |x|
    ensures x[..|body|] == body && (|x| == |body| ==> more == rest)
  {
    assert (x + more)[..|body|] == x[..|body|] && (body + rest)[..|body|] == body;
    assert (x + more)[|x|..] == more && (body + rest)[|body|..] == rest;
  }

  lemma BodyOnSocket(x: string, more: string, body: string, rest: string)
    requires x + more == body + rest && |x| < |body|
    ensures |more| >= |body| - |x| && x + more[..|body| - |x|] == body && more[|body| - |x|..] == rest
  {
    assert (x + more)[..|body|] == x + more[..|body| - |x|] && (body + rest)[..|body|] == body;
    assert (x + more)[|body|..] == more[|body| - |x|..] && (body + rest)[|body|..] == rest;
  }

  // ---------------------------------------------------------------- one length, by all three scans

  lemma SeparatorIsDelim(v: string)
    requires HeadEnd(v).Some?
    ensures HeadEnd(v).value.pos < |v| && ScanAgreement.Delim(v[HeadEnd(v).value.pos])
  {
    var p, n := HeadEnd(v).value.pos, HeadEnd(v).value.len;
    assert OccursAt(v, if n == 4 then CRLF2 else LF2, p);
    assert v[p] == v[p..p + n][0];
  }

  /** The lengths of what parse_request takes: the plan of the head, and nothing else. */
  lemma AcceptedPlan(feed: Feed, buf: string, maxBody: nat)
    requires ValidFeed(feed) && ParseRequest(feed, buf, maxBody).0.Ok?
    ensures var v := CStr(buf);
            var request := ParseRequest(feed, buf, maxBody).0.request;
            && HeadEnd(v).Some?
            && PlanBody(v, HeadEnd(v).value.pos, maxBody) == Expect(|request.body|)
            && ParseHeaders(v[..HeadEnd(v).value.pos]) == Some(request.headers)
  {
    hide PlanBody, HeadEnd, RequestLine, ParseVerb, CStr, ReadMore, CookiesOf, KeepsAlive, ParseHeaders, Query.ParsePairs;
    var head := ParseHead(CStr(buf), maxBody);
    var have := |buf| - head.bodyStart;
    if head.length > have {
      ReadMoreTakes(feed, head.length - have);
    }
  }

  /** Of an accepted request in whose head no Content-Length stands directly behind a CR: parse_headers has stored at most
      one Content-Length; without one the body is empty, and with one its value is a plain numeral and
      the body has exactly that many bytes. */
  lemma AcceptedLength(feed: Feed, buf: string, maxBody: nat)
    requires ValidFeed(feed) && ParseRequest(feed, buf, maxBody).0.Ok? && maxBody <= SIZE_MAX - 6
    requires HeadEnd(CStr(buf)).Some? && ScanAgreement.NoneBehindCr(CStr(buf)[..HeadEnd(CStr(buf)).value.pos], CONTENT_LENGTH)
    ensures var request := ParseRequest(feed, buf, maxBody).0.request;
            var lengths := ScanAgreement.StoredValues(request.headers, CONTENT_LENGTH);
            && |lengths| <= 1
            && (lengths == [] ==> request.body == "")
            && (|lengths| == 1 ==> AllDigits(lengths[0]) && |request.body| == ValueOf(lengths[0]))
  {
    hide ParseRequest, HeadEnd, CStr, LineInitial, ParseLength, ParseHeaders, ScanAgreement.StoredValues, ScanAgreement.NoneBehindCr;
    AcceptedPlan(feed, buf, maxBody);
    var v := CStr(buf);
    var end := HeadEnd(v).value.pos;
    SeparatorIsDelim(v);
    ScanAgreement.ContentLengthIsName();
    ScanAgreement.ScansAgreeIff(v, end, CONTENT_LENGTH);
    var hits := LineInitial(v, CONTENT_LENGTH, 0, end);
    if |hits| == 1 {
      assert hits[0] in hits;
      assert hits == [hits[0]];
      ScanAgreement.LengthAgrees(v, end, hits[0], maxBody);
    }
  }
}
