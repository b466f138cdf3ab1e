/** A head that ends in LFLF, and a CRLFCRLF behind it: where the head ends depends on the cut. */
module BareLf {
  import opened Bytes
  import opened HeadScan
  import opened Request
  import opened RequestText
  import opened ScanAgreement
  import Connection
  import Routes

  const LF := "\n"

  /** The request line and the header x. */
  function Short(verb: Routes.Method, target: string, x: Header): string {
    FirstLine(verb, target) + (LF + HeaderLine(x))
  }

  /** With the empty line, and what would be a header y if the head went on. */
  function Long(verb: Routes.Method, target: string, x: Header, y: Header): string {
    Short(verb, target, x) + (LF2 + HeaderLine(y))
  }

  predicate Plain(h: Header) {
    ValidHeader(h) && !Named(h.name, CONTENT_LENGTH) && !Named(h.name, TRANSFER_ENCODING)
  }

  lemma BreakSkipped(rest: string)
    ensures Tokens(LF + rest, "\r\n") == Tokens(rest, "\r\n")
    ensures Tokens(LF2 + rest, "\r\n") == Tokens(rest, "\r\n")
  {
    hide Tokens;
    var s, t := LF + rest, LF2 + rest;
    DelimSkipped(s, 0, "\r\n");
    assert s[0..] == s && s[1..] == rest;
    DelimSkipped(t, 0, "\r\n");
    DelimSkipped(t, 1, "\r\n");
    assert t[0..] == t && t[2..] == rest;
  }

  lemma ShortTokens(a: string, b: string)
    requires Line(a) && Line(b)
    ensures Tokens(a + (LF + b), "\r\n") == [a, b]
  {
    hide Tokens;
    LineIsToken(a, LF + b);
    BreakSkipped(b);
    LineIsToken(b, "");
    NoTokens("", "\r\n");
    assert b + "" == b;
  }

  lemma LongTokens(a: string, b: string, c: string)
    requires Line(a) && Line(b) && Line(c)
    ensures Tokens(a + (LF + b) + (LF2 + c), "\r\n") == [a, b, c]
  {
    hide Tokens;
    assert a + (LF + b) + (LF2 + c) == a + (LF + (b + (LF2 + c)));
    LineIsToken(a, LF + (b + (LF2 + c)));
    BreakSkipped(b + (LF2 + c));
    LineIsToken(b, LF2 + c);
    BreakSkipped(c);
    LineIsToken(c, "");
    NoTokens("", "\r\n");
    assert c + "" == c;
  }

  lemma Stored(verb: Routes.Method, target: string, x: Header, y: Header)
    requires ValidTarget(target) && ValidHeader(x) && ValidHeader(y)
    ensures ParseHeaders(Short(verb, target, x)) == Some([x])
    ensures ParseHeaders(Long(verb, target, x, y)) == Some([x, y])
  {
    hide IsHeaderLine, HeaderOf, Tokens, FirstLine, HeaderLine, Writable, ValidTarget;
    var ls, ms := [FirstLine(verb, target), HeaderLine(x)], [FirstLine(verb, target), HeaderLine(x), HeaderLine(y)];
    FirstLineIsLine(verb, target);
    HeaderLineReadsBack(x);
    HeaderLineReadsBack(y);
    ShortTokens(ls[0], ls[1]);
    LongTokens(ms[0], ms[1], ms[2]);
    assert ls[1..][1..] == [] && ms[2..][1..] == [] && ms[1..][1..] == ms[2..];
    assert [x] + [] == [x] && [y] + [] == [y] && [x] + [y] == [x, y];
    StoredFrom(ls[1..], 0, x, []);
    StoredFrom(ms[2..], 1, y, []);
    StoredFrom(ms[1..], 0, x, [y]);
  }

  /** In a head without CR whose stored headers do not frame a body, no length is found. */
  lemma NoBody(v: string, end: nat, maxBody: nat)
    requires end < |v| && Delim(v[end]) && '\r' !in v[..end] && ParseHeaders(v[..end]).Some?
    requires StoredValues(ParseHeaders(v[..end]).value, CONTENT_LENGTH) == []
    requires StoredValues(ParseHeaders(v[..end]).value, TRANSFER_ENCODING) == []
    ensures PlanBody(v, end, maxBody) == Expect(0)
  {
    hide LineInitial, ParseHeaders, StoredValues, At;
    ContentLengthIsName();
    ScansAgreeIff(v, end, CONTENT_LENGTH);
    ScansAgreeIff(v, end, TRANSFER_ENCODING);
  }

  lemma NotStored(x: Header, y: Header, needle: string)
    requires needle != "" && !Named(x.name, needle) && !Named(y.name, needle)
    ensures StoredValues([x], needle) == [] && StoredValues([x, y], needle) == []
  {
    hide Named;
    assert [x, y][1..] == [y] && [y][1..] == [] && [x][1..] == [];
    assert StoredValues([], needle) == [] && StoredValues([y], needle) == [];
  }

  /** Neither text holds a CR, so the first CRLFCRLF is the one behind it, and the first LFLF the one behind x. */
  lemma NoCr(verb: Routes.Method, target: string, x: Header, y: Header)
    requires ValidTarget(target) && ValidHeader(x) && ValidHeader(y)
    ensures '\r' !in Long(verb, target, x, y) && NulFree(Long(verb, target, x, y)) && LfHead(Short(verb, target, x) + LF2)
  {
    hide FirstLine, HeaderLine, Writable, ValidTarget, Find;
    var a, b, c := FirstLine(verb, target), HeaderLine(x), HeaderLine(y);
    FirstLineIsLine(verb, target);
    HeaderLineReadsBack(x);
    HeaderLineReadsBack(y);
    assert Line(a) && Line(b) && Line(c);
    OneLfLf(a, b);
  }

  lemma OneLfLf(a: string, b: string)
    requires Line(a) && Line(b) && NulFree(a) && NulFree(b)
    ensures LfHead(a + (LF + b) + LF2)
  {
    hide OccursAt, Find;
    var h := a + (LF + b) + LF2;
    var n := |h| - 2;
    assert '\r' !in h;
    forall i: nat
      ensures !OccursAt(h, CRLF2, i) && (OccursAt(h, LF2, i) <==> i == n)
    {
      OccursChars(h, i);
      if i < |a| { assert h[i] == a[i]; }
      if i == |a| { assert h[i + 1] == b[0]; }
      if |a| < i < n { assert h[i] == b[i - |a| - 1]; }
    }
    FirstIs(h, LF2, n);
    NoneThere(h, CRLF2);
  }

  lemma FirstIs(h: string, needle: string, at: nat)
    requires forall i: nat :: OccursAt(h, needle, i) <==> i == at
    ensures Find(h, needle) == Some(at)
  {
    assert OccursAt(h, needle, at);
  }

  lemma NoneThere(h: string, needle: string)
    requires forall i: nat :: !OccursAt(h, needle, i)
    ensures Find(h, needle) == None
  {
  }

  lemma CrOnlyBehind(t: string)
    requires '\r' !in t
    ensures Find(t + CRLF2, CRLF2) == Some(|t|)
  {
    hide OccursAt, Find;
    var s := t + CRLF2;
    forall i: nat
      ensures OccursAt(s, CRLF2, i) <==> i == |t|
    {
      OccursChars(s, i);
      if i < |t| { assert s[i] == t[i]; }
    }
    FirstIs(s, CRLF2, |t|);
  }

  lemma LineOf(verb: Routes.Method, target: string, x: Header, more: string)
    requires ValidTarget(target)
    ensures RequestLine(Short(verb, target, x) + more) == Some((VerbName(verb), target))
    ensures '\n' in Short(verb, target, x)
  {
    hide RequestLine, ValidTarget, VerbName, HeaderLine;
    var rest := VERSION + (LF + HeaderLine(x)) + more;
    assert Short(verb, target, x) + more == VerbName(verb) + " " + target + rest;
    RequestLineReadsBack(verb, target, rest);
    assert Short(verb, target, x)[|FirstLine(verb, target)|] == '\n';
  }

  lemma ShortParses(verb: Routes.Method, target: string, x: Header, y: Header, feed: Feed, maxBody: nat)
    requires ValidTarget(target) && Plain(x) && Plain(y) && ValidFeed(feed)
    ensures var (parsed, left) := ParseRequest(feed, Short(verb, target, x) + LF2, maxBody);
            parsed.Ok? && parsed.request.headers == [x] && left == feed
  {
    hide Short, LineInitial, ParseHeaders, LfHead, WellFormedHead, RequestLine, Named, Writable, ValidTarget, Find, CStr, HeadEnd, PlanBody, StoredValues, VerbName, ParseVerb;
    var h := Short(verb, target, x) + LF2;
    var end := |h| - 2;
    assert h[..end] == Short(verb, target, x) && h[end] == '\n';
    Stored(verb, target, x, y);
    NoCr(verb, target, x, y);
    NoCrInShort(verb, target, x, y);
    NotStored(x, y, CONTENT_LENGTH);
    NotStored(x, y, TRANSFER_ENCODING);
    NoBody(h, end, maxBody);
    LineOf(verb, target, x, LF2);
    VerbIsWord(verb);
    EndsInLfLf(h);
    assert ParseHead(h, maxBody) == GoodHead(verb, target, end, |h|, 0);
    assert h + "" == h && ""[..0] == "";
    NothingBehind(h);
    ParseBuffered(feed, h, "", maxBody, 0);
  }

  lemma NoCrInShort(verb: Routes.Method, target: string, x: Header, y: Header)
    requires '\r' !in Long(verb, target, x, y)
    ensures '\r' !in Short(verb, target, x)
  {
    hide Short;
    var s := Short(verb, target, x);
    forall i | 0 <= i < |s| ensures s[i] != '\r' { assert Long(verb, target, x, y)[i] == s[i]; }
  }

  lemma EndsInLfLf(h: string)
    requires LfHead(h)
    ensures |h| >= 2 && SepLength(h) == 2 && HeadEnd(h) == Some(Separator(|h| - 2, 2))
  {
    NothingBehind(h);
    HeadEndAppend(h, "");
  }

  lemma LongParses(verb: Routes.Method, target: string, x: Header, y: Header, feed: Feed, maxBody: nat)
    requires ValidTarget(target) && Plain(x) && Plain(y) && ValidFeed(feed)
    ensures var (parsed, left) := ParseRequest(feed, Long(verb, target, x, y) + CRLF2, maxBody);
            parsed.Ok? && parsed.request.headers == [x, y] && left == feed
  {
    hide Long, LineInitial, ParseHeaders, LfHead, WellFormedHead, RequestLine, Named, Writable, ValidTarget, Find, CStr, PlanBody, StoredValues, VerbName, ParseVerb;
    var t := Long(verb, target, x, y);
    var v := t + CRLF2;
    assert v[..|t|] == t && v[|t|] == '\r';
    Stored(verb, target, x, y);
    NoCr(verb, target, x, y);
    CrOnlyBehind(t);
    NotStored(x, y, CONTENT_LENGTH);
    NotStored(x, y, TRANSFER_ENCODING);
    NoBody(v, |t|, maxBody);
    LongLine(verb, target, x, y);
    VerbIsWord(verb);
    NulFreeText(t);
    assert ParseHead(v, maxBody) == GoodHead(verb, target, |t|, |v|, 0);
  }

  lemma NulFreeText(t: string)
    requires NulFree(t)
    ensures CStr(t + CRLF2) == t + CRLF2
  {
    NothingBehind(t + CRLF2);
    CStrAppend(t + CRLF2, "");
  }

  lemma LongLine(verb: Routes.Method, target: string, x: Header, y: Header)
    requires ValidTarget(target)
    ensures RequestLine(Long(verb, target, x, y) + CRLF2) == Some((VerbName(verb), target)) && '\n' in Long(verb, target, x, y)
  {
    hide Short, RequestLine, ValidTarget, VerbName;
    var more := (LF2 + HeaderLine(y)) + CRLF2;
    LineOf(verb, target, x, more);
    assert Long(verb, target, x, y) + CRLF2 == Short(verb, target, x) + more;
  }

  /** The same bytes in two cuts: the request that arrives in two pieces has one header, in one piece it has
      two, for CRLFCRLF is preferred wherever it stands in the buffer. */
  lemma CutDecides(verb: Routes.Method, target: string, x: Header, y: Header, maxBody: nat)
    requires ValidTarget(target) && Plain(x) && Plain(y) && |Long(verb, target, x, y) + CRLF2| <= Connection.BUFFER_LIMIT
    ensures var h, more := Short(verb, target, x) + LF2, HeaderLine(y) + CRLF2;
            && h + more == Long(verb, target, x, y) + CRLF2
            && ValidFeed([h, more]) && ValidFeed([h + more])
            && var apart, together := Connection.Serve([h, more], "", maxBody), Connection.Serve([h + more], "", maxBody);
               && apart != [] && apart[0].Served? && apart[0].request.headers == [x]
               && together != [] && together[0].Served? && together[0].request.headers == [x, y]
  {
    hide Short, HeaderLine, ParseRequest, Find, CStr, LfHead, ValidTarget, Plain, Complete;
    var h, more := Short(verb, target, x) + LF2, HeaderLine(y) + CRLF2;
    assert h + more == Long(verb, target, x, y) + CRLF2;
    BothComplete(verb, target, x, y);
    ShortParses(verb, target, x, y, [more], maxBody);
    FirstPiece(h, [more], maxBody);
    LongParses(verb, target, x, y, [], maxBody);
    FirstPiece(h + more, [], maxBody);
    assert [h] + [more] == [h, more] && [h + more] + [] == [h + more];
  }

  lemma BothComplete(verb: Routes.Method, target: string, x: Header, y: Header)
    requires ValidTarget(target) && Plain(x) && Plain(y)
    ensures var h, more := Short(verb, target, x) + LF2, HeaderLine(y) + CRLF2;
            Complete(CStr(h)) && Complete(CStr(h + more))
  {
    hide Short, HeaderLine, CStr, ValidTarget;
    var h, more := Short(verb, target, x) + LF2, HeaderLine(y) + CRLF2;
    NoCr(verb, target, x, y);
    Connection.HeadComplete(h, more);
  }

  /** The first turn on a piece that holds a whole head. */
  lemma FirstPiece(piece: string, rest: Feed, maxBody: nat)
    requires 0 < |piece| <= Connection.BUFFER_LIMIT && Complete(CStr(piece)) && ValidFeed(rest)
    requires ParseRequest(rest, piece, maxBody).0.Ok?
    ensures ValidFeed([piece] + rest)
    ensures var served := Connection.Serve([piece] + rest, "", maxBody);
            served != [] && served[0] == Connection.Served(ParseRequest(rest, piece, maxBody).0.request)
  {
    hide ParseRequest, Complete, CStr, Connection.ReadHead;
    Connection.ReadsWhole(rest, piece);
    Connection.ServeUnfolds([piece] + rest, "", maxBody);
  }
}
