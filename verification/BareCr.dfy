/** Requests that the two scans of a head read differently: a header behind a bare CR. */
module BareCr {
  import opened Bytes
  import opened HeadScan
  import opened Request
  import opened RequestText
  import opened ScanAgreement
  import Routes

  /** For the searches of read_full_body the headers x and y are one line, for parse_headers they are two. */
  function Joined(x: Header, y: Header): string { HeaderLine(x) + ("\r" + HeaderLine(y)) }

  function Head(verb: Routes.Method, target: string, x: Header, y: Header): string {
    FirstLine(verb, target) + (CRLF + Joined(x, y))
  }

  function Text(verb: Routes.Method, target: string, x: Header, y: Header): string {
    FirstLine(verb, target) + (CRLF + (Joined(x, y) + CRLF2))
  }

  predicate Valid(target: string, x: Header, y: Header) {
    ValidTarget(target) && ValidHeader(x) && ValidHeader(y)
  }

  lemma BlankLineAtEnd(first: string, last: string)
    requires Line(first) && '\n' !in last && last != "" && !Delim(last[0]) && NulFree(first) && NulFree(last)
    ensures WellFormedHead(first + (CRLF + (last + CRLF2)))
  {
    hide OccursAt, Find;
    var h := first + (CRLF + (last + CRLF2));
    forall i: nat
      ensures (OccursAt(h, CRLF2, i) <==> i == |h| - 4) && !OccursAt(h, LF2, i)
    {
      LineShifts(first, last + CRLF2, i);
      if i >= |first| + 2 { LastShifts(last, i - |first| - 2); }
    }
    FoundOnce(h, |h| - 4);
    assert NulFree(CRLF) && NulFree(CRLF2);
  }

  lemma ThreeTokens(a: string, b: string, c: string)
    requires Line(a) && Line(b) && Line(c)
    ensures Tokens(a + (CRLF + (b + ("\r" + c))), "\r\n") == [a, b, c]
  {
    hide Tokens;
    LineIsToken(a, CRLF + (b + ("\r" + c)));
    LineIsToken(b, "\r" + c);
    LineIsToken(c, "");
    NoTokens("", "\r\n");
    BreakSkipped('\n', b + ("\r" + c));
    BreakSkipped('\r', "\n" + (b + ("\r" + c)));
    assert CRLF + (b + ("\r" + c)) == "\r" + ("\n" + (b + ("\r" + c)));
    BreakSkipped('\r', c);
    assert c + "" == c;
  }

  lemma BreakSkipped(c: char, rest: string)
    requires Delim(c)
    ensures Tokens([c] + rest, "\r\n") == Tokens(rest, "\r\n")
  {
    hide Tokens;
    var s := [c] + rest;
    DelimSkipped(s, 0, "\r\n");
    assert s[0..] == s && s[1..] == rest;
  }

  lemma BothStored(verb: Routes.Method, target: string, x: Header, y: Header)
    requires Valid(target, x, y)
    ensures ParseHeaders(Head(verb, target, x, y)) == Some([x, y])
  {
    hide IsHeaderLine, HeaderOf, Tokens, FirstLine, HeaderLine, Writable, ValidTarget;
    var ls := [FirstLine(verb, target), HeaderLine(x), HeaderLine(y)];
    FirstLineIsLine(verb, target);
    HeaderLineReadsBack(x);
    HeaderLineReadsBack(y);
    ThreeTokens(ls[0], ls[1], ls[2]);
    assert ls[2..][1..] == [] && ls[1..][1..] == ls[2..] && [x] + [y] == [x, y] && [y] + [] == [y];
    StoredFrom(ls[2..], 1, y, []);
    StoredFrom(ls[1..], 0, x, [y]);
  }

  /** The only lines a search sees start with the request line and with x. */
  lemma NothingLineInitial(verb: Routes.Method, target: string, x: Header, y: Header, needle: string)
    requires Valid(target, x, y) && NamePattern(needle) && !Named(x.name, needle)
    ensures LineInitial(Text(verb, target, x, y), needle, 0, |Head(verb, target, x, y)|) == []
  {
    hide At, Named, FirstLine, HeaderLine, IsHeaderLine, HeaderOf, Writable, ValidTarget, LineInitial;
    var first, shown, hidden := FirstLine(verb, target), HeaderLine(x), HeaderLine(y);
    FirstLineIsLine(verb, target);
    HeaderLineReadsBack(x);
    HeaderLineReadsBack(y);
    var h, n := Text(verb, target, x, y), |first| + 2;
    var rest := "\r" + hidden + CRLF2;
    assert h == first + (CRLF + (shown + rest));
    StartsNot(h, 0, first, CRLF + (shown + rest), needle);
    StartsNot(h, n, shown, rest, needle);
    forall i | 0 <= i < |Head(verb, target, x, y)|
      ensures !HeaderAt(h, needle, i)
    {
      if i > 0 && i != n { OneBreak(first, shown, hidden, i - 1); }
    }
    SkipNonMatches(h, needle, 0, |Head(verb, target, x, y)|, |Head(verb, target, x, y)|);
    EmptyRange(h, needle, |Head(verb, target, x, y)|);
  }

  lemma EmptyRange(s: string, needle: string, end: nat)
    ensures LineInitial(s, needle, end, end) == []
  {
  }

  lemma StartsNot(h: string, from: nat, line: string, rest: string, needle: string)
    requires from <= |h| && h[from..] == line + rest && Line(line) && rest != "" && Delim(rest[0]) && NamePattern(needle)
    requires !(IsHeaderLine(line) && Named(HeaderOf(line).name, needle))
    ensures !At(h, needle, from)
  {
    hide At, Named, IsHeaderLine, HeaderOf;
    var end := from + |line|;
    assert h[from..end] == (line + rest)[..|line|];
    assert h[end] == (line + rest)[|line|];
    StartsInLine(h, from, end, needle);
    StoredIffStarts(line, needle);
  }

  lemma OneBreak(first: string, shown: string, hidden: string, i: nat)
    requires Line(first) && Line(shown) && Line(hidden)
    requires i < |first + (CRLF + (shown + ("\r" + hidden)))|
    requires i != |first| + 1
    ensures (first + (CRLF + (shown + ("\r" + hidden + CRLF2))))[i] != '\n'
  {
    var n := |first| + 2;
    var h := first + (CRLF + (shown + ("\r" + hidden + CRLF2)));
    if i < |first| {
      assert h[i] == first[i];
    } else if n <= i < n + |shown| {
      assert h[i] == shown[i - n];
    } else if n + |shown| < i {
      assert h[i] == hidden[i - n - |shown| - 1];
    }
  }

  /** They are accepted: y is shown to the handler, and is not seen by read_full_body. */
  lemma HiddenHeaderIsStored(verb: Routes.Method, target: string, x: Header, y: Header, maxBody: nat)
    requires Valid(target, x, y) && !Named(x.name, CONTENT_LENGTH) && !Named(x.name, TRANSFER_ENCODING)
    ensures var parsed := ParseRequest([], Text(verb, target, x, y), maxBody).0;
            parsed.Ok? && parsed.request.headers == [x, y] && parsed.request.body == ""
  {
    hide LineInitial, ParseHeaders, WellFormedHead, RequestLine, Named, FirstLine, HeaderLine, Writable, ValidTarget, Find, CStr;
    var h := Text(verb, target, x, y);
    FirstLineIsLine(verb, target);
    HeaderLineReadsBack(x);
    HeaderLineReadsBack(y);
    BlankLineAtEnd(FirstLine(verb, target), Joined(x, y));
    assert h == Head(verb, target, x, y) + CRLF2;
    assert h[..|h| - 4] == Head(verb, target, x, y);
    ContentLengthIsName();
    NothingLineInitial(verb, target, x, y, CONTENT_LENGTH);
    NothingLineInitial(verb, target, x, y, TRANSFER_ENCODING);
    BothStored(verb, target, x, y);
    HeadIsGood(verb, target, x, y, maxBody);
    assert h + "" == h && ""[..0] == "";
    ParseBuffered([], h, "", maxBody, 0);
  }

  lemma HeadIsGood(verb: Routes.Method, target: string, x: Header, y: Header, maxBody: nat)
    requires Valid(target, x, y) && WellFormedHead(Text(verb, target, x, y))
    requires LineInitial(Text(verb, target, x, y), CONTENT_LENGTH, 0, |Head(verb, target, x, y)|) == []
    requires LineInitial(Text(verb, target, x, y), TRANSFER_ENCODING, 0, |Head(verb, target, x, y)|) == []
    ensures var h := Text(verb, target, x, y);
            RequestLine(h).Some? && ParseHead(h, maxBody) == GoodHead(verb, target, |h| - 4, |h|, 0)
  {
    hide LineInitial, WellFormedHead, RequestLine, Text, Head, VerbName, ParseVerb, HeadEnd, Writable, ValidTarget;
    TextLine(verb, target, x, y);
    TextBreak(verb, target, x, y);
    VerbIsWord(verb);
    EndOfHead(Text(verb, target, x, y));
  }

  lemma TextLine(verb: Routes.Method, target: string, x: Header, y: Header)
    requires Valid(target, x, y)
    ensures RequestLine(Text(verb, target, x, y)) == Some((VerbName(verb), target))
  {
    hide RequestLine, Joined, Writable, ValidTarget, VerbName;
    var rest := VERSION + (CRLF + (Joined(x, y) + CRLF2));
    assert Text(verb, target, x, y) == VerbName(verb) + " " + target + rest;
    RequestLineReadsBack(verb, target, rest);
  }

  lemma TextBreak(verb: Routes.Method, target: string, x: Header, y: Header)
    ensures var h := Text(verb, target, x, y);
            |h| - 4 == |Head(verb, target, x, y)| && '\n' in h[..|h| - 4]
  {
    hide Joined, FirstLine;
    var h := Text(verb, target, x, y);
    assert h[..|h| - 4][|FirstLine(verb, target)| + 1] == '\n';
  }

  /** For example "GET / HTTP/1.1", "X: a", CR, "Content-Length: 5": the handler is shown a length of 5, and no body. */
  lemma ScansDisagree(maxBody: nat)
    ensures var parsed := ParseRequest([], Text(Routes.GET, "/", Header("X", "a"), Header("Content-Length", "5")), maxBody).0;
            && parsed.Ok? && parsed.request.body == ""
            && StoredValues(parsed.request.headers, CONTENT_LENGTH) == ["5"]
  {
    hide ParseRequest, Text, Named, Writable;
    Examples();
    HiddenHeaderIsStored(Routes.GET, "/", Header("X", "a"), Header("Content-Length", "5"), maxBody);
    OnlySecond(Header("X", "a"), Header("Content-Length", "5"), CONTENT_LENGTH);
  }

  lemma OnlySecond(x: Header, y: Header, needle: string)
    requires needle != "" && !Named(x.name, needle) && Named(y.name, needle)
    ensures StoredValues([x, y], needle) == [y.value]
  {
    hide Named;
    assert [x, y][1..] == [y] && [y][1..] == [];
    assert StoredValues([], needle) == [];
    assert StoredValues([y], needle) == [y.value];
  }

  lemma Examples()
    ensures ValidHeader(Header("X", "a")) && ValidHeader(Header("Content-Length", "5")) && ValidTarget("/")
    ensures !Named("X", CONTENT_LENGTH) && !Named("X", TRANSFER_ENCODING) && Named("Content-Length", CONTENT_LENGTH)
  {
    hide Writable, ValidName, Named;
    LengthName();
    XName();
    OtherLength("X", CONTENT_LENGTH);
    OtherLength("X", TRANSFER_ENCODING);
    ShortValue(Header("X", "a"));
    ShortValue(Header("Content-Length", "5"));
  }

  lemma ShortValue(h: Header)
    requires ValidName(h.name) && |h.name| < 20 && |h.value| == 1 && h.value[0] > ' '
    ensures ValidHeader(h)
  {
    hide ValidName;
  }

  lemma XName()
    ensures ValidName("X")
  {
  }
}
