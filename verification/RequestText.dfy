/** The other direction of parse_request: a request written out as text, and read back. */
module RequestText {
  import opened Bytes
  import opened HeadScan
  import opened Request
  import opened ScanAgreement
  import Connection
  import Query
  import Routes

  // ---------------------------------------------------------------- lines

  predicate Line(s: string) { s != "" && NoBreak(s) }

  predicate Lines(ls: seq<string>) { ls != [] && forall i :: 0 <= i < |ls| ==> Line(ls[i]) }

  /** Lines, each ended by CRLF, and an empty line. */
  function Block(ls: seq<string>): string {
    if ls == [] then CRLF else ls[0] + (CRLF + Block(ls[1..]))
  }

  /** The same without the CRLFCRLF at the end. */
  function Inner(ls: seq<string>): string
    requires ls != []
  {
    if |ls| == 1 then ls[0] else ls[0] + (CRLF + Inner(ls[1..]))
  }

  lemma {:induction false} BlockIsInner(ls: seq<string>)
    requires ls != []
    ensures Block(ls) == Inner(ls) + CRLF2
  {
    if |ls| == 1 {
      assert Block(ls[1..]) == CRLF && CRLF + CRLF == CRLF2;
    } else {
      BlockIsInner(ls[1..]);
      assert ls[0] + (CRLF + (Inner(ls[1..]) + CRLF2)) == (ls[0] + (CRLF + Inner(ls[1..]))) + CRLF2;
    }
  }

  lemma BlockFirst(ls: seq<string>)
    requires ls != []
    ensures Block(ls) == ls[0] + (CRLF + Block(ls[1..]))
  {
  }

  lemma InnerHasBreak(ls: seq<string>)
    requires |ls| > 1
    ensures '\n' in Inner(ls)
  {
    assert Inner(ls)[|ls[0]| + 1] == '\n';
  }

  lemma OccursChars(s: string, i: nat)
    ensures OccursAt(s, CRLF2, i) <==> i + 4 <= |s| && s[i] == '\r' && s[i + 1] == '\n' && s[i + 2] == '\r' && s[i + 3] == '\n'
    ensures OccursAt(s, LF2, i) <==> i + 2 <= |s| && s[i] == '\n' && s[i + 1] == '\n'
  {
    if i + 4 <= |s| { assert s[i..i + 4] == [s[i], s[i + 1], s[i + 2], s[i + 3]]; }
    if i + 2 <= |s| { assert s[i..i + 2] == [s[i], s[i + 1]]; }
  }

  /** Behind a line the occurrences are those of what follows it. */
  lemma LineShifts(line: string, rest: string, i: nat)
    requires Line(line) && rest != "" && !Delim(rest[0])
    ensures var s := line + (CRLF + rest); var n := |line| + 2;
            && (OccursAt(s, CRLF2, i) <==> i >= n && OccursAt(rest, CRLF2, i - n))
            && (OccursAt(s, LF2, i) <==> i >= n && OccursAt(rest, LF2, i - n))
  {
    hide OccursAt;
    var s := line + (CRLF + rest);
    var n := |line| + 2;
    OccursChars(s, i);
    if i >= n {
      OccursChars(rest, i - n);
      assert forall k :: n <= k < |s| ==> s[k] == rest[k - n];
    } else if i < |line| {
      assert s[i] == line[i];
    } else {
      assert s[|line|] == '\r' && s[|line| + 1] == '\n' && s[|line| + 2] == rest[0];
    }
  }

  lemma LastShifts(line: string, i: nat)
    requires '\n' !in line
    ensures OccursAt(line + CRLF2, CRLF2, i) <==> i == |line|
    ensures !OccursAt(line + CRLF2, LF2, i)
  {
    hide OccursAt;
    var s := line + CRLF2;
    OccursChars(s, i);
    if i < |line| { assert s[i] == line[i]; }
  }

  lemma {:induction false} BlankLineOnlyAtEnd(ls: seq<string>, i: nat)
    requires Lines(ls)
    ensures |Block(ls)| >= 4 && Block(ls) != "" && !Delim(Block(ls)[0])
    ensures OccursAt(Block(ls), CRLF2, i) <==> i == |Block(ls)| - 4
    ensures !OccursAt(Block(ls), LF2, i)
    decreases |ls|
  {
    hide OccursAt;
    var line := ls[0];
    assert Line(line);
    if |ls| == 1 {
      assert Block(ls[1..]) == CRLF && line + (CRLF + CRLF) == line + CRLF2;
      LastShifts(line, i);
    } else {
      var rest := Block(ls[1..]);
      var n := |line| + 2;
      BlankLineOnlyAtEnd(ls[1..], if i >= n then i - n else 0);
      LineShifts(line, rest, i);
    }
  }

  lemma {:induction false} BlockNulFree(ls: seq<string>)
    requires forall i :: 0 <= i < |ls| ==> NulFree(ls[i])
    ensures NulFree(Block(ls))
  {
    if ls != [] { BlockNulFree(ls[1..]); }
  }

  lemma BlockIsHead(ls: seq<string>)
    requires Lines(ls) && forall i :: 0 <= i < |ls| ==> NulFree(ls[i])
    ensures WellFormedHead(Block(ls))
  {
    hide OccursAt, Block, Find;
    var h := Block(ls);
    BlockNulFree(ls);
    BlankLineOnlyAtEnd(ls, 0);
    forall i: nat
      ensures (OccursAt(h, CRLF2, i) <==> i == |h| - 4) && !OccursAt(h, LF2, i)
    {
      BlankLineOnlyAtEnd(ls, i);
    }
    FoundOnce(h, |h| - 4);
  }

  lemma FoundOnce(h: string, at: nat)
    requires forall i: nat :: (OccursAt(h, CRLF2, i) <==> i == at) && !OccursAt(h, LF2, i)
    ensures Find(h, CRLF2) == Some(at) && Find(h, LF2) == None
  {
    assert OccursAt(h, CRLF2, at);
  }

  /** strtok_r cuts the head back into its lines. */
  lemma {:induction false} TokensOfInner(ls: seq<string>)
    requires Lines(ls)
    ensures Tokens(Inner(ls), "\r\n") == ls
    decreases |ls|
  {
    var line := ls[0];
    assert Line(line) && DelimFree(line, "\r\n");
    if |ls| == 1 {
      assert line + "" == line;
      TokensStep(line, "", "\r\n");
    } else {
      var rest := CRLF + Inner(ls[1..]);
      TokensStep(line, rest, "\r\n");
      assert rest[1..] == "\n" + Inner(ls[1..]) && rest[1..][1..] == Inner(ls[1..]);
      TokensOfInner(ls[1..]);
    }
  }

  lemma LineIsToken(line: string, rest: string)
    requires Line(line) && (rest == "" || Delim(rest[0]))
    ensures Tokens(line + rest, "\r\n") == [line] + Tokens(rest, "\r\n")
  {
    TokensStep(line, rest, "\r\n");
  }

  lemma StoredFrom(ls: seq<string>, count: nat, h: Header, hs: seq<Header>)
    requires ls != [] && count < MAX_HEADERS && |ls[0]| < MAX_HEADER_LINE && IsHeaderLine(ls[0]) && HeaderOf(ls[0]) == h
    requires HeadersOf(ls[1..], count + 1) == Some(hs)
    ensures HeadersOf(ls, count) == Some([h] + hs)
  {
  }

  // ---------------------------------------------------------------- requests as text

  function VerbName(verb: Routes.Method): string {
    match verb
    case GET => "GET"
    case POST => "POST"
    case PUT => "PUT"
    case PATCH => "PATCH"
    case DELETE => "DELETE"
    case HEAD => "HEAD"
    case OPTIONS => "OPTIONS"
  }

  predicate ValidTarget(target: string) {
    && 0 < |target| <= MAX_TARGET && NulFree(target)
    && forall i :: 0 <= i < |target| ==> !IsSpace(target[i])
  }

  /** A header that can be written as one line. */
  predicate Writable(h: Header) {
    && ValidName(h.name) && NoBreak(h.value) && NulFree(h.value)
    && (h.value != "" ==> h.value[0] != ' ' && h.value[0] != '\t')
  }

  predicate AllWritable(hs: seq<Header>) { hs != [] && forall i :: 0 <= i < |hs| ==> Writable(hs[i]) }

  /** And whose line is not too long. */
  predicate ValidHeader(h: Header) { Writable(h) && |HeaderLine(h)| < MAX_HEADER_LINE }

  predicate ValidHeaders(hs: seq<Header>) {
    0 < |hs| <= MAX_HEADERS && forall i :: 0 <= i < |hs| ==> ValidHeader(hs[i])
  }

  const VERSION := " HTTP/1.1"

  function FirstLine(verb: Routes.Method, target: string): string {
    VerbName(verb) + " " + target + VERSION
  }

  function HeaderLine(h: Header): string { h.name + ": " + h.value }

  function HeaderLines(hs: seq<Header>): (r: seq<string>)
    ensures |r| == |hs| && forall i :: 0 <= i < |r| ==> r[i] == HeaderLine(hs[i])
  {
    seq(|hs|, i requires 0 <= i < |hs| => HeaderLine(hs[i]))
  }

  function AllLines(verb: Routes.Method, target: string, hs: seq<Header>): seq<string> {
    [FirstLine(verb, target)] + HeaderLines(hs)
  }

  /** The head of a request. */
  function HeadText(verb: Routes.Method, target: string, hs: seq<Header>): string {
    Block(AllLines(verb, target, hs))
  }

  lemma VerbIsWord(verb: Routes.Method)
    ensures var w := VerbName(verb);
            0 < |w| <= MAX_METHOD && ParseVerb(w) == Some(verb) && forall i :: 0 <= i < |w| ==> 'A' <= w[i] <= 'Z'
  {
  }

  lemma FirstLineIsLine(verb: Routes.Method, target: string)
    requires ValidTarget(target)
    ensures Line(FirstLine(verb, target)) && NulFree(FirstLine(verb, target)) && |FirstLine(verb, target)| < MAX_HEADER_LINE
    ensures !IsHeaderLine(FirstLine(verb, target))
  {
    VerbIsWord(verb);
    var w := VerbName(verb);
    assert forall i :: 0 <= i < |w| ==> w[i] != '\r' && w[i] != '\n' && w[i] != NUL && w[i] != ':';
    assert forall i :: 0 <= i < |target| ==> target[i] != '\r' && target[i] != '\n' by {
      assert forall i :: 0 <= i < |target| ==> !IsSpace(target[i]);
    }
    hide VerbName, IsHeaderLine, ValidName, UpTo;
    assert NoBreak(" ") && NoBreak(VERSION) && NulFree(" ") && NulFree(VERSION);
    PlainConcat(w, " ");
    PlainConcat(w + " ", target);
    PlainConcat(w + " " + target, VERSION);
    NotHeader(w, target + VERSION);
    assert w + " " + (target + VERSION) == FirstLine(verb, target);
  }

  /** A line whose first word has no colon is not a header: what stands before a colon has a space in it. */
  lemma NotHeader(word: string, rest: string)
    requires ':' !in word
    ensures !IsHeaderLine(word + " " + rest)
  {
    hide UpTo;
    var s := word + " " + rest;
    var colon := UpTo(s, ':');
    assert s[|word|] == ' ';
    if colon < |s| {
      assert forall i :: 0 <= i < |word| ==> s[i] == word[i] && word[i] in word;
      assert !TokenChar(s[..colon][|word|]);
    }
  }

  /** Any blanks may stand between the colon and the value. */
  lemma HeaderReadsBack(name: string, blanks: string, value: string)
    requires ValidName(name) && NoBreak(value) && (value != "" ==> value[0] != ' ' && value[0] != '\t')
    requires forall i :: 0 <= i < |blanks| ==> blanks[i] == ' ' || blanks[i] == '\t'
    ensures var s := name + ":" + blanks + value;
            Line(s) && IsHeaderLine(s) && HeaderOf(s) == Header(name, value)
  {
    hide UpTo, Blanks, ValidName;
    var s := name + ":" + blanks + value;
    NameIsPlain(name);
    assert forall i :: 0 <= i < |name| ==> s[i] == name[i] && name[i] != ':';
    UpToIs(s, ':', |name|);
    assert s[..|name|] == name;
    var v := s[|name| + 1..];
    assert v == blanks + value && v[|blanks|..] == value;
    BlanksIs(v, |blanks|);
    PlainConcat(name, ":");
    PlainConcat(name + ":", blanks);
    PlainConcat(name + ":" + blanks, value);
  }

  lemma HeaderLineReadsBack(h: Header)
    requires Writable(h)
    ensures var s := HeaderLine(h);
            Line(s) && NulFree(s) && IsHeaderLine(s) && HeaderOf(s) == h
  {
    hide IsHeaderLine, HeaderOf, ValidName, NoBreak;
    NameIsPlain(h.name);
    assert h.name + ": " + h.value == h.name + ":" + " " + h.value;
    HeaderReadsBack(h.name, " ", h.value);
  }

  lemma NameIsPlain(name: string)
    requires ValidName(name)
    ensures NoBreak(name) && NulFree(name) && ':' !in name
  {
    forall i | 0 <= i < |name|
      ensures name[i] != '\r' && name[i] != '\n' && name[i] != NUL && name[i] != ':'
    {
      assert TokenChar(name[i]);
    }
  }

  lemma AllLinesAreLines(verb: Routes.Method, target: string, hs: seq<Header>)
    requires ValidTarget(target) && AllWritable(hs)
    ensures var ls := AllLines(verb, target, hs);
            Lines(ls) && forall i :: 0 <= i < |ls| ==> NulFree(ls[i])
  {
    FirstLineIsLine(verb, target);
    forall i | 0 <= i < |hs|
      ensures Line(HeaderLine(hs[i])) && NulFree(HeaderLine(hs[i]))
    {
      HeaderLineReadsBack(hs[i]);
    }
  }

  lemma {:induction false} AllReadBack(hs: seq<Header>)
    requires forall i :: 0 <= i < |hs| ==> Writable(hs[i])
    ensures AllHeaders(HeaderLines(hs)) == hs
  {
    hide Writable, IsHeaderLine, HeaderOf, HeaderLine;
    if hs != [] {
      HeaderLineReadsBack(hs[0]);
      AllReadBack(hs[1..]);
      assert HeaderLines(hs)[1..] == HeaderLines(hs[1..]);
      assert [hs[0]] + hs[1..] == hs;
    }
  }

  /** The caps of parse_headers. */
  predicate Storable(hs: seq<Header>) {
    |hs| <= MAX_HEADERS && forall i :: 0 <= i < |hs| ==> |HeaderLine(hs[i])| < MAX_HEADER_LINE
  }

  /** The text is a well-formed head whose header lines are exactly its headers. */
  lemma HeadOfText(verb: Routes.Method, target: string, hs: seq<Header>)
    requires ValidTarget(target) && AllWritable(hs)
    ensures var h := HeadText(verb, target, hs);
            && WellFormedHead(h)
            && h[..|h| - 4] == Inner(AllLines(verb, target, hs))
            && Tokens(h[..|h| - 4], "\r\n") == AllLines(verb, target, hs)
            && AllHeaders(Tokens(h[..|h| - 4], "\r\n")) == hs
  {
    hide Inner, Block, IsHeaderLine, HeaderOf, FirstLine, Tokens, Writable;
    var ls := AllLines(verb, target, hs);
    AllLinesAreLines(verb, target, hs);
    BlockIsHead(ls);
    BlockIsInner(ls);
    TokensOfInner(ls);
    FirstLineIsLine(verb, target);
    AllReadBack(hs);
    assert ls[1..] == HeaderLines(hs) && [] + hs == hs;
  }

  /** parse_headers finds exactly its headers, or fails, exactly if one of its caps is passed. */
  lemma HeadersStored(verb: Routes.Method, target: string, hs: seq<Header>)
    requires ValidTarget(target) && AllWritable(hs)
    ensures var h := HeadText(verb, target, hs);
            |h| >= 4 && ParseHeaders(h[..|h| - 4]) == if Storable(hs) then Some(hs) else None
  {
    hide HeadText, Tokens, AllHeaders, HeadersOf, FirstLine, HeaderLine, Writable, WellFormedHead, Inner, IsHeaderLine, HeaderOf, Storable;
    var ls := AllLines(verb, target, hs);
    var h := HeadText(verb, target, hs);
    HeadOfText(verb, target, hs);
    EndsInBlankLine(h);
    FirstLineIsLine(verb, target);
    StoredIsAll(ls, 0);
    forall i | 0 <= i <= |hs|
      ensures |AllHeaders(ls[..i])| == if i == 0 then 0 else i - 1
    {
      StoredBefore(verb, target, hs, i);
    }
    forall i | 0 <= i < |ls| ensures ls[i] == if i == 0 then FirstLine(verb, target) else HeaderLine(hs[i - 1]) {}
    CapsAre(ls, hs, FirstLine(verb, target));
    assert HeadersOf(ls, 0).Some? <==> Storable(hs);
    assert ParseHeaders(h[..|h| - 4]) == HeadersOf(ls, 0);
  }

  lemma StoredBefore(verb: Routes.Method, target: string, hs: seq<Header>, i: nat)
    requires ValidTarget(target) && AllWritable(hs) && i <= |hs|
    ensures |AllHeaders(AllLines(verb, target, hs)[..i])| == if i == 0 then 0 else i - 1
  {
    hide IsHeaderLine, HeaderOf, FirstLine, HeaderLine, Writable;
    var ls := AllLines(verb, target, hs);
    if i > 0 {
      FirstLineIsLine(verb, target);
      AllReadBack(hs[..i - 1]);
      assert ls[..i][0] == FirstLine(verb, target) && ls[..i][1..] == HeaderLines(hs[..i - 1]);
    }
  }

  lemma CapsAre(ls: seq<string>, hs: seq<Header>, first: string)
    requires |ls| == |hs| + 1 && hs != [] && |first| < MAX_HEADER_LINE
    requires forall i :: 0 <= i < |ls| ==> ls[i] == if i == 0 then first else HeaderLine(hs[i - 1])
    requires forall i :: 0 <= i <= |hs| ==> |AllHeaders(ls[..i])| == if i == 0 then 0 else i - 1
    ensures Storable(hs) <==> forall i :: 0 <= i < |ls| ==> LineFits(ls, 0, i)
  {
    hide AllHeaders, HeaderLine;
    if forall i :: 0 <= i < |ls| ==> LineFits(ls, 0, i) {
      assert LineFits(ls, 0, |hs|);
      forall i | 0 <= i < |hs| ensures |HeaderLine(hs[i])| < MAX_HEADER_LINE {
        assert LineFits(ls, 0, i + 1) && ls[i + 1] == HeaderLine(hs[i]);
      }
    }
  }

  /** The text is a well-formed head, and parse_headers finds exactly its headers. */
  lemma HeadTextParses(verb: Routes.Method, target: string, hs: seq<Header>)
    requires ValidTarget(target) && ValidHeaders(hs)
    ensures var h := HeadText(verb, target, hs);
            && WellFormedHead(h)
            && h[..|h| - 4] == Inner(AllLines(verb, target, hs))
            && ParseHeaders(h[..|h| - 4]) == Some(hs)
  {
    hide Inner, HeadText, ParseHeaders, WellFormedHead;
    HeadOfText(verb, target, hs);
    HeadersStored(verb, target, hs);
  }

  lemma RequestLineReadsBack(verb: Routes.Method, target: string, rest: string)
    requires ValidTarget(target) && rest != "" && IsSpace(rest[0])
    ensures RequestLine(VerbName(verb) + " " + target + rest) == Some((VerbName(verb), target))
  {
    hide ScanWord, VerbName;
    VerbIsWord(verb);
    var w := VerbName(verb);
    WordReadsBack("", w, " " + target + rest, MAX_METHOD);
    assert "" + w + (" " + target + rest) == w + " " + target + rest;
    WordReadsBack(" ", target, rest, MAX_TARGET);
  }

  lemma WordReadsBack(space: string, word: string, rest: string, max: nat)
    requires 0 < |word| <= max && (forall i :: 0 <= i < |word| ==> !IsSpace(word[i]))
    requires (forall i :: 0 <= i < |space| ==> IsSpace(space[i])) && rest != "" && IsSpace(rest[0])
    ensures ScanWord(space + word + rest, max) == Some((word, rest))
  {
    var s := space + word + rest;
    assert s[|space|] == word[0];
    SpaceRunIs(s, |space|);
    var t := s[|space|..];
    assert t == word + rest;
    WordRunIs(t, |word|);
    assert t[..|word|] == word && t[|word|..] == rest;
  }

  // ---------------------------------------------------------------- framing

  lemma {:induction false} InnerPaired(ls: seq<string>)
    requires Lines(ls)
    ensures CrLfPaired(Inner(ls))
    decreases |ls|
  {
    var line := ls[0];
    assert Line(line);
    if |ls| > 1 {
      var rest := Inner(ls[1..]);
      InnerPaired(ls[1..]);
      var s := line + (CRLF + rest);
      assert forall i :: 0 <= i < |line| ==> s[i] == line[i];
      forall i | 0 <= i < |s| - 1 && s[i] == '\r'
        ensures s[i + 1] == '\n'
      {
        if i >= |line| + 2 {
          assert s[i] == rest[i - |line| - 2] && s[i + 1] == rest[i + 1 - |line| - 2];
        }
      }
    }
  }

  /** How the body is announced: not at all when it is empty, or by one exact Content-Length. */
  predicate Framed(hs: seq<Header>, body: string, maxBody: nat) {
    && StoredValues(hs, TRANSFER_ENCODING) == []
    && (StoredValues(hs, CONTENT_LENGTH) == [] ==> body == "")
    && (StoredValues(hs, CONTENT_LENGTH) != [] ==>
          StoredValues(hs, CONTENT_LENGTH) == [Decimal(|body|)] && |body| <= maxBody <= SIZE_MAX - 6)
  }

  lemma HeadHits(verb: Routes.Method, target: string, hs: seq<Header>, needle: string)
    requires ValidTarget(target) && AllWritable(hs) && NamePattern(needle)
    ensures var h := HeadText(verb, target, hs);
            && |h| >= 4
            && |LineInitial(h, needle, 0, |h| - 4)| == |StoredValues(hs, needle)|
            && LineInitial(h[..|h| - 4], needle, 0, |h| - 4) == LineInitial(h, needle, 0, |h| - 4)
            && StoredValues(hs, needle) == LineValues(h[..|h| - 4], needle, LineInitial(h[..|h| - 4], needle, 0, |h| - 4))
  {
    hide HeadText, StoredValues, LineInitial, Inner, NoneBehindCr, CrLfPaired, AllHeaders, Tokens;
    var h := HeadText(verb, target, hs);
    HeadOfText(verb, target, hs);
    EndsInBlankLine(h);
    AllLinesAreLines(verb, target, hs);
    InnerPaired(AllLines(verb, target, hs));
    PairedHasNone(h[..|h| - 4], needle);
    HeadScansAgreeIff(h, |h| - 4, needle);
    HeadIsEnough(h, needle, 0, |h| - 4);
  }

  /** What the headers of a request say about its body, read from their values alone. */
  function PlanOf(hs: seq<Header>, maxBody: nat): Plan {
    var lengths := StoredValues(hs, CONTENT_LENGTH);
    if |lengths| > 1 then Refuse(DuplicateContentLength)
    else if StoredValues(hs, TRANSFER_ENCODING) != [] then Refuse(UnsupportedTransferEncoding)
    else if lengths == [] then Expect(0)
    else
      match LengthOf(lengths[0], maxBody)
      case Malformed => Refuse(BadContentLength)
      case TooLarge => Refuse(BodyTooLarge)
      case Length(n) => Expect(n)
  }

  /** read_full_body, which searches the text, decides what the values say. */
  lemma PlanFollowsHeaders(verb: Routes.Method, target: string, hs: seq<Header>, maxBody: nat)
    requires ValidTarget(target) && AllWritable(hs) && maxBody <= SIZE_MAX - 6
    ensures var h := HeadText(verb, target, hs);
            |h| >= 4 && PlanBody(h, |h| - 4, maxBody) == PlanOf(hs, maxBody)
  {
    hide HeadText, StoredValues, LineInitial, LineValues, NamePattern, ParseLength, LengthOf, WellFormedHead, ValidTarget, AllWritable, At, Inner, Same, LineValue;
    var h := HeadText(verb, target, hs);
    ContentLengthIsName();
    HeadHits(verb, target, hs, CONTENT_LENGTH);
    HeadHits(verb, target, hs, TRANSFER_ENCODING);
    var hits := LineInitial(h, CONTENT_LENGTH, 0, |h| - 4);
    if |hits| == 1 {
      assert hits == [hits[0]];
      OneLengthRead(verb, target, hs, hits[0], maxBody);
    }
  }

  lemma OneLengthRead(verb: Routes.Method, target: string, hs: seq<Header>, hit: nat, maxBody: nat)
    requires ValidTarget(target) && AllWritable(hs) && maxBody <= SIZE_MAX - 6
    requires |HeadText(verb, target, hs)| >= 4
    requires LineInitial(HeadText(verb, target, hs), CONTENT_LENGTH, 0, |HeadText(verb, target, hs)| - 4) == [hit]
    ensures hit + |CONTENT_LENGTH| <= |HeadText(verb, target, hs)| && |StoredValues(hs, CONTENT_LENGTH)| == 1
    ensures ParseLength(HeadText(verb, target, hs)[hit + |CONTENT_LENGTH|..], maxBody)
            == LengthOf(StoredValues(hs, CONTENT_LENGTH)[0], maxBody)
  {
    hide HeadText, StoredValues, LineInitial, LineValues, ParseLength, LengthOf, WellFormedHead, ValidTarget, AllWritable, At, Inner, Same, LineValue;
    var h := HeadText(verb, target, hs);
    ContentLengthIsName();
    HeadHits(verb, target, hs, CONTENT_LENGTH);
    assert hit in LineInitial(h[..|h| - 4], CONTENT_LENGTH, 0, |h| - 4);
    OneValue(h[..|h| - 4], CONTENT_LENGTH, hit);
    HeadOfText(verb, target, hs);
    EndsInBlankLine(h);
    LineLength(h, |h| - 4, hit, maxBody);
  }

  /** In particular it finds an exact length. */
  lemma PlanReadsBack(verb: Routes.Method, target: string, hs: seq<Header>, body: string, maxBody: nat)
    requires ValidTarget(target) && AllWritable(hs) && Framed(hs, body, maxBody)
    ensures var h := HeadText(verb, target, hs);
            |h| >= 4 && PlanBody(h, |h| - 4, maxBody) == Expect(|body|)
  {
    hide HeadText, StoredValues, PlanBody, AllWritable, ValidTarget, Decimal, ValueOf;
    if StoredValues(hs, CONTENT_LENGTH) != [] {
      PlanFollowsHeaders(verb, target, hs, maxBody);
      ValueOfDecimal(|body|);
    } else {
      NoLengthFound(verb, target, hs, maxBody);
    }
  }

  lemma NoLengthFound(verb: Routes.Method, target: string, hs: seq<Header>, maxBody: nat)
    requires ValidTarget(target) && AllWritable(hs)
    requires StoredValues(hs, CONTENT_LENGTH) == [] && StoredValues(hs, TRANSFER_ENCODING) == []
    ensures var h := HeadText(verb, target, hs);
            |h| >= 4 && PlanBody(h, |h| - 4, maxBody) == Expect(0)
  {
    hide HeadText, StoredValues, LineInitial, AllWritable, ValidTarget;
    ContentLengthIsName();
    HeadHits(verb, target, hs, CONTENT_LENGTH);
    HeadHits(verb, target, hs, TRANSFER_ENCODING);
  }

  // ---------------------------------------------------------------- the round trip

  /** The request that verb, target, headers and body make. */
  function Meant(verb: Routes.Method, target: string, hs: seq<Header>, body: string): Request {
    var mark := UpTo(target, '?');
    var query := if mark < |target| then Some(target[mark + 1..]) else None;
    Request(verb, target, target[..mark], query, if query.Some? then Query.ParsePairs(query.value) else [],
            hs, CookiesOf(hs), KeepsAlive(hs), body)
  }

  lemma HeadTextLine(verb: Routes.Method, target: string, hs: seq<Header>)
    requires ValidTarget(target) && AllWritable(hs)
    ensures RequestLine(HeadText(verb, target, hs)) == Some((VerbName(verb), target))
    ensures '\n' in Inner(AllLines(verb, target, hs))
  {
    hide RequestLine, Block, Inner, AllWritable, VerbName;
    var ls := AllLines(verb, target, hs);
    var more := CRLF + Block(ls[1..]);
    SomeHeaders(hs);
    BlockFirst(ls);
    InnerHasBreak(ls);
    assert ls[0] == FirstLine(verb, target);
    assert HeadText(verb, target, hs) == VerbName(verb) + " " + target + (VERSION + more);
    RequestLineReadsBack(verb, target, VERSION + more);
  }

  lemma SomeHeaders(hs: seq<Header>)
    requires AllWritable(hs)
    ensures |hs| > 0
  {
  }

  /** Round trip: what a client writes as a request, parse_request reads: verb, target, the same
      headers in the same order, and the announced body. */
  lemma RequestRoundTrip(verb: Routes.Method, target: string, hs: seq<Header>, body: string, maxBody: nat)
    requires ValidTarget(target) && ValidHeaders(hs) && Framed(hs, body, maxBody)
    ensures var h := HeadText(verb, target, hs);
            && WellFormedHead(h) && RequestLine(h).Some?
            && ParseHead(h, maxBody).GoodHead? && ParseHead(h, maxBody).length == |body|
            && RequestOf(h, body, maxBody) == Ok(Meant(verb, target, hs, body))
  {
    hide HeadText, ParseHead, ParseHeaders, WellFormedHead, Inner, CookiesOf, KeepsAlive, UpTo, Query.ParsePairs, RequestLine;
    HeadTextParses(verb, target, hs);
    HeadTextLine(verb, target, hs);
    HeadReadsBack(verb, target, hs, body, maxBody);
  }

  lemma HeadReadsBack(verb: Routes.Method, target: string, hs: seq<Header>, body: string, maxBody: nat)
    requires ValidTarget(target) && ValidHeaders(hs) && Framed(hs, body, maxBody)
    ensures var h := HeadText(verb, target, hs);
            |h| >= 4 && ParseHead(h, maxBody) == GoodHead(verb, target, |h| - 4, |h|, |body|)
  {
    hide HeadText, RequestLine, PlanBody, ParseHeaders, WellFormedHead, Inner, HeadEnd, VerbName, ParseVerb, Framed;
    var h := HeadText(verb, target, hs);
    HeadTextParses(verb, target, hs);
    HeadTextLine(verb, target, hs);
    PlanReadsBack(verb, target, hs, body, maxBody);
    VerbIsWord(verb);
    EndOfHead(h);
  }

  /** End to end, from the client's text through any segmentation to the handler. */
  lemma RequestDelivered(feed: Feed, verb: Routes.Method, target: string, hs: seq<Header>, body: string, rest: string, maxBody: nat)
    requires ValidTarget(target) && ValidHeaders(hs) && Framed(hs, body, maxBody)
    requires |HeadText(verb, target, hs)| <= Connection.BUFFER_LIMIT
    requires ValidFeed(feed) && Concat(feed) == HeadText(verb, target, hs) + body + rest
    ensures Connection.Serve(feed, "", maxBody) != []
    ensures Connection.Serve(feed, "", maxBody)[0] == Connection.Served(Meant(verb, target, hs, body))
  {
    RequestRoundTrip(verb, target, hs, body, maxBody);
    var h := HeadText(verb, target, hs);
    Assoc(h, body, rest);
    assert (body + rest)[..|body|] == body;
    Connection.FirstRequestIndependentOfPieces(feed, h, body + rest, maxBody);
  }

  /** A text that announces its body and asks to keep the connection open is a kept-alive request. */
  lemma TextIsKeptAlive(verb: Routes.Method, target: string, hs: seq<Header>, body: string, maxBody: nat)
    requires ValidTarget(target) && ValidHeaders(hs) && Framed(hs, body, maxBody) && KeepsAlive(hs)
    ensures Connection.KeptAlive(HeadText(verb, target, hs), body, maxBody)
  {
    RequestRoundTrip(verb, target, hs, body, maxBody);
  }

  /** Texts without a body that ask to keep the connection open are what pipelining needs. */
  lemma TextIsPipelined(verb: Routes.Method, target: string, hs: seq<Header>, maxBody: nat)
    requires ValidTarget(target) && ValidHeaders(hs) && KeepsAlive(hs)
    requires StoredValues(hs, CONTENT_LENGTH) == [] && StoredValues(hs, TRANSFER_ENCODING) == []
    ensures Connection.Pipelined(HeadText(verb, target, hs), maxBody)
  {
    RequestRoundTrip(verb, target, hs, "", maxBody);
  }

  // ---------------------------------------------------------------- a request inside a body

  const KEEP_ALIVE := Header("Connection", "keep-alive")

  function GetText(target: string): string { HeadText(Routes.GET, target, [KEEP_ALIVE]) }

  function PostHeaders(body: string): seq<Header> { [KEEP_ALIVE, Header("Content-Length", Decimal(|body|))] }

  /** A POST whose body is the text of a GET, in one piece: both are served. */
  lemma BodyTextServedAgain(feed: Feed, target: string, inner: string, maxBody: nat)
    requires ValidFeed(feed) && ValidTarget(target) && ValidTarget(inner) && |GetText(inner)| <= maxBody <= SIZE_MAX - 6
    ensures var body := GetText(inner); var text := HeadText(Routes.POST, target, PostHeaders(body)) + body;
            && ValidFeed([text] + feed)
            && Connection.Serve([text] + feed, "", maxBody)
               == [Connection.Served(Meant(Routes.POST, target, PostHeaders(body), body)),
                   Connection.Served(Meant(Routes.GET, inner, [KEEP_ALIVE], ""))]
                  + Connection.Serve(feed, "", maxBody)
  {
    hide HeadText, Framed, KeepsAlive, Writable, Meant, RequestOf, WellFormedHead, RequestLine, ParseHead, Connection.Serve;
    var body := GetText(inner);
    var hs := PostHeaders(body);
    TextsFit(target, inner);
    KeepAliveHeader();
    LengthHeader(|body|);
    PostIsFramed(body, maxBody);
    GetIsFramed(maxBody);
    TextIsKeptAlive(Routes.POST, target, hs, body, maxBody);
    TextIsKeptAlive(Routes.GET, inner, [KEEP_ALIVE], "", maxBody);
    RequestRoundTrip(Routes.POST, target, hs, body, maxBody);
    RequestRoundTrip(Routes.GET, inner, [KEEP_ALIVE], "", maxBody);
    Connection.BodyServedAgain(feed, HeadText(Routes.POST, target, hs), body, maxBody);
  }

  lemma KeepAliveHeader()
    ensures ValidHeader(KEEP_ALIVE) && Same(KEEP_ALIVE.name, "connection") && Same(KEEP_ALIVE.value, "keep-alive")
    ensures !Named(KEEP_ALIVE.name, CONTENT_LENGTH) && !Named(KEEP_ALIVE.name, TRANSFER_ENCODING)
  {
    hide Writable, Same, Named;
    KeepAliveIsValid();
    KeepAliveIsNamed();
    OtherLength(KEEP_ALIVE.name, CONTENT_LENGTH);
    OtherLength(KEEP_ALIVE.name, TRANSFER_ENCODING);
  }

  lemma KeepAliveIsValid()
    ensures ValidHeader(KEEP_ALIVE)
  {
  }

  lemma KeepAliveIsNamed()
    ensures Same(KEEP_ALIVE.name, "connection") && Same(KEEP_ALIVE.value, "keep-alive")
  {
  }

  lemma OtherLength(name: string, needle: string)
    requires needle != "" && |name| != |needle| - 1
    ensures !Named(name, needle)
  {
  }

  lemma LengthHeader(n: nat)
    requires n < MAX_HEADER_LINE
    ensures ValidHeader(Header("Content-Length", Decimal(n)))
    ensures Named("Content-Length", CONTENT_LENGTH) && !Named("Content-Length", TRANSFER_ENCODING)
  {
    hide ValidName, Named, Decimal;
    DecimalShort(n);
    LengthName();
    OtherLength("Content-Length", TRANSFER_ENCODING);
    DigitsArePlain(Decimal(n));
  }

  lemma LengthName()
    ensures ValidName("Content-Length") && Named("Content-Length", CONTENT_LENGTH)
  {
  }

  lemma DigitsArePlain(ds: string)
    requires AllDigits(ds)
    ensures NoBreak(ds) && NulFree(ds) && (ds != "" ==> ds[0] != ' ' && ds[0] != '\t')
  {
  }

  lemma {:induction false} DecimalShort(n: nat)
    ensures |Decimal(n)| <= 1 + n / 10
  {
    if n >= 10 { DecimalShort(n / 10); }
  }

  lemma GetIsFramed(maxBody: nat)
    ensures Framed([KEEP_ALIVE], "", maxBody) && KeepsAlive([KEEP_ALIVE])
  {
    hide Same, Named;
    KeepAliveHeader();
    var hs := [KEEP_ALIVE];
    StoredFirst(hs, CONTENT_LENGTH);
    StoredFirst(hs, TRANSFER_ENCODING);
    assert hs[1..] == [] && Same(hs[0].name, "connection");
  }

  lemma StoredFirst(hs: seq<Header>, needle: string)
    requires hs != [] && needle != ""
    ensures StoredValues(hs, needle) == (if Named(hs[0].name, needle) then [hs[0].value] else []) + StoredValues(hs[1..], needle)
    ensures StoredValues([], needle) == []
  {
  }

  lemma PostIsFramed(body: string, maxBody: nat)
    requires |body| <= maxBody <= SIZE_MAX - 6 && |body| < MAX_HEADER_LINE
    ensures Framed(PostHeaders(body), body, maxBody) && KeepsAlive(PostHeaders(body))
  {
    hide Same, Named, Decimal;
    KeepAliveHeader();
    LengthHeader(|body|);
    var hs := PostHeaders(body);
    var last := [Header("Content-Length", Decimal(|body|))];
    assert hs[1..] == last && last[1..] == [] && Same(hs[0].name, "connection");
    StoredFirst(hs, CONTENT_LENGTH);
    StoredFirst(hs, TRANSFER_ENCODING);
    StoredFirst(last, CONTENT_LENGTH);
    StoredFirst(last, TRANSFER_ENCODING);
  }

  lemma TextsFit(target: string, inner: string)
    requires ValidTarget(target) && ValidTarget(inner)
    ensures |GetText(inner)| < MAX_HEADER_LINE
    ensures |HeadText(Routes.POST, target, PostHeaders(GetText(inner))) + GetText(inner)| <= Connection.BUFFER_LIMIT
  {
    hide Block, Decimal;
    var get := AllLines(Routes.GET, inner, [KEEP_ALIVE]);
    BlockFirst(get);
    BlockFirst(get[1..]);
    assert get[1..][1..] == [] && |get[0]| == |inner| + 13 && |get[1]| == 22;
    NoLines();
    var n := |GetText(inner)|;
    DecimalShort(n);
    var post := AllLines(Routes.POST, target, PostHeaders(GetText(inner)));
    BlockFirst(post);
    BlockFirst(post[1..]);
    BlockFirst(post[2..]);
    assert post[1..][1..] == post[2..] && post[2..][1..] == [];
    assert |post[0]| == |target| + 14 && |post[1]| == 22 && |post[2]| == 16 + |Decimal(n)|;
  }

  lemma NoLines()
    ensures Block([]) == CRLF
  {
  }

  /** A request without any header line is refused: no line break is left in front of the separator. */
  lemma NoHeadersIsBadRequest(verb: Routes.Method, target: string, maxBody: nat)
    requires ValidTarget(target)
    ensures ParseHead(HeadText(verb, target, []), maxBody) == BadHead(BadRequest)
  {
    var ls := AllLines(verb, target, []);
    var h := HeadText(verb, target, []);
    FirstLineIsLine(verb, target);
    BlockIsHead(ls);
    BlockIsInner(ls);
    EndOfHead(h);
    assert h[..|h| - 4] == FirstLine(verb, target);
  }
}
