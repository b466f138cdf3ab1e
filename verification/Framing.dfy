/** The response on the wire, as a reader sees it that follows its header: which header lines are there, and
    where the body ends. */
module Framing {
  import opened Bytes
  import opened HeadScan
  import opened Request
  import opened RequestText
  import opened Response
  import ScanAgreement

  // ---------------------------------------------------------------- the header block is lines

  function BlockLines(r: Reply, keepAlive: bool): seq<string> {
    [StatusLine(r.status), FramingLine(r), TypeLine(r), ConnectionLine(keepAlive)]
  }

  /** A value as a reader of header lines sees it: without the blanks in front. */
  function Stripped(value: string): string { value[Blanks(value)..] }

  /** The three headers a response should have. */
  function Announced(r: Reply, keepAlive: bool): seq<Header> {
    [if r.chunked then Header("Transfer-Encoding", "chunked") else Header("Content-Length", Decimal(r.length)),
     Header("Content-Type", Stripped(r.Type())),
     Header("Connection", if keepAlive then "keep-alive" else "close")]
  }

  lemma BlockIsLines(r: Reply, keepAlive: bool)
    ensures HeaderBlock(r, keepAlive) == Block(BlockLines(r, keepAlive))
  {
    hide Block, StatusLine, FramingLine, TypeLine, ConnectionLine;
    var ls := BlockLines(r, keepAlive);
    BlockFirst(ls);
    BlockFirst(ls[1..]);
    BlockFirst(ls[2..]);
    BlockFirst(ls[3..]);
    NoLines();
    assert ls[1..][1..] == ls[2..] && ls[2..][1..] == ls[3..] && ls[3..][1..] == [];
    assert CRLF + CRLF == CRLF2;
  }

  lemma FramingIsHeader(r: Reply)
    ensures var h := Announced(r, true)[0];
            Line(FramingLine(r)) && NulFree(FramingLine(r)) && IsHeaderLine(FramingLine(r)) && HeaderOf(FramingLine(r)) == h
  {
    hide IsHeaderLine, HeaderOf, ValidName, Decimal, NoBreak, Line;
    FramingNames();
    if r.chunked {
      assert "Transfer-Encoding" + ":" + " " + "chunked" == FramingLine(r);
      HeaderReadsBack("Transfer-Encoding", " ", "chunked");
    } else {
      DigitsArePlain(Decimal(r.length));
      assert "Content-Length" + ":" + " " + Decimal(r.length) == FramingLine(r);
      HeaderReadsBack("Content-Length", " ", Decimal(r.length));
    }
  }

  lemma FramingNames()
    ensures ValidName("Transfer-Encoding") && ValidName("Content-Length") && ValidName("Content-Type") && ValidName("Connection")
    ensures NoBreak("chunked") && NoBreak("keep-alive") && NoBreak("close")
    ensures NulFree("Content-Type: ") && NulFree("Content-Length: ") && NulFree("Transfer-Encoding: chunked")
  {
    hide ValidName, NoBreak, NulFree;
    LengthName();
    EncodingValid();
    TypeValid();
    ConnectionValid();
    FixedTexts();
  }

  lemma EncodingValid()
    ensures ValidName("Transfer-Encoding")
  {
  }

  lemma TypeValid()
    ensures ValidName("Content-Type")
  {
  }

  lemma ConnectionValid()
    ensures ValidName("Connection")
  {
  }

  lemma FixedTexts()
    ensures NoBreak("chunked") && NoBreak("keep-alive") && NoBreak("close")
    ensures NulFree("Content-Type: ") && NulFree("Content-Length: ") && NulFree("Transfer-Encoding: chunked")
  {
  }

  lemma TypeIsHeader(r: Reply)
    requires HeaderValueValid(r.Type())
    ensures Line(TypeLine(r)) && NulFree(TypeLine(r)) && IsHeaderLine(TypeLine(r))
    ensures HeaderOf(TypeLine(r)) == Header("Content-Type", Stripped(r.Type()))
  {
    hide IsHeaderLine, HeaderOf, ValidName, Line, Blanks, NoBreak, NulFree, HeaderValueValid;
    FramingNames();
    var t := r.Type();
    var n := Blanks(t);
    TypeIsPlain(t, n);
    TypeText(t, n);
    NulFreeConcat("Content-Type: ", t);
    HeaderReadsBack("Content-Type", " " + t[..n], t[n..]);
  }

  lemma TypeText(t: string, n: nat)
    requires n <= |t|
    ensures "Content-Type" + ":" + (" " + t[..n]) + t[n..] == "Content-Type: " + t
  {
    assert t[..n] + t[n..] == t;
    assert "Content-Type" + ":" + " " == "Content-Type: ";
    Assoc("Content-Type" + ":" + " ", t[..n], t[n..]);
    Assoc("Content-Type" + ":", " ", t[..n]);
  }

  lemma TypeIsPlain(t: string, n: nat)
    requires HeaderValueValid(t) && n <= |t|
    ensures NoBreak(t[n..]) && NulFree(t)
  {
  }

  lemma NulFreeConcat(a: string, b: string)
    requires NulFree(a) && NulFree(b)
    ensures NulFree(a + b)
  {
  }

  lemma ConnectionIsHeader(keepAlive: bool)
    ensures var s := ConnectionLine(keepAlive);
            && Line(s) && NulFree(s) && IsHeaderLine(s)
            && HeaderOf(s) == Header("Connection", if keepAlive then "keep-alive" else "close")
  {
    hide IsHeaderLine, HeaderOf, ValidName, Line, NoBreak;
    FramingNames();
    var v := if keepAlive then "keep-alive" else "close";
    assert "Connection" + ":" + " " + v == ConnectionLine(keepAlive);
    HeaderReadsBack("Connection", " ", v);
  }

  lemma StatusIsNoHeader(status: int)
    ensures Line(StatusLine(status)) && NulFree(StatusLine(status)) && !IsHeaderLine(StatusLine(status))
  {
    hide IsHeaderLine, StatusText, Decimal, Line;
    StatusLineIsPlain(status);
    StatusTextNulFree(status);
    DigitsArePlain(Decimal(if status < 0 then -status else status));
    assert "HTTP/1.1" + " " + (Signed(status) + " " + StatusText(status)) == StatusLine(status);
    NotHeader("HTTP/1.1", Signed(status) + " " + StatusText(status));
    LineIf(StatusLine(status));
  }

  lemma LineIf(s: string)
    ensures Line(s) <==> s != "" && NoBreak(s)
  {
  }

  lemma StatusTextNulFree(status: int)
    ensures NulFree(StatusText(status))
  {
    hide StatusText;
    StatusTextIsPlain(status);
  }

  lemma BlockIsHeadOf(r: Reply, keepAlive: bool)
    requires HeaderValueValid(r.Type())
    ensures Lines(BlockLines(r, keepAlive)) && WellFormedHead(HeaderBlock(r, keepAlive))
  {
    hide WellFormedHead, Block, StatusLine, FramingLine, TypeLine, ConnectionLine, IsHeaderLine, HeaderOf, HeaderBlock, Line, NulFree;
    var ls := BlockLines(r, keepAlive);
    StatusIsNoHeader(r.status);
    FramingIsHeader(r);
    TypeIsHeader(r);
    ConnectionIsHeader(keepAlive);
    BlockIsLines(r, keepAlive);
    BlockIsHead(ls);
  }

  /** The header block holds exactly the announced headers: Content-Length with the length or, for a chunked
      reply and for no other, Transfer-Encoding; the type as it was given; and the connection option. */
  lemma HeadersOnWire(r: Reply, keepAlive: bool)
    requires HeaderValueValid(r.Type()) && |HeaderBlock(r, keepAlive)| < HEADER_SIZE
    ensures var block := HeaderBlock(r, keepAlive);
            && WellFormedHead(block)
            && ParseHeaders(block[..|block| - 4]) == Some(Announced(r, keepAlive))
  {
    hide WellFormedHead, Block, Inner, StatusLine, FramingLine, TypeLine, ConnectionLine, IsHeaderLine, HeaderOf, HeaderBlock, Line, Tokens, Stripped;
    var ls := BlockLines(r, keepAlive);
    BlockIsHeadOf(r, keepAlive);
    BlockIsLines(r, keepAlive);
    BlockIsInner(ls);
    TokensOfInner(ls);
    var block := HeaderBlock(r, keepAlive);
    assert block[..|block| - 4] == Inner(ls);
    StatusIsNoHeader(r.status);
    FramingIsHeader(r);
    TypeIsHeader(r);
    ConnectionIsHeader(keepAlive);
    LinesFit(ls);
    var hs := Announced(r, keepAlive);
    assert ls[1..][1..] == ls[2..] && ls[2..][1..] == ls[3..] && ls[3..][1..] == [];
    assert [hs[2]] + [] == [hs[2]] && [hs[1]] + [hs[2]] == [hs[1], hs[2]] && [hs[0]] + [hs[1], hs[2]] == hs;
    StoredFrom(ls[3..], 2, hs[2], []);
    StoredFrom(ls[2..], 1, hs[1], [hs[2]]);
    StoredFrom(ls[1..], 0, hs[0], [hs[1], hs[2]]);
  }

  lemma LinesFit(ls: seq<string>)
    requires |ls| == 4 && |Block(ls)| < HEADER_SIZE
    ensures forall i :: 0 <= i < 4 ==> |ls[i]| < MAX_HEADER_LINE
  {
    hide Block;
    BlockFirst(ls);
    BlockFirst(ls[1..]);
    BlockFirst(ls[2..]);
    BlockFirst(ls[3..]);
    assert ls[1..][1..] == ls[2..] && ls[2..][1..] == ls[3..];
  }

  // ---------------------------------------------------------------- a reader that follows the framing

  /** A response body as its header delimits it: chunked, or so many bytes. */
  function ReadFramed(raw: string): Option<string> {
    var end := HeadEnd(raw);
    if end.None? then None
    else
      var hs := ParseHeaders(raw[..end.value.pos]);
      if hs.None? then None
      else
        var body := raw[end.value.pos + end.value.len..];
        var lengths := ScanAgreement.StoredValues(hs.value, CONTENT_LENGTH);
        if ScanAgreement.StoredValues(hs.value, TRANSFER_ENCODING) == ["chunked"] then Dechunk(body)
        else if |lengths| == 1 && AllDigits(lengths[0]) && ValueOf(lengths[0]) <= |body| then Some(body[..ValueOf(lengths[0])])
        else None
  }

  lemma AnnouncedValues(r: Reply, keepAlive: bool)
    ensures var hs := Announced(r, keepAlive);
            && ScanAgreement.StoredValues(hs, TRANSFER_ENCODING) == (if r.chunked then ["chunked"] else [])
            && ScanAgreement.StoredValues(hs, CONTENT_LENGTH) == (if r.chunked then [] else [Decimal(r.length)])
  {
    hide ScanAgreement.Named, Decimal, Stripped;
    FramingNamed();
    var hs := Announced(r, keepAlive);
    OtherLength(hs[1].name, CONTENT_LENGTH);
    OtherLength(hs[1].name, TRANSFER_ENCODING);
    OtherLength(hs[2].name, CONTENT_LENGTH);
    OtherLength(hs[2].name, TRANSFER_ENCODING);
    assert hs[1..] == [hs[1], hs[2]] && hs[1..][1..] == [hs[2]] && [hs[2]][1..] == [];
    StoredFirst(hs, CONTENT_LENGTH);
    StoredFirst(hs, TRANSFER_ENCODING);
    StoredFirst(hs[1..], CONTENT_LENGTH);
    StoredFirst(hs[1..], TRANSFER_ENCODING);
    StoredFirst([hs[2]], CONTENT_LENGTH);
    StoredFirst([hs[2]], TRANSFER_ENCODING);
  }

  lemma FramingNamed()
    ensures ScanAgreement.Named("Transfer-Encoding", TRANSFER_ENCODING) && !ScanAgreement.Named("Transfer-Encoding", CONTENT_LENGTH)
    ensures ScanAgreement.Named("Content-Length", CONTENT_LENGTH) && !ScanAgreement.Named("Content-Length", TRANSFER_ENCODING)
    ensures !ScanAgreement.Named("Content-Type", CONTENT_LENGTH)
  {
    hide ScanAgreement.Named;
    LengthName();
    EncodingName();
    OtherLength("Content-Length", TRANSFER_ENCODING);
    OtherLength("Transfer-Encoding", CONTENT_LENGTH);
    OtherLength("Content-Type", CONTENT_LENGTH);
  }

  lemma EncodingName()
    ensures ScanAgreement.Named("Transfer-Encoding", TRANSFER_ENCODING)
  {
  }

  /** Such a reader gets exactly the body, and if the body is not chunked also stops where it ends. */
  lemma FramedBodyIsRead(r: Reply, keepAlive: bool, more: string)
    requires r.Valid() && HeaderValueValid(r.Type()) && |HeaderBlock(r, keepAlive)| < HEADER_SIZE
    requires (r.body.Some? || r.length == 0) && (r.chunked ==> more == "")
    ensures ReadFramed(Wire(r, false, keepAlive) + more) == Some(r.Content())
  {
    hide WellFormedHead, HeaderBlock, ParseHeaders, Announced, Chunks, Dechunk, HeadEnd, ScanAgreement.StoredValues, HeaderValueValid, ValueOf, Decimal;
    var block := HeaderBlock(r, keepAlive);
    var body := (if r.chunked then Chunks(r.Content()) else r.Content()) + more;
    HeadersOnWire(r, keepAlive);
    AnnouncedValues(r, keepAlive);
    BehindBlock(block, body);
    assert Wire(r, false, keepAlive) + more == block + body;
    if r.chunked {
      ChunksDecode(r.Content());
      assert body == Chunks(r.Content());
    } else {
      ValueOfDecimal(r.length);
      assert body[..r.length] == r.Content();
    }
  }

  lemma BehindBlock(block: string, body: string)
    requires WellFormedHead(block)
    ensures |block| >= 4 && HeadEnd(block + body) == Some(Separator(|block| - 4, 4))
    ensures (block + body)[..|block| - 4] == block[..|block| - 4] && (block + body)[|block|..] == body
  {
    HeadEndAppend(block, body);
  }

  /** To HEAD the same header block is sent as to GET, and nothing behind it. */
  lemma HeadIsGetWithoutBody(r: Reply, keepAlive: bool)
    requires HeaderValueValid(r.Type()) && |HeaderBlock(r, keepAlive)| < HEADER_SIZE
    ensures Wire(r, true, keepAlive) <= Wire(r, false, keepAlive)
    ensures WellFormedHead(Wire(r, true, keepAlive)) && HeadEnd(Wire(r, false, keepAlive)) == HeadEnd(Wire(r, true, keepAlive))
  {
    hide WellFormedHead, HeaderBlock, Chunks, HeadEnd, HeaderValueValid;
    var block := HeaderBlock(r, keepAlive);
    HeadersOnWire(r, keepAlive);
    var body := if r.chunked then Chunks(r.Content()) else r.Content();
    HeadEndAppend(block, body);
    EndOfHead(block);
    assert block + "" == block;
  }

  /** Nothing at all is sent exactly if the type holds a control character or the header does not fit. */
  lemma NothingOnWireIff(r: Reply, headOnly: bool, keepAlive: bool)
    ensures Wire(r, headOnly, keepAlive) == ""
            <==> (exists i :: 0 <= i < |r.Type()| && (r.Type()[i] as int < 0x20 || r.Type()[i] as int == 0x7F))
                 || |HeaderBlock(r, keepAlive)| >= HEADER_SIZE
  {
    hide StatusText, FramingLine, TypeLine, ConnectionLine, Chunks;
    assert HeaderBlock(r, keepAlive) != "";
  }

  // ---------------------------------------------------------------- the status line

  /** The phrases of section 15 of RFC 9110, RFC 6585 for 429 and 431. */
  const PHRASES: map<int, string> := map[
    200 := "OK", 201 := "Created", 204 := "No Content", 301 := "Moved Permanently", 302 := "Found",
    400 := "Bad Request", 401 := "Unauthorized", 403 := "Forbidden", 404 := "Not Found", 405 := "Method Not Allowed",
    413 := "Payload Too Large", 429 := "Too Many Requests", 431 := "Request Header Fields Too Large",
    500 := "Internal Server Error", 503 := "Service Unavailable"]

  lemma PhraseOf(status: int)
    ensures StatusText(status) == if status in PHRASES then PHRASES[status] else "Unknown"
  {
  }

  /** The wire starts with the version, the code and its phrase. */
  lemma StatusLineOnWire(r: Reply, headOnly: bool, keepAlive: bool)
    requires HeaderValueValid(r.Type()) && |HeaderBlock(r, keepAlive)| < HEADER_SIZE
    ensures var phrase := if r.status in PHRASES then PHRASES[r.status] else "Unknown";
            "HTTP/1.1 " + Signed(r.status) + " " + phrase + CRLF <= Wire(r, headOnly, keepAlive)
  {
    hide StatusText, FramingLine, TypeLine, ConnectionLine, Chunks, Signed, PHRASES;
    PhraseOf(r.status);
    var rest := FramingLine(r) + (CRLF + (TypeLine(r) + (CRLF + (ConnectionLine(keepAlive) + CRLF2))));
    assert HeaderBlock(r, keepAlive) == (StatusLine(r.status) + CRLF) + rest;
  }
}
