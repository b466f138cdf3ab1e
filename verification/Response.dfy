/** send_response against mnet_read_response: what the server writes is what the client reads. */
module Response {
  import opened Bytes
  import opened Request
  import Connection

  const HEADER_SIZE := 1024
  const MAX_BODY_SIZE := 16 * 1024 * 1024
  const RECV_SIZE := 8192

  /** mnet_response_t.  `length` is what a handler sets as body_length; without a body it can be anything. */
  datatype Reply = Reply(status: int, contentType: Option<string>, body: Option<string>, length: nat, chunked: bool) {
    predicate Valid() { body.Some? ==> |body.value| == length }
    function Content(): string { if body.Some? then body.value else "" }
    function Type(): string { if contentType.Some? then contentType.value else "application/octet-stream" }
  }

  // ---------------------------------------------------------------- the writer

  /** mnet_header_value_valid: no control characters, so no CR and no LF. */
  predicate HeaderValueValid(s: string) {
    forall i :: 0 <= i < |s| ==> s[i] >= ' ' && s[i] as int != 0x7F
  }

  function StatusText(status: int): string {
    if status == 200 then "OK"
    else if status == 201 then "Created"
    else if status == 204 then "No Content"
    else if status == 301 then "Moved Permanently"
    else if status == 302 then "Found"
    else if status == 400 then "Bad Request"
    else if status == 401 then "Unauthorized"
    else if status == 403 then "Forbidden"
    else if status == 404 then "Not Found"
    else if status == 405 then "Method Not Allowed"
    else if status == 413 then "Payload Too Large"
    else if status == 429 then "Too Many Requests"
    else if status == 431 then "Request Header Fields Too Large"
    else if status == 500 then "Internal Server Error"
    else if status == 503 then "Service Unavailable"
    else "Unknown"
  }

  /** printf's %d. */
  function Signed(n: int): string {
    if n < 0 then "-" + Decimal(-n) else Decimal(n)
  }

  function StatusLine(status: int): string { "HTTP/1.1 " + Signed(status) + " " + StatusText(status) }

  function FramingLine(r: Reply): string {
    if r.chunked then "Transfer-Encoding: chunked" else "Content-Length: " + Decimal(r.length)
  }

  function TypeLine(r: Reply): string { "Content-Type: " + r.Type() }

  function ConnectionLine(keepAlive: bool): string {
    "Connection: " + if keepAlive then "keep-alive" else "close"
  }

  function HeaderBlock(r: Reply, keepAlive: bool): string {
    StatusLine(r.status) + (CRLF + (FramingLine(r) + (CRLF + (TypeLine(r) + (CRLF + (ConnectionLine(keepAlive) + CRLF2))))))
  }

  /** printf's %zx. */
  function Hex(n: nat): (s: string)
    ensures s != "" && forall i :: 0 <= i < |s| ==> IsHex(s[i])
  {
    if n < 16 then [HexDigit(n)] else Hex(n / 16) + [HexDigit(n % 16)]
  }

  /** The body as one chunk and the terminating chunk. */
  function Chunks(body: string): string {
    (if body == "" then "" else Hex(|body|) + CRLF + body + CRLF) + "0" + CRLF + CRLF
  }

  /** The bytes send_response puts on the wire: none if the content type could split the response or
      the header block does not fit its buffer. */
  function Wire(r: Reply, headOnly: bool, keepAlive: bool): string {
    if !HeaderValueValid(r.Type()) || |HeaderBlock(r, keepAlive)| >= HEADER_SIZE then ""
    else HeaderBlock(r, keepAlive) + if headOnly then "" else if r.chunked then Chunks(r.Content()) else r.Content()
  }

  /** send_response, one mnet_send after the other. */
  method SendResponse(r: Reply, headOnly: bool, keepAlive: bool) returns (sent: seq<string>)
    requires r.Valid()
    ensures Concat(sent) == Wire(r, headOnly, keepAlive)
  {
    hide HeaderBlock, HeaderValueValid, Chunks, Concat;
    NothingSent();
    sent := [];
    if !HeaderValueValid(r.Type()) {
      return;
    }
    var header := HeaderBlock(r, keepAlive);
    if |header| >= HEADER_SIZE {
      return;
    }
    if !headOnly && !r.chunked && r.body.Some? && r.length > 0 {
      ConcatAppend([], header + r.body.value);
      sent := [header + r.body.value];
    } else {
      ConcatAppend([], header);
      sent := [header];
      if !headOnly && r.chunked {
        sent := SendChunks(sent, r.body);
      }
    }
    assert header + "" == header && "" + Concat(sent) == Concat(sent);
  }

  lemma NothingSent()
    ensures Concat([]) == ""
    ensures forall piece: string :: "" + piece == piece && [] + [piece] == [piece]
  {
  }

  method SendChunks(before: seq<string>, body: Option<string>) returns (sent: seq<string>)
    ensures Concat(sent) == Concat(before) + Chunks(if body.Some? then body.value else "")
  {
    hide Concat, Hex;
    ghost var text := if body.Some? then body.value else "";
    sent := before;
    ghost var chunk := "";
    assert Concat(before) + "" == Concat(before);
    if body.Some? && |body.value| > 0 {
      var size := Hex(|body.value|) + CRLF;
      sent := Send3(before, size, body.value, CRLF);
      chunk := size + body.value + CRLF;
    }
    ConcatAppend(sent, "0" + CRLF + CRLF);
    sent := sent + ["0" + CRLF + CRLF];
    Assoc(Concat(before), chunk, "0" + CRLF + CRLF);
    assert Chunks(text) == chunk + ("0" + CRLF + CRLF) by {
      assert chunk + "0" + CRLF + CRLF == chunk + ("0" + CRLF + CRLF);
    }
  }

  method Send3(before: seq<string>, a: string, b: string, c: string) returns (sent: seq<string>)
    ensures Concat(sent) == Concat(before) + (a + b + c)
  {
    hide Concat;
    ConcatAppend(before, a);
    ConcatAppend(before + [a], b);
    ConcatAppend(before + [a] + [b], c);
    sent := before + [a] + [b] + [c];
    assert Concat(before) + a + b + c == Concat(before) + (a + b + c);
  }

  lemma {:induction false} ConcatAppend(feed: Feed, piece: string)
    ensures Concat(feed + [piece]) == Concat(feed) + piece
  {
    if feed == [] {
      assert feed + [piece] == [piece];
      assert [piece][1..] == [] && piece + "" == piece && "" + piece == piece;
    } else {
      assert (feed + [piece])[1..] == feed[1..] + [piece];
      ConcatAppend(feed[1..], piece);
      Assoc(feed[0], Concat(feed[1..]), piece);
    }
  }

  // ---------------------------------------------------------------- the reader

  /** Everything that arrives before the end of the stream, up to the first piece that reaches `cap`. */
  function ReadAll(feed: Feed, raw: string, cap: nat): string
    requires ValidFeed(feed)
    decreases if |raw| < cap then cap - |raw| else 0
  {
    if |raw| >= cap then raw
    else
      var (data, rest) := Recv(feed, RECV_SIZE);
      if data.None? then raw else ReadAll(rest, raw + data.value, cap)
  }

  /** It takes a beginning of the stream, and stops short of its end only behind `cap`. */
  lemma {:induction false} ReadAllTakes(feed: Feed, raw: string, cap: nat)
    requires ValidFeed(feed)
    ensures raw <= ReadAll(feed, raw, cap) <= raw + Concat(feed)
    ensures |ReadAll(feed, raw, cap)| >= cap || ReadAll(feed, raw, cap) == raw + Concat(feed)
    decreases if |raw| < cap then cap - |raw| else 0
  {
    hide Concat, Recv;
    if |raw| < cap {
      var (data, rest) := Recv(feed, RECV_SIZE);
      if data.Some? {
        Assoc(raw, data.value, Concat(rest));
        ReadAllTakes(rest, raw + data.value, cap);
      } else {
        NothingSent();
        assert raw + "" == raw;
      }
    }
  }

  /** atoi. */
  function Atoi(s: string): int {
    var t := s[SpaceRun(s)..];
    if t != "" && t[0] == '-' then 0 - NumberPrefix(t[1..])
    else if t != "" && t[0] == '+' then NumberPrefix(t[1..])
    else NumberPrefix(t)
  }

  function NumberPrefix(s: string): nat {
    ValueOf(s[..Digits(s)])
  }

  function StatusOf(raw: string): int {
    if |raw| >= 12 && raw[..5] == "HTTP/" && UpTo(raw, ' ') < |raw| then Atoi(raw[UpTo(raw, ' ') + 1..]) else 0
  }

  /** The first blank line, CRLFCRLF or LFLF, whichever comes first; the end if there is none. */
  function BodyStart(raw: string): (n: nat)
    ensures n <= |raw|
  {
    if |raw| < 2 then |raw|
    else if |raw| >= 4 && raw[0] == '\r' && raw[1] == '\n' && raw[2] == '\r' && raw[3] == '\n' then 4
    else if raw[0] == '\n' && raw[1] == '\n' then 2
    else 1 + BodyStart(raw[1..])
  }

  /** mnet_read_response: body and status, or failure if nothing came or the stream broke off.  An
      interrupted receive (EINTR) is repeated, so it leaves no trace in the stream. */
  function ReadResponse(feed: Feed, broken: bool, maxBody: nat): Option<(string, int)>
    requires ValidFeed(feed)
  {
    var raw := ReadAll(feed, "", maxBody + RECV_SIZE);
    if raw == "" || (broken && |raw| < maxBody + RECV_SIZE) then None
    else
      var body := raw[BodyStart(raw)..];
      Some((if |body| > maxBody then body[..maxBody] else body, StatusOf(raw)))
  }

  /** The body starts behind the blank line that comes first, if there is one, and with no blank line there
      is no body. */
  lemma {:induction false} BodyStartIsFirst(raw: string)
    ensures var crlf, lf := Find(raw, CRLF2), Find(raw, LF2);
            BodyStart(raw) == if crlf.None? && lf.None? then |raw|
                              else if lf.None? || (crlf.Some? && crlf.value < lf.value) then crlf.value + 4
                              else lf.value + 2
    decreases |raw|
  {
    hide Find;
    BlankLineHere(raw);
    if |raw| >= 2 && !OccursAt(raw, CRLF2, 0) && !OccursAt(raw, LF2, 0) {
      BodyStartIsFirst(raw[1..]);
      FindBehind(raw, CRLF2);
      FindBehind(raw, LF2);
    } else if |raw| >= 2 {
      FindHere(raw, CRLF2);
      FindHere(raw, LF2);
    } else {
      FindNowhere(raw, CRLF2);
      FindNowhere(raw, LF2);
    }
  }

  lemma BlankLineHere(raw: string)
    ensures OccursAt(raw, CRLF2, 0) <==> |raw| >= 4 && raw[0] == '\r' && raw[1] == '\n' && raw[2] == '\r' && raw[3] == '\n'
    ensures OccursAt(raw, LF2, 0) <==> |raw| >= 2 && raw[0] == '\n' && raw[1] == '\n'
  {
    if |raw| >= 4 { assert raw[0..4] == [raw[0], raw[1], raw[2], raw[3]]; }
    if |raw| >= 2 { assert raw[0..2] == [raw[0], raw[1]]; }
  }

  lemma FindHere(s: string, needle: string)
    requires needle != ""
    ensures OccursAt(s, needle, 0) <==> Find(s, needle) == Some(0)
  {
    if OccursAt(s, needle, 0) { assert Find(s, needle).Some?; }
  }

  lemma FindBehind(s: string, needle: string)
    requires s != "" && needle != "" && !OccursAt(s, needle, 0)
    ensures Find(s, needle) == var r := Find(s[1..], needle); if r.None? then None else Some(r.value + 1)
  {
    hide OccursAt;
    var q, r := Find(s, needle), Find(s[1..], needle);
    if q.Some? { OneFurther(s, needle, q.value - 1); }
    if r.Some? { OneFurther(s, needle, r.value); }
  }

  lemma OneFurther(s: string, needle: string, i: nat)
    requires s != ""
    ensures OccursAt(s, needle, i + 1) <==> OccursAt(s[1..], needle, i)
  {
    if i + 1 + |needle| <= |s| { assert s[i + 1..i + 1 + |needle|] == s[1..][i..i + |needle|]; }
  }

  lemma FindNowhere(s: string, needle: string)
    requires |s| < |needle|
    ensures Find(s, needle) == None
  {
  }

  /** What does not start like a status line has no status. */
  lemma NoStatus(raw: string)
    requires |raw| < 12 || !("HTTP/" <= raw) || ' ' !in raw
    ensures StatusOf(raw) == 0
  {
    if |raw| >= 5 { assert "HTTP/" <= raw <==> raw[..5] == "HTTP/"; }
    UpToStays(raw);
  }

  lemma UpToStays(raw: string)
    requires |raw| < 12 || !("HTTP/" <= raw) || ' ' !in raw
    ensures ' ' !in raw ==> UpTo(raw, ' ') == |raw|
  {
    if ' ' !in raw { UpToIs(raw, ' ', |raw|); }
  }

  // ---------------------------------------------------------------- the round trip

  lemma BodyStartStep(s: string)
    requires |s| >= 2
    ensures BodyStart(s)
            == if |s| >= 4 && s[0] == '\r' && s[1] == '\n' && s[2] == '\r' && s[3] == '\n' then 4
               else if s[0] == '\n' && s[1] == '\n' then 2
               else 1 + BodyStart(s[1..])
  {
  }

  lemma {:induction false} LineSkipped(line: string, rest: string)
    requires NoBreak(line) && rest != "" && rest[0] != '\r' && rest[0] != '\n'
    ensures BodyStart(line + (CRLF + rest)) == |line| + 2 + BodyStart(rest)
  {
    hide BodyStart;
    var s := line + (CRLF + rest);
    BodyStartStep(s);
    if line == "" {
      assert s == CRLF + rest && s[1..] == "\n" + rest;
      BodyStartStep(s[1..]);
      assert s[1..][1..] == rest;
      assert s[0] == '\r' && s[2] == rest[0] && s[1..][0] == '\n' && s[1..][1] == rest[0];
    } else {
      assert s[0] == line[0] && s[1..] == line[1..] + (CRLF + rest);
      LineSkipped(line[1..], rest);
    }
  }

  lemma {:induction false} LastLine(line: string, body: string)
    requires NoBreak(line)
    ensures BodyStart(line + (CRLF2 + body)) == |line| + 4
  {
    hide BodyStart;
    var s := line + (CRLF2 + body);
    BodyStartStep(s);
    if line == "" {
      assert s[0] == CRLF2[0] && s[1] == CRLF2[1] && s[2] == CRLF2[2] && s[3] == CRLF2[3];
    } else {
      assert s[0] == line[0] && s[1..] == line[1..] + (CRLF2 + body);
      LastLine(line[1..], body);
    }
  }

  predicate Printable(s: string) { forall i :: 0 <= i < |s| ==> ' ' <= s[i] <= '~' }

  lemma StatusTextIsPlain(status: int)
    ensures Printable(StatusText(status))
  {
    hide Printable;
    SuccessTextsArePlain();
    ClientErrorTextsArePlain();
    ServerErrorTextsArePlain();
  }

  lemma SuccessTextsArePlain()
    ensures Printable("OK") && Printable("Created") && Printable("No Content") && Printable("Moved Permanently") && Printable("Found")
  {
  }

  lemma ClientErrorTextsArePlain()
    ensures Printable("Bad Request") && Printable("Unauthorized") && Printable("Forbidden") && Printable("Not Found")
    ensures Printable("Method Not Allowed") && Printable("Payload Too Large") && Printable("Too Many Requests")
    ensures Printable("Request Header Fields Too Large")
  {
    hide Printable;
    ShortTextsArePlain();
    LongTextsArePlain();
  }

  lemma ShortTextsArePlain()
    ensures Printable("Bad Request") && Printable("Unauthorized") && Printable("Forbidden") && Printable("Not Found")
  {
  }

  lemma LongTextsArePlain()
    ensures Printable("Method Not Allowed") && Printable("Payload Too Large") && Printable("Too Many Requests")
    ensures Printable("Request Header Fields Too Large")
  {
  }

  lemma ServerErrorTextsArePlain()
    ensures Printable("Internal Server Error") && Printable("Service Unavailable") && Printable("Unknown")
  {
  }

  lemma DecimalIsPlain(n: nat)
    ensures NoBreak(Decimal(n))
  {
    var s := Decimal(n);
  }

  lemma StatusLineIsPlain(status: int)
    ensures NoBreak(StatusLine(status)) && StatusLine(status)[0] == 'H'
  {
    hide Decimal, StatusText;
    StatusTextIsPlain(status);
    assert NoBreak(StatusText(status));
    DecimalIsPlain(if status < 0 then -status else status);
    assert NoBreak("HTTP/1.1 ") && NoBreak("-") && NoBreak(" ");
    if status < 0 { PlainConcat("-", Decimal(-status)); }
    PlainConcat("HTTP/1.1 ", Signed(status));
    PlainConcat("HTTP/1.1 " + Signed(status), " ");
    PlainConcat("HTTP/1.1 " + Signed(status) + " ", StatusText(status));
  }

  lemma FramingLineIsPlain(r: Reply)
    ensures NoBreak(FramingLine(r)) && FramingLine(r) != "" && !BreakFirst(FramingLine(r))
  {
    hide Decimal;
    assert NoBreak("Transfer-Encoding: chunked") && NoBreak("Content-Length: ");
    DecimalIsPlain(r.length);
    PlainConcat("Content-Length: ", Decimal(r.length));
  }

  lemma TypeLineIsPlain(r: Reply)
    requires HeaderValueValid(r.Type())
    ensures NoBreak(TypeLine(r)) && TypeLine(r) != "" && !BreakFirst(TypeLine(r))
  {
    assert NoBreak("Content-Type: ") && NoBreak(r.Type());
    PlainConcat("Content-Type: ", r.Type());
  }

  lemma ConnectionLineIsPlain(keepAlive: bool)
    ensures NoBreak(ConnectionLine(keepAlive)) && ConnectionLine(keepAlive) != "" && !BreakFirst(ConnectionLine(keepAlive))
  {
    var value := if keepAlive then "keep-alive" else "close";
    assert NoBreak("Connection: ") && NoBreak(value);
    PlainConcat("Connection: ", value);
  }

  predicate BreakFirst(s: string) { s != "" && (s[0] == '\r' || s[0] == '\n') }

  /** The first blank line of what was written is the one that ends the header block. */
  lemma BlankLineEndsHeader(r: Reply, keepAlive: bool, body: string)
    requires HeaderValueValid(r.Type())
    ensures BodyStart(HeaderBlock(r, keepAlive) + body) == |HeaderBlock(r, keepAlive)|
  {
    hide BodyStart, NoBreak, StatusLine, FramingLine, TypeLine, ConnectionLine, HeaderValueValid;
    StatusLineIsPlain(r.status);
    FramingLineIsPlain(r);
    TypeLineIsPlain(r);
    ConnectionLineIsPlain(keepAlive);
    var a, b, c, d := StatusLine(r.status), FramingLine(r), TypeLine(r), ConnectionLine(keepAlive);
    var s4 := d + (CRLF2 + body);
    LastLine(d, body);
    LineSkipped(c, s4);
    var s3 := c + (CRLF + s4);
    LineSkipped(b, s3);
    var s2 := b + (CRLF + s3);
    LineSkipped(a, s2);
    Reassociate(a, b, c, d, body);
  }

  lemma Reassociate(a: string, b: string, c: string, d: string, body: string)
    ensures (a + (CRLF + (b + (CRLF + (c + (CRLF + (d + CRLF2))))))) + body
            == a + (CRLF + (b + (CRLF + (c + (CRLF + (d + (CRLF2 + body)))))))
  {
    Assoc(a, CRLF + (b + (CRLF + (c + (CRLF + (d + CRLF2))))), body);
    Assoc(CRLF, b + (CRLF + (c + (CRLF + (d + CRLF2)))), body);
    Assoc(b, CRLF + (c + (CRLF + (d + CRLF2))), body);
    Assoc(CRLF, c + (CRLF + (d + CRLF2)), body);
    Assoc(c, CRLF + (d + CRLF2), body);
    Assoc(CRLF, d + CRLF2, body);
    Assoc(d, CRLF2, body);
  }

  lemma NumberBack(n: nat, rest: string)
    requires rest != "" && !IsDigit(rest[0])
    ensures NumberPrefix(Decimal(n) + rest) == n
  {
    var s := Decimal(n);
    DigitsIs(s + rest, |s|);
    assert (s + rest)[..|s|] == s;
    ValueOfDecimal(n);
  }

  lemma AtoiSigned(n: int, rest: string)
    requires rest != "" && !IsDigit(rest[0])
    ensures Atoi(Signed(n) + rest) == n
  {
    hide NumberPrefix, Decimal, SpaceRun, Signed;
    var t := Signed(n) + rest;
    SignedShape(n);
    assert t[0] == Signed(n)[0];
    SpaceRunIs(t, 0);
    assert t[0..] == t;
    if n < 0 {
      assert t[1..] == Decimal(-n) + rest;
      NumberBack(-n, rest);
    } else {
      NumberBack(n, rest);
    }
  }

  lemma SignedShape(n: int)
    ensures n < 0 ==> Signed(n) == "-" + Decimal(-n)
    ensures n >= 0 ==> Signed(n) == Decimal(n)
    ensures Signed(n) != "" && !IsSpace(Signed(n)[0]) && (n >= 0 ==> Signed(n)[0] != '-' && Signed(n)[0] != '+')
  {
  }

  /** The client reads the status code that was written. */
  lemma StatusBack(status: int, rest: string)
    requires rest != ""
    ensures StatusOf("HTTP/1.1 " + Signed(status) + " " + rest) == status
  {
    hide Signed, Atoi;
    var first := "HTTP/1.1 ";
    var tail := Signed(status) + (" " + rest);
    var raw := first + tail;
    assert raw == "HTTP/1.1 " + Signed(status) + " " + rest;
    assert raw[..9] == first && first[..5] == "HTTP/";
    assert forall i :: 0 <= i < 8 ==> raw[i] == first[i] && first[i] != ' ';
    UpToIs(raw, ' ', 8);
    assert raw[9..] == tail && raw[..5] == first[..5];
    SignedNonEmpty(status);
    AtoiSigned(status, " " + rest);
  }

  lemma SignedNonEmpty(n: int)
    ensures |Signed(n)| >= 1
  {
  }

  /** Round trip: of a non-chunked response whose header block fits, the client reads the status and the
      body up to its cap, for every way in which the bytes are cut into pieces; for HEAD no body. */
  lemma ResponseRoundTrip(r: Reply, headOnly: bool, keepAlive: bool, feed: Feed)
    requires HeaderValueValid(r.Type()) && |HeaderBlock(r, keepAlive)| < HEADER_SIZE && !r.chunked
    requires ValidFeed(feed) && Concat(feed) == Wire(r, headOnly, keepAlive)
    ensures ReadResponse(feed, false, MAX_BODY_SIZE) == Some((if headOnly then "" else Capped(r.Content()), r.status))
  {
    ReadsBack(r, keepAlive, if headOnly then "" else r.Content(), feed);
  }

  /** What the client keeps of a body. */
  function Capped(body: string): string { body[..Min(|body|, MAX_BODY_SIZE)] }

  lemma ReadsBack(r: Reply, keepAlive: bool, body: string, feed: Feed)
    requires HeaderValueValid(r.Type()) && |HeaderBlock(r, keepAlive)| < HEADER_SIZE
    requires ValidFeed(feed) && Concat(feed) == HeaderBlock(r, keepAlive) + body
    ensures ReadResponse(feed, false, MAX_BODY_SIZE) == Some((Capped(body), r.status))
  {
    hide BodyStart, StatusOf, HeaderValueValid, ReadAll, HeaderBlock;
    var header := HeaderBlock(r, keepAlive);
    var raw := ReadAll(feed, "", MAX_BODY_SIZE + RECV_SIZE);
    ReadAllTakes(feed, "", MAX_BODY_SIZE + RECV_SIZE);
    assert "" + Concat(feed) == header + body;
    var part := PartOfBody(raw, header, body);
    BlankLineEndsHeader(r, keepAlive, part);
    HeaderStatus(r, keepAlive, part);
    assert raw[|header|..] == part && part[..|part|] == part;
  }

  /** A beginning of header and body that holds the header, and the whole body or more of it than is kept. */
  lemma PartOfBody(raw: string, header: string, body: string) returns (part: string)
    requires raw <= header + body && |header| < HEADER_SIZE
    requires |raw| >= MAX_BODY_SIZE + RECV_SIZE || raw == header + body
    ensures raw == header + part && Capped(part) == Capped(body)
  {
    part := raw[|header|..];
    assert raw == (header + body)[..|raw|];
    assert part == body[..|part|];
  }

  lemma HeaderStatus(r: Reply, keepAlive: bool, body: string)
    ensures StatusOf(HeaderBlock(r, keepAlive) + body) == r.status && HeaderBlock(r, keepAlive) != ""
  {
    hide StatusOf, StatusText, FramingLine, TypeLine, ConnectionLine, Signed;
    var header := HeaderBlock(r, keepAlive);
    var rest := header[|StatusLine(r.status)|..];
    assert header == StatusLine(r.status) + rest;
    assert header + body == "HTTP/1.1 " + Signed(r.status) + " " + (StatusText(r.status) + rest + body);
    StatusBack(r.status, StatusText(r.status) + rest + body);
  }

  /** A stream that breaks off before the client has read enough gives nothing, and neither does an empty one. */
  lemma BrokenStreamFails(feed: Feed, broken: bool, maxBody: nat)
    requires ValidFeed(feed) && |Concat(feed)| < maxBody + RECV_SIZE && (broken || Concat(feed) == "")
    ensures ReadResponse(feed, broken, maxBody) == None
  {
    hide ReadAll;
    ReadAllTakes(feed, "", maxBody + RECV_SIZE);
    assert "" + Concat(feed) == Concat(feed);
  }

  // ---------------------------------------------------------------- chunked responses

  /** The client does not undo the chunked framing: it hands it out as the body. */
  lemma ChunkedIsReadRaw(r: Reply, keepAlive: bool, feed: Feed)
    requires HeaderValueValid(r.Type()) && |HeaderBlock(r, keepAlive)| < HEADER_SIZE
    requires r.chunked
    requires ValidFeed(feed) && Concat(feed) == Wire(r, false, keepAlive)
    ensures ReadResponse(feed, false, MAX_BODY_SIZE) == Some((Capped(Chunks(r.Content())), r.status))
  {
    ReadsBack(r, keepAlive, Chunks(r.Content()), feed);
  }

  function HexRun(s: string): (n: nat)
    ensures n <= |s| && (forall i :: 0 <= i < n ==> IsHex(s[i])) && (n < |s| ==> !IsHex(s[n]))
  {
    if s != "" && IsHex(s[0]) then 1 + HexRun(s[1..]) else 0
  }

  lemma {:induction false} HexRunIs(s: string, n: nat)
    requires n <= |s| && (forall i :: 0 <= i < n ==> IsHex(s[i])) && (n < |s| ==> !IsHex(s[n]))
    ensures HexRun(s) == n
  {
    if n > 0 { HexRunIs(s[1..], n - 1); }
  }

  function HexNumber(s: string): nat
    requires forall i :: 0 <= i < |s| ==> IsHex(s[i])
  {
    if s == "" then 0
    else
      assert IsHex(s[|s| - 1]);
      HexNumber(s[..|s| - 1]) * 16 + HexValue(s[|s| - 1])
  }

  /** One chunk: its data, and what follows it; the last chunk has no data and must end the text. */
  function OneChunk(s: string): (r: Option<(string, string)>)
    ensures r.Some? ==> |r.value.1| < |s|
  {
    var n := HexRun(s);
    if n == 0 || !(CRLF <= s[n..]) then None
    else
      var size := HexNumber(s[..n]);
      var data := s[n + 2..];
      if size == 0 then (if data == CRLF then Some(("", "")) else None)
      else if |data| < size + 2 || data[size..size + 2] != CRLF then None
      else Some((data[..size], data[size + 2..]))
  }

  /** A decoder for the chunked coding of section 7.1 of RFC 9112, without extensions and trailers. */
  function Dechunk(s: string): Option<string>
    decreases |s|
  {
    var chunk := OneChunk(s);
    if chunk.None? then None
    else if chunk.value.0 == "" then Some("")
    else
      var rest := Dechunk(chunk.value.1);
      if rest.None? then None else Some(chunk.value.0 + rest.value)
  }

  lemma {:induction false} HexBack(n: nat)
    ensures HexNumber(Hex(n)) == n
  {
    var s := Hex(n);
    if n < 16 {
      assert s[..|s| - 1] == "" && HexNumber("") == 0;
    } else {
      HexBack(n / 16);
      assert s[..|s| - 1] == Hex(n / 16);
    }
  }

  lemma ChunkSizeBack(n: nat, rest: string)
    ensures var s := Hex(n) + (CRLF + rest);
            HexRun(s) == |Hex(n)| && HexNumber(s[..HexRun(s)]) == n && CRLF <= s[HexRun(s)..] && s[HexRun(s) + 2..] == rest
  {
    var s := Hex(n) + (CRLF + rest);
    var k := |Hex(n)|;
    assert s[k] == '\r';
    HexRunIs(s, k);
    assert s[..k] == Hex(n) && s[k..] == CRLF + rest && s[k + 2..] == rest;
    HexBack(n);
  }

  lemma LastChunkBack()
    ensures OneChunk("0" + CRLF + CRLF) == Some(("", ""))
  {
    hide HexRun, HexNumber, Hex;
    ChunkSizeBack(0, CRLF);
    HexZero();
    assert "0" + CRLF + CRLF == Hex(0) + (CRLF + CRLF);
  }

  lemma HexZero()
    ensures Hex(0) == "0"
  {
  }

  lemma ChunkBack(body: string, last: string)
    requires body != ""
    ensures OneChunk(Hex(|body|) + (CRLF + (body + (CRLF + last)))) == Some((body, last))
  {
    hide Hex, HexRun, HexNumber, OneChunk;
    var rest := body + (CRLF + last);
    ChunkSizeBack(|body|, rest);
    DataBack(body, last);
    OneChunkIs(Hex(|body|) + (CRLF + rest), body, last);
  }

  lemma DataBack(body: string, last: string)
    ensures var rest := body + (CRLF + last);
            |rest| >= |body| + 2 && rest[|body|..|body| + 2] == CRLF && rest[|body| + 2..] == last && rest[..|body|] == body
  {
  }

  lemma OneChunkIs(s: string, body: string, last: string)
    requires body != "" && HexRun(s) > 0 && CRLF <= s[HexRun(s)..] && HexNumber(s[..HexRun(s)]) == |body|
    requires var rest := s[HexRun(s) + 2..];
             |rest| >= |body| + 2 && rest[|body|..|body| + 2] == CRLF && rest[|body| + 2..] == last && rest[..|body|] == body
    ensures OneChunk(s) == Some((body, last))
  {
    hide HexRun, HexNumber;
  }

  /** The framing is a faithful chunked coding: decoding it gives the body back. */
  lemma ChunksDecode(body: string)
    ensures Dechunk(Chunks(body)) == Some(body)
  {
    hide Hex, OneChunk;
    var last := "0" + CRLF + CRLF;
    LastChunkBack();
    if body == "" {
      assert Chunks(body) == last;
    } else {
      ChunkBack(body, last);
      assert Chunks(body) == Hex(|body|) + (CRLF + (body + (CRLF + last)));
      assert Dechunk(last) == Some("");
      assert body + "" == body;
    }
  }

  // ---------------------------------------------------------------- the reading loops

  /** realloc: a block of at least `need` characters, doubled from its old size, with the contents kept. */
  method GrowRaw(raw: array<char>, rawLen: nat, need: nat) returns (grown: array<char>)
    requires rawLen <= raw.Length
    ensures fresh(grown) && grown.Length >= need && grown.Length >= rawLen && grown[..rawLen] == raw[..rawLen]
  {
    var capacity := if raw.Length > 0 then raw.Length * 2 else 16384;
    while capacity < need
      invariant capacity >= raw.Length && capacity > 0
      decreases need - capacity
    {
      capacity := capacity * 2;
    }
    grown := new char[capacity];
    for i := 0 to rawLen
      invariant grown[..i] == raw[..i]
    {
      grown[i] := raw[i];
    }
  }

  /** The receive loop of mnet_read_response, with its doubling buffer. */
  method ReadAllLoop(sock: Connection.Socket, cap: nat) returns (raw: array<char>, rawLen: nat)
    requires sock.Valid()
    modifies sock
    ensures sock.Valid() && rawLen <= raw.Length && fresh(raw) && sock.broken == old(sock.broken)
    ensures raw[..rawLen] == ReadAll(old(sock.feed), "", cap)
  {
    hide ReadAll, Recv;
    raw := new char[0];
    rawLen := 0;
    assert raw[..0] == "";
    while rawLen < cap
      invariant sock.Valid() && rawLen <= raw.Length && fresh(raw) && sock.broken == old(sock.broken)
      invariant ReadAll(sock.feed, raw[..rawLen], cap) == ReadAll(old(sock.feed), "", cap)
      decreases cap - rawLen
    {
      ReadAllStep(sock.feed, raw[..rawLen], cap);
      var data := sock.Receive(RECV_SIZE);
      if data.None? {
        return;
      }
      if rawLen + |data.value| > raw.Length {
        raw := GrowRaw(raw, rawLen, rawLen + |data.value|);
      }
      Connection.CopyInto(raw, rawLen, data.value);
      rawLen := rawLen + |data.value|;
    }
    ReadAllEnds(sock.feed, raw[..rawLen], cap);
  }

  lemma ReadAllEnds(feed: Feed, raw: string, cap: nat)
    requires ValidFeed(feed) && |raw| >= cap
    ensures ReadAll(feed, raw, cap) == raw
  {
  }

  lemma ReadAllStep(feed: Feed, raw: string, cap: nat)
    requires ValidFeed(feed) && |raw| < cap
    ensures var (data, rest) := Recv(feed, RECV_SIZE);
            ReadAll(feed, raw, cap) == if data.None? then raw else ReadAll(rest, raw + data.value, cap)
  {
  }

  /** The search for the blank line. */
  method FindBody(raw: array<char>, rawLen: nat) returns (n: nat)
    requires rawLen <= raw.Length
    ensures n == BodyStart(raw[..rawLen])
  {
    hide BodyStart;
    var i := 0;
    assert raw[0..rawLen] == raw[..rawLen];
    while i + 1 < rawLen
      invariant i <= rawLen
      invariant BodyStart(raw[..rawLen]) == i + BodyStart(raw[i..rawLen])
    {
      BodyStartStep(raw[i..rawLen]);
      assert raw[i..rawLen][1..] == raw[i + 1..rawLen];
      if i + 3 < rawLen && raw[i] == '\r' && raw[i + 1] == '\n' && raw[i + 2] == '\r' && raw[i + 3] == '\n' {
        return i + 4;
      }
      if raw[i] == '\n' && raw[i + 1] == '\n' {
        return i + 2;
      }
      i := i + 1;
    }
    BodyStartEnds(raw[i..rawLen]);
    return rawLen;
  }

  lemma BodyStartEnds(s: string)
    requires |s| < 2
    ensures BodyStart(s) == |s|
  {
  }

  /** mnet_read_response. */
  method ReadResponseCall(sock: Connection.Socket, maxBody: nat) returns (r: Option<(string, int)>)
    requires sock.Valid()
    modifies sock
    ensures r == ReadResponse(old(sock.feed), old(sock.broken), maxBody)
  {
    hide ReadAll, BodyStart, StatusOf;
    var raw, rawLen := ReadAllLoop(sock, maxBody + RECV_SIZE);
    if rawLen == 0 || (sock.broken && rawLen < maxBody + RECV_SIZE) {
      return None;
    }
    var status := StatusOf(raw[..rawLen]);
    var start := FindBody(raw, rawLen);
    assert raw[..rawLen][start..] == raw[start..rawLen];
    var length := rawLen - start;
    if length > maxBody {
      length := maxBody;
    }
    assert raw[start..rawLen][..length] == raw[start..start + length];
    return Some((raw[start..start + length], status));
  }
}
