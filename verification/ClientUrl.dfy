/** mnet_url_parse and the request that mnet_call writes, against the server that reads it. */
module ClientUrl {
  import opened Bytes
  import opened HeadScan
  import opened Request
  import opened RequestText
  import Connection
  import Routes
  import ScanAgreement

  const MAX_HOST := 1023
  const MAX_PATH := 2047
  const REQUEST_SIZE := 4096
  const DEFAULT_PORT := 80

  datatype Url = Url(host: string, port: nat, path: string)

  // ---------------------------------------------------------------- parsing

  function AfterScheme(url: string): string {
    if "https://" <= url then url[8..] else if "http://" <= url then url[7..] else url
  }

  /** strtol over the whole text, if it consumes all of it. */
  function WholeNumber(text: string): Option<int> {
    var t := text[SpaceRun(text)..];
    var negative := t != "" && t[0] == '-';
    var ds := if t != "" && (t[0] == '-' || t[0] == '+') then t[1..] else t;
    if ds == "" || Digits(ds) < |ds| then None
    else Some(if negative then 0 - ValueOf(ds) else ValueOf(ds))
  }

  /** A port that is not a number from 1 to 65535 counts for nothing. */
  function PortOf(text: string): nat {
    var n := WholeNumber(text);
    if n.Some? && 0 < n.value < 65536 then n.value else DEFAULT_PORT
  }

  function Cut(s: string, max: nat): string { if |s| > max then s[..max] else s }

  /** Where the port ends in what follows the host: nowhere without a colon. */
  function PortEnd(rest: string): (n: nat)
    ensures n <= |rest|
  {
    if rest != "" && rest[0] == ':' then 1 + RunLength(rest[1..], "/?#") else 0
  }

  function PortIn(rest: string): nat {
    if PortEnd(rest) > 1 then PortOf(rest[1..PortEnd(rest)]) else DEFAULT_PORT
  }

  function ParseUrl(url: string): Option<Url> {
    var s := AfterScheme(url);
    var n := RunLength(s, ":/?#");
    if n == 0 then None
    else Some(Url(Cut(s[..n], MAX_HOST), PortIn(s[n..]), Cut(s[n..][PortEnd(s[n..])..], MAX_PATH)))
  }

  /** A run of characters none of which is a stop character, from a pointer on. */
  method ScanTo(s: string, from: nat, stops: string) returns (end: nat)
    requires from <= |s|
    ensures from <= end <= |s| && end - from == RunLength(s[from..], stops)
  {
    end := from;
    while end < |s| && s[end] !in stops
      invariant from <= end <= |s|
      invariant forall i :: from <= i < end ==> s[i] !in stops
    {
      end := end + 1;
    }
    RunLengthIs(s[from..], stops, end - from);
  }

  /** The port behind a host that ends at p, and where the path begins. */
  method ScanPort(url: string, p: nat) returns (port: nat, pathStart: nat)
    requires p <= |url|
    ensures p <= pathStart <= |url|
    ensures var rest := url[p..]; pathStart - p == PortEnd(rest) && port == PortIn(rest)
  {
    hide RunLength, PortOf;
    port, pathStart := DEFAULT_PORT, p;
    if p < |url| && url[p] == ':' {
      pathStart := ScanTo(url, p + 1, "/?#");
      assert url[p..][1..] == url[p + 1..];
      assert url[p..][1..pathStart - p] == url[p + 1..pathStart];
      if pathStart > p + 1 {
        port := PortOf(url[p + 1..pathStart]);
      }
    }
  }

  method SkipScheme(url: string) returns (start: nat)
    ensures start <= |url| && url[start..] == AfterScheme(url)
  {
    start := if "https://" <= url then 8 else if "http://" <= url then 7 else 0;
  }

  /** mnet_url_parse: one pointer moves over the text. */
  method ParseUrlLoop(url: string) returns (r: Option<Url>)
    ensures r == ParseUrl(url)
  {
    hide RunLength, PortEnd, PortIn, Cut, AfterScheme;
    var start := SkipScheme(url);
    var p := ScanTo(url, start, ":/?#");
    if p == start {
      return None;
    }
    ghost var s := url[start..];
    assert s[..p - start] == url[start..p];
    assert s[p - start..] == url[p..];
    var port, pathStart := ScanPort(url, p);
    ghost var rest := url[p..];
    assert rest[PortEnd(rest)..] == url[pathStart..];
    assert s[RunLength(s, ":/?#")..] == rest;
    return Some(Url(Cut(url[start..p], MAX_HOST), port, Cut(url[pathStart..], MAX_PATH)));
  }

  // ---------------------------------------------------------------- what a URL means

  predicate ValidHost(host: string) {
    0 < |host| <= MAX_HOST && DelimFree(host, ":/?#")
  }

  predicate ValidPath(path: string) {
    |path| <= MAX_PATH && (path != "" ==> path[0] in "/?#")
  }

  datatype Scheme = Https | Http | NoScheme

  function SchemeText(scheme: Scheme): string {
    match scheme
    case Https => "https://"
    case Http => "http://"
    case NoScheme => ""
  }

  function UrlText(scheme: Scheme, host: string, port: Option<nat>, path: string): string {
    SchemeText(scheme) + (host + ((if port.Some? then ":" + Decimal(port.value) else "") + path))
  }

  /** What can follow a host: the end, a path, or ':' and something other than "//". */
  predicate Tail(tail: string) {
    tail == "" || tail[0] in "/?#" || (tail[0] == ':' && |tail| > 1 && tail[1] != '/')
  }

  /** A host never contains the colon of a scheme, so "://" would have to follow it. */
  lemma SchemeNeedsColon(host: string, tail: string, scheme: Scheme)
    requires ValidHost(host) && (tail == "" || tail[0] in ":/?#") && scheme != NoScheme
    requires SchemeText(scheme) <= host + tail
    ensures |tail| > 1 && tail[0] == ':' && tail[1] == '/'
  {
    var url, t := host + tail, SchemeText(scheme);
    var k := |t| - 3;
    assert t[k] == ':' && t[k + 1] == '/' && forall i :: 0 <= i < k ==> t[i] !in ":/?#";
    assert forall i :: 0 <= i < |t| ==> url[i] == t[i];
    assert forall i :: 0 <= i < |host| ==> url[i] == host[i] && host[i] !in ":/?#";
    assert url[k] == ':' && url[k] in ":/?#";
    assert |host| <= k;
    assert tail[0] == url[|host|] && url[|host|] in ":/?#";
    assert |host| == k && tail[1] == url[k + 1];
  }

  lemma SchemeDropped(scheme: Scheme, host: string, tail: string)
    requires ValidHost(host) && Tail(tail)
    ensures AfterScheme(SchemeText(scheme) + (host + tail)) == host + tail
  {
    var s := host + tail;
    var url := SchemeText(scheme) + s;
    match scheme
    case Https => assert url[..8] == "https://" && url[8..] == s;
    case Http =>
      assert url[..7] == "http://" && url[7..] == s;
      assert url[4] == ':' && "https://"[4] == 's';
    case NoScheme =>
      assert url == s;
      if "https://" <= url { SchemeNeedsColon(host, tail, Https); }
      if "http://" <= url { SchemeNeedsColon(host, tail, Http); }
  }

  lemma PortBack(port: nat)
    requires 0 < port < 65536
    ensures PortOf(Decimal(port)) == port
  {
    hide Decimal, ValueOf, Digits, SpaceRun;
    var t := Decimal(port);
    assert IsDigit(t[0]);
    SpaceRunIs(t, 0);
    assert t[0..] == t;
    ValueOfDecimal(port);
    DigitsIs(t, |t|);
  }

  lemma CutShort(s: string, max: nat)
    requires |s| <= max
    ensures Cut(s, max) == s
  {
  }

  /** Port and path behind the host. */
  lemma TailParses(port: Option<nat>, path: string)
    requires ValidPath(path) && (port.Some? ==> 0 < port.value < 65536)
    ensures var portText := if port.Some? then ":" + Decimal(port.value) else "";
            && PortEnd(portText + path) == |portText|
            && PortIn(portText + path) == (if port.Some? then port.value else DEFAULT_PORT)
            && (portText + path)[|portText|..] == path
  {
    hide RunLength, PortOf, Decimal;
    if port.Some? {
      var ds := Decimal(port.value);
      var rest := ":" + ds + path;
      assert rest[1..] == ds + path;
      assert forall i :: 0 <= i < |ds| ==> (ds + path)[i] == ds[i] && '0' <= ds[i] <= '9';
      RunLengthIs(ds + path, "/?#", |ds|);
      assert rest[1..1 + |ds|] == ds;
      PortBack(port.value);
    } else {
      assert "" + path == path;
    }
  }

  lemma HostParses(host: string, tail: string)
    requires ValidHost(host) && Tail(tail)
    ensures RunLength(host + tail, ":/?#") == |host| && (host + tail)[..|host|] == host && (host + tail)[|host|..] == tail
  {
    hide RunLength;
    var s := host + tail;
    assert forall i :: 0 <= i < |host| ==> s[i] == host[i];
    RunLengthIs(s, ":/?#", |host|);
  }

  /** mnet_url_parse takes every URL apart into the parts it was written from; without a port it is 80. */
  lemma UrlRoundTrip(scheme: Scheme, host: string, port: Option<nat>, path: string)
    requires ValidHost(host) && ValidPath(path) && (port.Some? ==> 0 < port.value < 65536)
    ensures ParseUrl(UrlText(scheme, host, port, path))
            == Some(Url(host, if port.Some? then port.value else DEFAULT_PORT, path))
  {
    hide RunLength, PortEnd, PortIn, Decimal, Cut, AfterScheme;
    var tail := (if port.Some? then ":" + Decimal(port.value) else "") + path;
    assert Tail(tail);
    SchemeDropped(scheme, host, tail);
    HostParses(host, tail);
    TailParses(port, path);
    CutShort(host, MAX_HOST);
    CutShort(path, MAX_PATH);
  }

  // ---------------------------------------------------------------- any URL

  /** The text of a URL from raw parts: a port that may be anything without "/?#". */
  function RawText(scheme: Scheme, host: string, port: Option<string>, path: string): string {
    SchemeText(scheme) + (host + ((if port.Some? then ":" + port.value else "") + path))
  }

  predicate RawParts(host: string, port: Option<string>, path: string) {
    && host != "" && DelimFree(host, ":/?#")
    && (port.Some? ==> DelimFree(port.value, "/?#"))
    && (path != "" ==> path[0] in "/?#")
  }

  /** "host:" directly in front of "//" would look like a scheme. */
  predicate NoOtherScheme(host: string, port: Option<string>, path: string) {
    port == Some("") ==> !("//" <= path)
  }

  lemma RawTail(port: Option<string>, path: string)
    requires (port.Some? ==> DelimFree(port.value, "/?#")) && (path != "" ==> path[0] in "/?#")
    ensures var tail := (if port.Some? then ":" + port.value else "") + path;
            var n := if port.Some? then 1 + |port.value| else 0;
            && PortEnd(tail) == n && tail[n..] == path
            && PortIn(tail) == if port.Some? && port.value != "" then PortOf(port.value) else DEFAULT_PORT
  {
    hide RunLength, PortOf;
    var tail := (if port.Some? then ":" + port.value else "") + path;
    if port.Some? {
      assert tail[1..] == port.value + path;
      RunLengthIs(tail[1..], "/?#", |port.value|);
      assert tail[1..1 + |port.value|] == port.value;
    }
  }

  lemma RawScheme(scheme: Scheme, host: string, port: Option<string>, path: string)
    requires RawParts(host, port, path) && NoOtherScheme(host, port, path)
    ensures var tail := (if port.Some? then ":" + port.value else "") + path;
            AfterScheme(SchemeText(scheme) + (host + tail)) == host + tail
  {
    hide AfterScheme, RawParts, NoOtherScheme;
    var s := host + ((if port.Some? then ":" + port.value else "") + path);
    if scheme == NoScheme {
      var i := NoSchemeInHost(host, port, path, "https://", 5);
      var j := NoSchemeInHost(host, port, path, "http://", 4);
      NeitherScheme(s, i, j);
      assert "" + s == s;
    } else {
      SchemeGone(scheme, s);
    }
  }

  lemma NeitherScheme(s: string, i: nat, j: nat)
    requires i < 8 && (i >= |s| || s[i] != "https://"[i]) && j < 7 && (j >= |s| || s[j] != "http://"[j])
    ensures AfterScheme(s) == s
  {
  }

  /** Where the text differs from a scheme. */
  lemma NoSchemeInHost(host: string, port: Option<string>, path: string, scheme: string, colon: nat) returns (j: nat)
    requires RawParts(host, port, path) && NoOtherScheme(host, port, path)
    requires colon + 3 == |scheme| && scheme[colon] == ':' && scheme[colon + 1] == '/' && scheme[colon + 2] == '/'
    requires forall i :: 0 <= i < colon ==> scheme[i] !in ":/?#"
    ensures var s := host + ((if port.Some? then ":" + port.value else "") + path);
            j < |scheme| && (j >= |s| || s[j] != scheme[j])
  {
    var tail := (if port.Some? then ":" + port.value else "") + path;
    var s := host + tail;
    assert forall i :: 0 <= i < |tail| ==> s[|host| + i] == tail[i];
    if |host| < colon {
      j := |host|;
    } else if |host| > colon {
      j := colon;
    } else if port.None? {
      j := colon;
    } else if port.value != "" {
      assert tail[1] == port.value[0];
      j := colon + 1;
    } else {
      assert tail == ":" + path;
      j := if path == "" || path[0] != '/' then colon + 1 else colon + 2;
    }
  }

  /** Every URL with a host: the host and the path are cut at the sizes of their buffers, a numeral from 1 to
      65535 is the port, and without one, and for every other numeral, it is 80. */
  lemma UrlExactly(scheme: Scheme, host: string, port: Option<string>, path: string)
    requires RawParts(host, port, path) && NoOtherScheme(host, port, path)
    ensures var r := ParseUrl(RawText(scheme, host, port, path));
            && r.Some?
            && r.value.host == host[..Min(|host|, 1023)] && r.value.path == path[..Min(|path|, 2047)]
            && (port.None? || port.value == "" ==> r.value.port == 80)
            && (port.Some? && port.value != "" && AllDigits(port.value) ==>
                  r.value.port == if 0 < ValueOf(port.value) < 65536 then ValueOf(port.value) else 80)
  {
    hide RunLength, PortOf, PortEnd, PortIn, AfterScheme, ValueOf;
    var tail := (if port.Some? then ":" + port.value else "") + path;
    RawScheme(scheme, host, port, path);
    HostEnds(host, port, path);
    RawTail(port, path);
    assert host[..|host|] == host && path[..|path|] == path;
    if port.Some? && port.value != "" && AllDigits(port.value) { NumeralPort(port.value); }
  }

  lemma HostEnds(host: string, port: Option<string>, path: string)
    requires RawParts(host, port, path)
    ensures var s := host + ((if port.Some? then ":" + port.value else "") + path);
            RunLength(s, ":/?#") == |host| && s[..|host|] == host && s[|host|..] == (if port.Some? then ":" + port.value else "") + path
  {
    hide RunLength;
    var s := host + ((if port.Some? then ":" + port.value else "") + path);
    RunLengthIs(s, ":/?#", |host|);
  }

  lemma NumeralPort(ds: string)
    requires ds != "" && AllDigits(ds)
    ensures PortOf(ds) == if 0 < ValueOf(ds) < 65536 then ValueOf(ds) else 80
  {
    hide ValueOf, Digits;
    SpaceRunIs(ds, 0);
    assert ds[0..] == ds;
    DigitsIs(ds, |ds|);
  }

  /** A port with anything in it but blanks in front, one sign and digits is no port. */
  lemma NoNumeralPort(text: string, i: nat)
    requires i < |text| && !IsDigit(text[i]) && !IsSpace(text[i]) && text[i] != '+' && text[i] != '-'
    ensures PortOf(text) == 80
  {
    hide ValueOf;
    var t := text[SpaceRun(text)..];
    assert i >= SpaceRun(text) && t[i - SpaceRun(text)] == text[i];
    var ds := if t[0] == '-' || t[0] == '+' then t[1..] else t;
    assert text[i] == ds[i - SpaceRun(text) - (|t| - |ds|)];
  }

  /** Without a host there is no URL. */
  lemma NoHost(scheme: Scheme, behind: string)
    requires (behind == "" || behind[0] in ":/?#") && scheme != NoScheme
    ensures ParseUrl(SchemeText(scheme) + behind) == None
    ensures ParseUrl(behind) == None
  {
    hide RunLength, PortIn, PortEnd, Cut, AfterScheme;
    RunLengthIs(behind, ":/?#", 0);
    SchemeGone(scheme, behind);
    NoSchemeThere(behind);
  }

  lemma SchemeGone(scheme: Scheme, behind: string)
    requires scheme != NoScheme
    ensures AfterScheme(SchemeText(scheme) + behind) == behind
  {
    var s := SchemeText(scheme) + behind;
    if scheme == Http { assert s[4] == ':' && s[7..] == behind; } else { assert s[8..] == behind; }
  }

  lemma NoSchemeThere(behind: string)
    requires behind == "" || behind[0] in ":/?#"
    ensures AfterScheme(behind) == behind
  {
    if behind != "" { assert behind[0] != 'h' && "https://"[0] == 'h' && "http://"[0] == 'h'; }
  }

  // ---------------------------------------------------------------- the request of mnet_call

  function ClientHeaders(host: string): seq<Header> {
    [Header("Host", host), Header("User-Agent", "mnet/0.2.5"), Header("Accept", "*/*"), Header("Connection", "close")]
  }

  /** The text mnet_call sends. */
  function ClientRequest(path: string, host: string): string {
    HeadText(Routes.GET, path, ClientHeaders(host))
  }

  predicate PlainHost(host: string) {
    ValidHost(host) && NoBreak(host) && NulFree(host) && host[0] != ' ' && host[0] != '\t'
  }

  lemma ClientHeadersValid(host: string)
    requires PlainHost(host)
    ensures ValidHeaders(ClientHeaders(host))
  {
    hide Writable;
    HostHeaderValid(host);
    AgentHeaderValid();
    AcceptHeaderValid();
    CloseHeaderValid();
  }

  lemma HostHeaderValid(host: string)
    requires PlainHost(host)
    ensures ValidHeader(Header("Host", host))
  {
  }

  lemma AgentHeaderValid()
    ensures ValidHeader(Header("User-Agent", "mnet/0.2.5"))
  {
  }

  lemma AcceptHeaderValid()
    ensures ValidHeader(Header("Accept", "*/*"))
  {
  }

  lemma CloseHeaderValid()
    ensures ValidHeader(Header("Connection", "close"))
  {
  }

  /** The text fits the client's own buffer of 4096 characters, and so the server's. */
  lemma ClientRequestFits(path: string, host: string)
    requires |path| <= MAX_PATH && |host| <= MAX_HOST
    ensures |ClientRequest(path, host)| < REQUEST_SIZE <= Connection.BUFFER_LIMIT
  {
    hide Block;
    var ls := AllLines(Routes.GET, path, ClientHeaders(host));
    BlockFirst(ls);
    BlockFirst(ls[1..]);
    BlockFirst(ls[2..]);
    BlockFirst(ls[3..]);
    BlockFirst(ls[4..]);
    EmptyBlock(ls[5..]);
    assert ls[1..][1..] == ls[2..] && ls[2..][1..] == ls[3..] && ls[3..][1..] == ls[4..] && ls[4..][1..] == ls[5..];
    assert |ls[0]| == |path| + 13 && |ls[1]| == |host| + 6;
  }

  lemma EmptyBlock(ls: seq<string>)
    requires ls == []
    ensures Block(ls) == CRLF
  {
  }

  /** Words never contain white space and are never empty. */
  lemma WordsArePlain(s: string, max: nat)
    requires max > 0 && ScanWord(s, max).Some?
    ensures var w := ScanWord(s, max).value.0;
            0 < |w| <= max && w <= s[SpaceRun(s)..] && forall i :: 0 <= i < |w| ==> !IsSpace(w[i])
  {
  }

  /** The server reads the path that the client asked for exactly if it is not empty and has no white
      space; so a URL without a path ("example.com") does not ask for anything the server can find. */
  lemma PathArrivesIff(path: string, host: string)
    requires PlainHost(host) && NulFree(path)
    ensures RequestLine(ClientRequest(path, host)) == Some(("GET", path)) <==> ValidTarget(path)
  {
    hide ScanWord;
    ClientHeadersValid(host);
    if ValidTarget(path) {
      HeadTextLine(Routes.GET, path, ClientHeaders(host));
    }
    var first := ScanWord(ClientRequest(path, host), MAX_METHOD);
    if first.Some? && ScanWord(first.value.1, MAX_TARGET).Some? {
      WordsArePlain(first.value.1, MAX_TARGET);
    }
  }

  /** What it asks for instead: the word behind the missing path. */
  lemma EmptyPathAsksForVersion(host: string)
    ensures RequestLine(ClientRequest("", host)) == Some(("GET", "HTTP/1.1"))
  {
    hide ScanWord, Block;
    var ls := AllLines(Routes.GET, "", ClientHeaders(host));
    var more := CRLF + Block(ls[1..]);
    BlockFirst(ls);
    assert ls[0] == "GET" + (" " + VERSION);
    assert "" + "GET" + (" " + VERSION + more) == "GET" + (" " + VERSION) + more;
    WordReadsBack("", "GET", " " + VERSION + more, MAX_METHOD);
    SpacesThenWord(more);
  }

  lemma SpacesThenWord(more: string)
    requires more != "" && IsSpace(more[0])
    ensures ScanWord(" " + VERSION + more, MAX_TARGET) == Some(("HTTP/1.1", more))
  {
    var s := " " + VERSION + more;
    SpaceRunIs(s, 2);
    var t := s[2..];
    assert t == "HTTP/1.1" + more;
    WordRunIs(t, 8);
    assert t[..8] == "HTTP/1.1" && t[8..] == more;
  }

  /** End to end: the request of mnet_call, in any pieces, is served as a GET of that path, with the
      Host it names, and the connection is not kept open. */
  lemma CallIsServed(feed: Feed, path: string, host: string, maxBody: nat)
    requires PlainHost(host) && ValidTarget(path) && ValidFeed(feed) && Concat(feed) == ClientRequest(path, host)
    ensures Connection.Serve(feed, "", maxBody) == [Connection.Served(Meant(Routes.GET, path, ClientHeaders(host), ""))]
    ensures Meant(Routes.GET, path, ClientHeaders(host), "").keepAlive == false
  {
    ClientHeadersValid(host);
    NotFramed(host);
    ClientRequestFits(path, host);
    assert ClientRequest(path, host) == ClientRequest(path, host) + "" + "";
    RequestDelivered(feed, Routes.GET, path, ClientHeaders(host), "", "", maxBody);
    Connection.ServeUnfolds(feed, "", maxBody);
  }

  lemma {:induction false} NoneStored(hs: seq<Header>, needle: string)
    requires needle != "" && forall i :: 0 <= i < |hs| ==> |hs[i].name| != |needle| - 1
    ensures ScanAgreement.StoredValues(hs, needle) == []
  {
    if hs != [] { NoneStored(hs[1..], needle); }
  }

  lemma NotFramed(host: string)
    ensures forall maxBody :: Framed(ClientHeaders(host), "", maxBody)
    ensures !KeepsAlive(ClientHeaders(host))
  {
    hide ScanAgreement.StoredValues;
    var hs := ClientHeaders(host);
    NoneStored(hs, CONTENT_LENGTH);
    NoneStored(hs, TRANSFER_ENCODING);
    assert Lower(hs[1].name[0]) == 'u';
    assert forall i :: 0 <= i < |hs| && Same(hs[i].name, "connection") ==> |hs[i].value| == 5;
  }
}
