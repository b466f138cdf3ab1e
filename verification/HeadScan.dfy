/** The scans over a request head: the case-insensitive search for Content-Length and
    Transfer-Encoding, the value of Content-Length in wrapping size_t arithmetic, and the header
    list that parse_headers cuts with strtok_r. */
module HeadScan {
  import opened Bytes

  const SIZE_MAX: int := 0xFFFF_FFFF_FFFF_FFFF
  const MAX_HEADERS := 100
  const MAX_HEADER_LINE := 4096
  const CONTENT_LENGTH := "content-length:"
  const TRANSFER_ENCODING := "transfer-encoding:"

  // ---------------------------------------------------------------- case-insensitive search

  function Lower(c: char): char {
    if 'A' <= c <= 'Z' then (c as int + 32) as char else c
  }

  /** t, lower-cased, is the (lower-case) needle. */
  const UPPER := "ABCDEFGHIJKLMNOPQRSTUVWXYZ"
  const LOWER := "abcdefghijklmnopqrstuvwxyz"

  lemma LetterAt(k: nat)
    requires k < 26
    ensures |UPPER| == |LOWER| == 26 && UPPER[k] as int == 'A' as int + k && LOWER[k] as int == 'a' as int + k
  {
  }

  /** The letters, and nothing else, lose their case. */
  lemma LowerIs(c: char)
    ensures |UPPER| == |LOWER| == 26
    ensures forall k :: 0 <= k < 26 && c == UPPER[k] ==> Lower(c) == LOWER[k]
    ensures c !in UPPER ==> Lower(c) == c
  {
    hide UPPER, LOWER;
    LetterAt(0);
    forall k | 0 <= k < 26 && c == UPPER[k]
      ensures Lower(c) == LOWER[k]
    {
      LetterAt(k);
    }
    if 'A' <= c <= 'Z' { LetterAt(c as int - 'A' as int); }
  }

  predicate Same(t: string, needle: string) {
    |t| == |needle| && forall k :: 0 <= k < |t| ==> Lower(t[k]) == needle[k]
  }

  predicate At(s: string, needle: string, i: nat) {
    i + |needle| <= |s| && Same(s[i..i + |needle|], needle)
  }

  lemma CharOf(s: string, needle: string, i: nat, j: nat)
    requires At(s, needle, i) && i <= j < i + |needle|
    ensures Lower(s[j]) == needle[j - i]
  {
    assert s[i..i + |needle|][j - i] == s[j];
  }

  /** strcasestr from a position on. */
  function FindIgnoringCase(s: string, needle: string, from: nat): (r: Option<nat>)
    requires needle != ""
    ensures r.Some? ==> from <= r.value && At(s, needle, r.value) && forall j :: from <= j < r.value ==> !At(s, needle, j)
    ensures r.None? ==> forall j :: from <= j ==> !At(s, needle, j)
    decreases |s| - from
  {
    if At(s, needle, from) then Some(from)
    else if from >= |s| then None
    else FindIgnoringCase(s, needle, from + 1)
  }

  /** A header name with its colon: the colon is the last character and the only one. */
  predicate Needle(needle: string) {
    && |needle| > 0 && needle[|needle| - 1] == ':'
    && forall k :: 0 <= k < |needle| - 1 ==> needle[k] != ':' && needle[k] != '\r' && needle[k] != '\n'
  }

  lemma BothAreNeedles()
    ensures Needle(CONTENT_LENGTH) && Needle(TRANSFER_ENCODING)
  {
  }

  predicate LineStart(s: string, i: nat) {
    i == 0 || (i <= |s| && s[i - 1] == '\n')
  }

  predicate HeaderAt(s: string, needle: string, i: nat) {
    LineStart(s, i) && At(s, needle, i)
  }

  /** All line-initial occurrences in [from, end), in order: what the scan is meant to find. */
  function LineInitial(s: string, needle: string, from: nat, end: nat): (r: seq<nat>)
    ensures forall i :: i in r <==> from <= i < end && HeaderAt(s, needle, i)
    decreases end - from
  {
    if from >= end then []
    else (if HeaderAt(s, needle, from) then [from] else []) + LineInitial(s, needle, from + 1, end)
  }

  /** The needle cannot overlap itself. */
  lemma NoOverlap(s: string, needle: string, i: nat, j: nat)
    requires Needle(needle) && At(s, needle, i) && i < j < i + |needle|
    ensures !At(s, needle, j)
  {
    var last := i + |needle| - 1;
    CharOf(s, needle, i, last);
    if At(s, needle, j) { CharOf(s, needle, j, last); }
  }

  lemma {:induction false} SkipNonMatches(s: string, needle: string, from: nat, next: nat, end: nat)
    requires from <= next && forall j :: from <= j < next && j < end ==> !HeaderAt(s, needle, j)
    ensures LineInitial(s, needle, from, end) == LineInitial(s, needle, next, end)
    decreases next - from
  {
    if from < next && from < end {
      SkipNonMatches(s, needle, from + 1, next, end);
    }
  }

  /** One turn of the skip-ahead loop: from one hit to behind it. */
  lemma ScanTurn(s: string, needle: string, from: nat, hit: nat, end: nat)
    requires Needle(needle) && from <= hit < end && At(s, needle, hit)
    requires forall j :: from <= j < hit ==> !At(s, needle, j)
    ensures LineInitial(s, needle, from, end)
            == (if LineStart(s, hit) then [hit] else []) + LineInitial(s, needle, hit + |needle|, end)
  {
    hide At, Needle, LineStart;
    SkipNonMatches(s, needle, from, hit, end);
    InsideHit(s, needle, hit, end);
  }

  /** Nothing is lost by skipping the rest of a hit. */
  lemma InsideHit(s: string, needle: string, hit: nat, end: nat)
    requires Needle(needle) && At(s, needle, hit)
    ensures LineInitial(s, needle, hit + 1, end) == LineInitial(s, needle, hit + |needle|, end)
  {
    hide At;
    forall j | hit + 1 <= j < hit + |needle|
      ensures !HeaderAt(s, needle, j)
    {
      NoOverlap(s, needle, hit, j);
    }
    SkipNonMatches(s, needle, hit + 1, hit + |needle|, end);
  }

  lemma NoMoreHits(s: string, needle: string, from: nat, end: nat)
    requires forall j :: from <= j < end ==> !At(s, needle, j)
    ensures LineInitial(s, needle, from, end) == []
  {
    SkipNonMatches(s, needle, from, if from < end then end else from, end);
  }

  /** The Content-Length search of read_full_body: hits behind `end` are ignored, each hit is skipped
      as a whole, only line-initial ones count, the last one is kept. */
  method CountHeader(s: string, needle: string, end: nat) returns (count: nat, last: Option<nat>)
    requires Needle(needle)
    ensures var all := LineInitial(s, needle, 0, end);
            count == |all| && last == if all == [] then None else Some(all[|all| - 1])
  {
    hide LineInitial, At;
    count, last := 0, None;
    ghost var seen: seq<nat> := [];
    var search := 0;
    assert [] + LineInitial(s, needle, 0, end) == LineInitial(s, needle, 0, end);
    while true
      invariant LineInitial(s, needle, 0, end) == seen + LineInitial(s, needle, search, end)
      invariant count == |seen| && last == if seen == [] then None else Some(seen[|seen| - 1])
      decreases |s| - search
    {
      var hit := FindIgnoringCase(s, needle, search);
      if hit.None? || hit.value >= end {
        NoMoreHits(s, needle, search, end);
        break;
      }
      HitFits(s, needle, hit.value);
      ScanTurn(s, needle, search, hit.value, end);
      ghost var rest := LineInitial(s, needle, hit.value + |needle|, end);
      if hit.value == 0 || s[hit.value - 1] == '\n' {
        last := Some(hit.value);
        count := count + 1;
        Assoc(seen, [hit.value], rest);
        seen := seen + [hit.value];
      } else {
        assert [] + rest == rest;
      }
      search := hit.value + |needle|;
    }
    assert seen + [] == seen;
  }

  lemma HitFits(s: string, needle: string, hit: nat)
    requires At(s, needle, hit)
    ensures hit + |needle| <= |s|
  {
  }

  /** The Transfer-Encoding search: stops at the first line-initial hit. */
  method HasHeader(s: string, needle: string, end: nat) returns (found: bool)
    requires Needle(needle)
    ensures found <==> LineInitial(s, needle, 0, end) != []
  {
    hide LineInitial, At;
    var search := 0;
    while true
      invariant LineInitial(s, needle, 0, end) == LineInitial(s, needle, search, end)
      decreases |s| - search
    {
      var hit := FindIgnoringCase(s, needle, search);
      if hit.None? || hit.value >= end {
        NoMoreHits(s, needle, search, end);
        return false;
      }
      HitFits(s, needle, hit.value);
      ScanTurn(s, needle, search, hit.value, end);
      if hit.value == 0 || s[hit.value - 1] == '\n' {
        return true;
      }
      ghost var rest := LineInitial(s, needle, hit.value + |needle|, end);
      assert [] + rest == rest;
      search := hit.value + |needle|;
    }
  }

  // ---------------------------------------------------------------- the value of Content-Length

  /** What the loop of read_full_body holds after the digits ds: a size_t and the overflow flag. */
  function Accumulate(ds: string, maxBody: nat): (r: (nat, bool))
    requires AllDigits(ds)
    ensures r.0 <= SIZE_MAX
  {
    if ds == "" then (0, false)
    else
      var (parsed, overflow) := Accumulate(ds[..|ds| - 1], maxBody);
      var next := (parsed * 10 + DigitValue(ds[|ds| - 1])) % (SIZE_MAX + 1);
      (next, overflow || parsed > maxBody / 10 || next > maxBody)
  }

  /** The flag tells exactly whether the true value exceeds the limit, and without it nothing wrapped. */
  predicate ArithmeticExact(ds: string, maxBody: nat)
    requires AllDigits(ds)
  {
    var (parsed, overflow) := Accumulate(ds, maxBody);
    && (overflow <==> ValueOf(ds) > maxBody)
    && (!overflow ==> parsed == ValueOf(ds))
  }

  lemma {:induction false} AccumulateExact(ds: string, maxBody: nat)
    requires AllDigits(ds) && maxBody <= SIZE_MAX - 6
    ensures ArithmeticExact(ds, maxBody)
  {
    if ds != "" {
      AccumulateExact(ds[..|ds| - 1], maxBody);
      OneDigitExact(ValueOf(ds[..|ds| - 1]), DigitValue(ds[|ds| - 1]), maxBody);
    }
  }

  /** One more digit: the two tests together tell whether the limit is passed, and up to it nothing wraps. */
  lemma OneDigitExact(value: nat, d: nat, maxBody: nat)
    requires d <= 9 && maxBody <= SIZE_MAX - 6
    ensures value > maxBody ==> value * 10 + d > maxBody
    ensures value <= maxBody ==>
              var next := (value * 10 + d) % (SIZE_MAX + 1);
              && (value > maxBody / 10 || next > maxBody <==> value * 10 + d > maxBody)
              && (value * 10 + d <= maxBody ==> next == value * 10 + d)
  {
  }

  /** The numeral 18446744073709551616, one more than a size_t can hold. */
  function TwoToThe64(): string { Decimal(SIZE_MAX + 1) }

  /** The limit up to which the guard works is SIZE_MAX - 6: from there on 2^64 itself passes as 0. */
  lemma WrapsAbove(maxBody: nat)
    requires SIZE_MAX - 6 < maxBody <= SIZE_MAX
    ensures AllDigits(TwoToThe64()) && !ArithmeticExact(TwoToThe64(), maxBody)
    ensures Accumulate(TwoToThe64(), maxBody) == (0, false)
  {
    hide Decimal, ValueOf, Accumulate;
    var ds := TwoToThe64();
    var tenth := (SIZE_MAX + 1) / 10;
    ValueOfDecimal(SIZE_MAX + 1);
    ValueOfDecimal(tenth);
    LastDigitIsSix();
    Unwrapped(Decimal(tenth), maxBody);
    WrapsAtLastDigit(ds, maxBody);
  }

  lemma LastDigitIsSix()
    ensures var ds := TwoToThe64();
            ds[..|ds| - 1] == Decimal((SIZE_MAX + 1) / 10) && ds[|ds| - 1] == '6'
  {
  }

  lemma WrapsAtLastDigit(ds: string, maxBody: nat)
    requires ds != "" && AllDigits(ds) && ds[|ds| - 1] == '6'
    requires Accumulate(ds[..|ds| - 1], maxBody) == ((SIZE_MAX + 1) / 10, false)
    requires SIZE_MAX - 6 < maxBody <= SIZE_MAX
    ensures Accumulate(ds, maxBody) == (0, false)
  {
    WrapsToZero(maxBody);
  }

  lemma WrapsToZero(maxBody: nat)
    requires SIZE_MAX - 6 < maxBody <= SIZE_MAX
    ensures (SIZE_MAX + 1) / 10 <= maxBody / 10 && ((SIZE_MAX + 1) / 10 * 10 + 6) % (SIZE_MAX + 1) == 0
  {
  }

  lemma {:induction false} Unwrapped(ds: string, maxBody: nat)
    requires AllDigits(ds) && ValueOf(ds) <= maxBody / 10 && maxBody <= SIZE_MAX
    ensures Accumulate(ds, maxBody) == (ValueOf(ds), false)
  {
    if ds != "" {
      Unwrapped(ds[..|ds| - 1], maxBody);
      OneDigitFits(ValueOf(ds[..|ds| - 1]), DigitValue(ds[|ds| - 1]), maxBody);
    }
  }

  lemma OneDigitFits(value: nat, d: nat, maxBody: nat)
    requires value * 10 + d <= maxBody / 10 && maxBody <= SIZE_MAX
    ensures value <= maxBody / 10 && value * 10 + d <= maxBody && (value * 10 + d) % (SIZE_MAX + 1) == value * 10 + d
  {
  }

  /** The wraparound guard of read_full_body is right for every digit string exactly up to SIZE_MAX - 6. */
  lemma ContentLengthGuardIff(maxBody: nat)
    requires maxBody <= SIZE_MAX
    ensures (forall ds :: AllDigits(ds) ==> ArithmeticExact(ds, maxBody)) <==> maxBody <= SIZE_MAX - 6
  {
    if maxBody <= SIZE_MAX - 6 {
      forall ds | AllDigits(ds)
        ensures ArithmeticExact(ds, maxBody)
      {
        AccumulateExact(ds, maxBody);
      }
    } else {
      WrapsAbove(maxBody);
    }
  }

  datatype LengthResult = Length(value: nat) | TooLarge | Malformed

  function Blanks(s: string): (n: nat)
    ensures n <= |s| && (forall i :: 0 <= i < n ==> s[i] == ' ' || s[i] == '\t') && (n < |s| ==> s[n] != ' ' && s[n] != '\t')
  {
    if s != "" && (s[0] == ' ' || s[0] == '\t') then 1 + Blanks(s[1..]) else 0
  }

  /** The value text right behind the header's colon: blanks, digits, end of line. */
  function ParseLength(text: string, maxBody: nat): LengthResult {
    var val := text[Blanks(text)..];
    var n := Digits(val);
    if n == 0 || n == |val| || (val[n] != '\r' && val[n] != '\n') then Malformed
    else
      var (parsed, overflow) := Accumulate(val[..n], maxBody);
      if overflow then TooLarge else Length(parsed)
  }

  method SkipBlanks(s: string, from: nat) returns (val: nat)
    requires from <= |s|
    ensures from <= val <= |s| && val - from == Blanks(s[from..])
  {
    val := from;
    while val < |s| && (s[val] == ' ' || s[val] == '\t')
      invariant from <= val <= |s|
      invariant forall i :: from <= i < val ==> s[i] == ' ' || s[i] == '\t'
    {
      val := val + 1;
    }
    BlanksIs(s[from..], val - from);
  }

  /** The digit loop: size_t arithmetic that wraps, and a sticky overflow flag. */
  method AccumulateLoop(s: string, val: nat, maxBody: nat) returns (p: nat, parsed: nat, overflow: bool)
    requires val <= |s|
    ensures val <= p <= |s| && p - val == Digits(s[val..]) && AllDigits(s[val..p])
    ensures (parsed, overflow) == Accumulate(s[val..p], maxBody)
  {
    hide Accumulate, Digits;
    p, overflow, parsed := val, false, 0;
    AccumulateStart(s[val..p], maxBody);
    while p < |s| && IsDigit(s[p])
      invariant val <= p <= |s|
      invariant forall i :: val <= i < p ==> IsDigit(s[i])
      invariant (parsed, overflow) == Accumulate(s[val..p], maxBody)
    {
      AccumulateStep(s, val, p, maxBody);
      if parsed > maxBody / 10 { overflow := true; }
      parsed := (parsed * 10 + DigitValue(s[p])) % (SIZE_MAX + 1);
      if parsed > maxBody { overflow := true; }
      p := p + 1;
    }
    DigitsIs(s[val..], p - val);
  }

  method ParseLengthLoop(s: string, from: nat, maxBody: nat) returns (r: LengthResult)
    requires from <= |s|
    ensures r == ParseLength(s[from..], maxBody)
  {
    hide Accumulate, Blanks, Digits;
    var val := SkipBlanks(s, from);
    assert s[from..][val - from..] == s[val..];
    var p, parsed, overflow := AccumulateLoop(s, val, maxBody);
    assert s[val..][..p - val] == s[val..p];
    if p == val || p == |s| || (s[p] != '\r' && s[p] != '\n') {
      return Malformed;
    }
    return if overflow then TooLarge else Length(parsed);
  }

  lemma AccumulateStart(ds: string, maxBody: nat)
    requires ds == ""
    ensures Accumulate(ds, maxBody) == (0, false)
  {
  }

  lemma AccumulateStep(s: string, from: nat, p: nat, maxBody: nat)
    requires from <= p < |s| && forall i :: from <= i <= p ==> IsDigit(s[i])
    ensures var (parsed, overflow) := Accumulate(s[from..p], maxBody);
            var next := (parsed * 10 + DigitValue(s[p])) % (SIZE_MAX + 1);
            Accumulate(s[from..p + 1], maxBody) == (next, overflow || parsed > maxBody / 10 || next > maxBody)
  {
    assert s[from..p + 1][..p - from] == s[from..p];
  }

  lemma {:induction false} BlanksIs(s: string, n: nat)
    requires n <= |s| && (forall i :: 0 <= i < n ==> s[i] == ' ' || s[i] == '\t') && (n < |s| ==> s[n] != ' ' && s[n] != '\t')
    ensures Blanks(s) == n
  {
    if n > 0 { BlanksIs(s[1..], n - 1); }
  }

  // ---------------------------------------------------------------- the header list

  datatype Header = Header(name: string, value: string)

  /** RFC 7230 token characters, as mnet_header_name_valid lists them. */
  predicate TokenChar(c: char) {
    'a' <= c <= 'z' || 'A' <= c <= 'Z' || '0' <= c <= '9' || c in "!#$%&'*+-.^_`|~"
  }

  /** The token characters of section 3.2.6 of RFC 7230, written out. */
  lemma TokenChars(c: char)
    ensures TokenChar(c) <==>
              c in "abcdefghijklmnopqrstuvwxyz" || c in "ABCDEFGHIJKLMNOPQRSTUVWXYZ" || c in "0123456789" || c in "!#$%&'*+-.^_`|~"
  {
  }

  predicate ValidName(name: string) {
    name != "" && forall i :: 0 <= i < |name| ==> TokenChar(name[i])
  }

  predicate IsHeaderLine(line: string) {
    UpTo(line, ':') < |line| && ValidName(line[..UpTo(line, ':')])
  }

  function HeaderOf(line: string): Header
    requires IsHeaderLine(line)
  {
    var colon := UpTo(line, ':');
    var v := line[colon + 1..];
    Header(line[..colon], v[Blanks(v)..])
  }

  /** The headers of a list of lines, `count` of them stored before; None when a limit is hit. */
  function HeadersOf(lines: seq<string>, count: nat): (r: Option<seq<Header>>)
    ensures r.Some? ==> count + |r.value| <= MAX_HEADERS || r.value == []
  {
    if lines == [] then Some([])
    else if count >= MAX_HEADERS || |lines[0]| >= MAX_HEADER_LINE then None
    else if !IsHeaderLine(lines[0]) then HeadersOf(lines[1..], count)
    else
      var rest := HeadersOf(lines[1..], count + 1);
      if rest.None? then None else Some([HeaderOf(lines[0])] + rest.value)
  }

  /** parse_headers on the header block, request line included. */
  function ParseHeaders(head: string): Option<seq<Header>> {
    HeadersOf(Tokens(head, "\r\n"), 0)
  }

  function ConsAll(done: seq<Header>, r: Option<seq<Header>>): Option<seq<Header>> {
    if r.Some? then Some(done + r.value) else None
  }

  lemma HeadersStep(done: seq<Header>, line: string, rest: seq<string>)
    ensures var r := HeadersOf([line] + rest, |done|);
            if |done| >= MAX_HEADERS || |line| >= MAX_HEADER_LINE then r == None
            else if IsHeaderLine(line) then
              ConsAll(done, r) == ConsAll(done + [HeaderOf(line)], HeadersOf(rest, |done| + 1))
            else r == HeadersOf(rest, |done|)
  {
    assert ([line] + rest)[1..] == rest;
    var next := HeadersOf(rest, |done| + 1);
    if IsHeaderLine(line) && next.Some? { Assoc(done, [HeaderOf(line)], next.value); }
  }

  /** parse_headers: names and values in two arrays of MAX_HEADERS slots. */
  method ParseHeadersLoop(head: string) returns (r: Option<seq<Header>>)
    ensures r == ParseHeaders(head)
  {
    hide HeadersOf, Tokens, ValidName, Blanks;
    var stored := new Header[MAX_HEADERS](i => Header("", ""));
    var count := 0;
    var line, next := StrTok(head, 0, "\r\n");
    assert head[0..] == head;
    ConsNothing(ParseHeaders(head));
    assert stored[..0] == [];
    while line.Some?
      invariant count <= MAX_HEADERS && next <= |head|
      invariant ParseHeaders(head)
                == ConsAll(stored[..count], HeadersOf(if line.Some? then [line.value] + Tokens(head[next..], "\r\n") else [], count))
      decreases |head| - next, line.Some?
    {
      HeadersStep(stored[..count], line.value, Tokens(head[next..], "\r\n"));
      if count >= MAX_HEADERS || |line.value| >= MAX_HEADER_LINE {
        return None;
      }
      if IsHeaderLine(line.value) {
        ghost var before := stored[..count];
        stored[count] := HeaderOf(line.value);
        assert stored[..count + 1] == before + [HeaderOf(line.value)];
        count := count + 1;
      }
      line, next := StrTok(head, next, "\r\n");
    }
    NoLinesLeft(stored[..count]);
    return Some(stored[..count]);
  }

  lemma ConsNothing(r: Option<seq<Header>>)
    ensures ConsAll([], r) == r
  {
    if r.Some? { assert [] + r.value == r.value; }
  }

  lemma NoLinesLeft(done: seq<Header>)
    ensures ConsAll(done, HeadersOf([], |done|)) == Some(done)
  {
    assert done + [] == done;
  }
}
