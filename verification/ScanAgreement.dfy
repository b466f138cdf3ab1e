/** The two scans of a head agree: the line-initial occurrences that read_full_body counts are, one for
    one and value for value, the headers of that name that parse_headers stores. */
module ScanAgreement {
  import opened Bytes
  import opened HeadScan

  /** A lower-case header name with its colon. */
  predicate NamePattern(needle: string) {
    && |needle| > 1 && needle[|needle| - 1] == ':'
    && forall k :: 0 <= k < |needle| - 1 ==> 'a' <= needle[k] <= 'z' || needle[k] == '-'
  }

  /** No occurrence of the needle directly behind a CR. */
  predicate NoneBehindCr(head: string, needle: string) {
    forall i :: 0 <= i < |head| && head[i] == '\r' ==> !At(head, needle, i + 1)
  }

  /** Every CR is followed by LF, as far as the head goes. */
  predicate CrLfPaired(head: string) {
    forall i :: 0 <= i < |head| - 1 && head[i] == '\r' ==> head[i + 1] == '\n'
  }

  lemma PairedHasNone(head: string, needle: string)
    requires CrLfPaired(head) && NamePattern(needle)
    ensures NoneBehindCr(head, needle)
  {
    forall i | 0 <= i < |head| && head[i] == '\r'
      ensures !At(head, needle, i + 1)
    {
      if At(head, needle, i + 1) { NotDelim(head, needle, i + 1, i + 1); }
    }
  }

  /** Behind a line break of either kind: where strtok_r can start a token. */
  predicate AfterBreak(s: string, i: nat) {
    i == 0 || (i <= |s| && Delim(s[i - 1]))
  }

  /** The occurrences in [from, end) that start a token. */
  function TokenHits(s: string, needle: string, from: nat, end: nat): (r: seq<nat>)
    ensures forall i :: i in r ==> from <= i < end && At(s, needle, i)
    decreases end - from
  {
    if from >= end then []
    else (if AfterBreak(s, from) && At(s, needle, from) then [from] else []) + TokenHits(s, needle, from + 1, end)
  }

  lemma {:induction false} SkipTokenHits(s: string, needle: string, from: nat, next: nat, end: nat)
    requires from <= next && forall j :: from <= j < next && j < end ==> !(AfterBreak(s, j) && At(s, needle, j))
    ensures TokenHits(s, needle, from, end) == TokenHits(s, needle, next, end)
    decreases next - from
  {
    if from < next && from < end {
      SkipTokenHits(s, needle, from + 1, next, end);
    }
  }

  /** Besides the line-initial hits these are the ones behind a CR. */
  lemma {:induction false} TokenHitsCount(s: string, needle: string, from: nat, end: nat)
    requires end <= |s|
    ensures |LineInitial(s, needle, from, end)| <= |TokenHits(s, needle, from, end)|
    ensures (forall i :: from <= i < end && i > 0 && s[i - 1] == '\r' ==> !At(s, needle, i))
            ==> TokenHits(s, needle, from, end) == LineInitial(s, needle, from, end)
    ensures |TokenHits(s, needle, from, end)| == |LineInitial(s, needle, from, end)|
            ==> forall i :: from <= i < end && i > 0 && s[i - 1] == '\r' ==> !At(s, needle, i)
    decreases if from < end then end - from else 0
  {
    hide At;
    if from < end {
      TokenHitsCount(s, needle, from + 1, end);
      TokenHitsTurn(s, needle, from, end);
    }
  }

  /** What position `from` adds to the two lists. */
  lemma TokenHitsTurn(s: string, needle: string, from: nat, end: nat)
    requires from < end <= |s|
    ensures var hit := At(s, needle, from); var here := if hit && LineStart(s, from) then [from] else [];
            var behindCr := from > 0 && s[from - 1] == '\r';
            && LineInitial(s, needle, from, end) == here + LineInitial(s, needle, from + 1, end)
            && TokenHits(s, needle, from, end)
               == (if hit && behindCr then [from] else here) + TokenHits(s, needle, from + 1, end)
            && (LineStart(s, from) ==> !behindCr)
  {
    hide At;
  }

  /** strcasecmp(name, needle without its colon) == 0. */
  predicate Named(name: string, needle: string)
    requires needle != ""
  {
    Same(name, needle[..|needle| - 1])
  }

  /** The values stored under a name, in order. */
  function StoredValues(hs: seq<Header>, needle: string): seq<string>
    requires needle != ""
  {
    if hs == [] then []
    else (if Named(hs[0].name, needle) then [hs[0].value] else []) + StoredValues(hs[1..], needle)
  }

  /** The rest of the line behind an occurrence, without leading blanks. */
  function LineValue(s: string, needle: string, i: nat): string
    requires i + |needle| <= |s|
  {
    var t := s[i + |needle|..];
    var line := t[..RunLength(t, "\r\n")];
    line[Blanks(line)..]
  }

  function LineValues(s: string, needle: string, hits: seq<nat>): seq<string>
    requires forall i :: i in hits ==> At(s, needle, i)
  {
    if hits == [] then []
    else
      assert At(s, needle, hits[0]);
      [LineValue(s, needle, hits[0])] + LineValues(s, needle, hits[1..])
  }

  predicate Delim(c: char) { c == '\r' || c == '\n' }

  /** An occurrence contains no line break. */
  lemma NotDelim(s: string, needle: string, i: nat, j: nat)
    requires NamePattern(needle) && At(s, needle, i) && i <= j < i + |needle|
    ensures !Delim(s[j])
  {
    CharOf(s, needle, i, j);
  }

  /** A line is stored under the name exactly when it starts with the needle. */
  lemma StoredIffStarts(line: string, needle: string)
    requires NamePattern(needle)
    ensures At(line, needle, 0) <==> IsHeaderLine(line) && Named(HeaderOf(line).name, needle)
  {
    hide At, IsHeaderLine, HeaderOf, Same;
    if At(line, needle, 0) { StartIsHeader(line, needle); }
    if IsHeaderLine(line) && Named(HeaderOf(line).name, needle) { NamedStarts(line, needle); }
  }

  lemma NamedStarts(line: string, needle: string)
    requires NamePattern(needle) && IsHeaderLine(line) && Named(HeaderOf(line).name, needle)
    ensures At(line, needle, 0)
  {
    hide ValidName, UpTo, Blanks;
    var n := |needle| - 1;
    assert line[0..0 + |needle|] == HeaderOf(line).name + ":";
    assert needle == needle[..n] + ":";
  }

  lemma StartIsHeader(line: string, needle: string)
    requires NamePattern(needle) && At(line, needle, 0)
    ensures UpTo(line, ':') == |needle| - 1
    ensures IsHeaderLine(line) && Named(HeaderOf(line).name, needle)
  {
    var n := |needle| - 1;
    forall k | 0 <= k < n
      ensures TokenChar(line[k]) && line[k] != ':'
    {
      CharOf(line, needle, 0, k);
    }
    CharOf(line, needle, 0, n);
    UpToIs(line, ':', n);
    assert line[..n] == line[0..0 + |needle|][..n];
  }

  lemma StartsInLine(head: string, from: nat, end: nat, needle: string)
    requires NamePattern(needle) && from < end <= |head|
    requires end < |head| ==> Delim(head[end])
    ensures At(head, needle, from) <==> At(head[from..end], needle, 0)
  {
    var line := head[from..end];
    if At(head, needle, from) && end < from + |needle| {
      NotDelim(head, needle, from, end);
    }
    if from + |needle| <= end {
      assert line[0..0 + |needle|] == head[from..from + |needle|];
    }
  }

  lemma LineValueIs(head: string, from: nat, end: nat, needle: string)
    requires NamePattern(needle) && from < end <= |head| && At(head[from..end], needle, 0)
    requires DelimFree(head[from..end], "\r\n") && (end < |head| ==> Delim(head[end]))
    ensures At(head, needle, from)
    ensures IsHeaderLine(head[from..end]) && HeaderOf(head[from..end]).value == LineValue(head, needle, from)
  {
    hide Same, RunLength, Blanks, UpTo;
    var line := head[from..end];
    StartsInLine(head, from, end, needle);
    StartIsHeader(line, needle);
    RestOfLine(head, from + |needle|, end);
    assert line[|needle|..] == head[from + |needle|..end];
  }

  lemma RestOfLine(head: string, from: nat, end: nat)
    requires from <= end <= |head| && DelimFree(head[from..end], "\r\n") && (end < |head| ==> Delim(head[end]))
    ensures head[from..][..RunLength(head[from..], "\r\n")] == head[from..end]
  {
    assert forall i :: 0 <= i < end - from ==> head[from..][i] == head[from..end][i];
    RunLengthIs(head[from..], "\r\n", end - from);
  }

  /** At the start of a line. */
  predicate AtBoundary(head: string, from: nat) {
    from <= |head| && AfterBreak(head, from)
  }

  /** The headers among the lines, were it not for the caps on their number and length. */
  function AllHeaders(lines: seq<string>): seq<Header> {
    if lines == [] then []
    else (if IsHeaderLine(lines[0]) then [HeaderOf(lines[0])] else []) + AllHeaders(lines[1..])
  }

  /** What parse_headers stores are all of them, and it fails exactly if a line is too long or still comes
      when as many as fit are stored. */
  lemma {:induction false} StoredIsAll(lines: seq<string>, count: nat)
    ensures HeadersOf(lines, count).Some? ==> HeadersOf(lines, count).value == AllHeaders(lines)
    ensures HeadersOf(lines, count).Some?
            <==> forall i :: 0 <= i < |lines| ==> LineFits(lines, count, i)
  {
    hide IsHeaderLine, HeaderOf, AllHeaders;
    NoHeaders();
    if lines != [] {
      AllFirst(lines);
      var n := if IsHeaderLine(lines[0]) then count + 1 else count;
      StoredIsAll(lines[1..], n);
      forall i | 0 < i < |lines|
        ensures lines[i] == lines[1..][i - 1] && count + |AllHeaders(lines[..i])| == n + |AllHeaders(lines[1..][..i - 1])|
      {
        AllFirst(lines[..i]);
        assert lines[..i][1..] == lines[1..][..i - 1];
      }
      assert lines[..0] == [];
      WithinCaps(lines, count, n);
    }
  }

  lemma NoHeaders()
    ensures AllHeaders([]) == []
  {
  }

  lemma AllFirst(lines: seq<string>)
    requires lines != []
    ensures AllHeaders(lines) == (if IsHeaderLine(lines[0]) then [HeaderOf(lines[0])] else []) + AllHeaders(lines[1..])
  {
  }

  predicate LineFits(lines: seq<string>, count: nat, i: nat)
    requires i < |lines|
  {
    |lines[i]| < MAX_HEADER_LINE && count + |AllHeaders(lines[..i])| < MAX_HEADERS
  }

  lemma WithinCaps(lines: seq<string>, count: nat, n: nat)
    requires lines != []
    requires forall i :: 0 < i < |lines| ==> lines[i] == lines[1..][i - 1]
    requires forall i :: 0 < i < |lines| ==> count + |AllHeaders(lines[..i])| == n + |AllHeaders(lines[1..][..i - 1])|
    ensures (forall i :: 0 <= i < |lines| ==> LineFits(lines, count, i))
            <==> LineFits(lines, count, 0) && forall i :: 0 <= i < |lines[1..]| ==> LineFits(lines[1..], n, i)
  {
    hide AllHeaders;
    if forall i :: 0 <= i < |lines| ==> LineFits(lines, count, i) {
      forall i | 0 <= i < |lines[1..]| ensures LineFits(lines[1..], n, i) {
        assert LineFits(lines, count, i + 1) && lines[i + 1] == lines[1..][i + 1 - 1];
      }
    }
    if LineFits(lines, count, 0) && forall i :: 0 <= i < |lines[1..]| ==> LineFits(lines[1..], n, i) {
      forall i | 0 <= i < |lines| ensures LineFits(lines, count, i) {
        if i > 0 { assert LineFits(lines[1..], n, i - 1); }
      }
    }
  }

  /** The agreement from a line boundary on. */
  predicate Agree(head: string, needle: string, from: nat)
    requires needle != "" && from <= |head|
  {
    StoredValues(AllHeaders(Tokens(head[from..], "\r\n")), needle) == LineValues(head, needle, TokenHits(head, needle, from, |head|))
  }

  lemma {:induction false} AgreeFrom(head: string, needle: string, from: nat)
    requires NamePattern(needle) && AtBoundary(head, from)
    ensures Agree(head, needle, from)
    decreases |head| - from
  {
    hide Agree;
    if from == |head| {
      AgreeAtEnd(head, needle, from);
    } else {
      if Delim(head[from]) {
        BoundaryAfterDelim(head, from);
        AgreeFrom(head, needle, from + 1);
        AgreeDelim(head, needle, from);
      } else {
        var end := LineEnd(head, from);
        var next := if end < |head| then end + 1 else end;
        if end < |head| {
          BoundaryAfterDelim(head, end);
          AgreeFrom(head, needle, next);
        } else {
          AgreeAtEnd(head, needle, next);
        }
        AgreeLine(head, needle, from, end);
      }
    }
  }

  lemma BoundaryAfterDelim(head: string, i: nat)
    requires i < |head| && Delim(head[i])
    ensures AtBoundary(head, i + 1)
  {
  }

  lemma AgreeAtEnd(head: string, needle: string, from: nat)
    requires from == |head| && needle != ""
    ensures Agree(head, needle, from)
  {
  }

  lemma AgreeDelim(head: string, needle: string, from: nat)
    requires NamePattern(needle) && from < |head| && Delim(head[from]) && Agree(head, needle, from + 1)
    ensures Agree(head, needle, from)
  {
    DelimSkipped(head, from, "\r\n");
    if At(head, needle, from) { NotDelim(head, needle, from, from); }
    SkipTokenHits(head, needle, from, from + 1, |head|);
  }

  function LineEnd(head: string, from: nat): (end: nat)
    requires from < |head| && !Delim(head[from])
    ensures from < end <= |head| && DelimFree(head[from..end], "\r\n") && (end < |head| ==> Delim(head[end]))
  {
    var n := RunLength(head[from..], "\r\n");
    assert forall i :: from <= i < from + n ==> head[i] == head[from..][i - from];
    from + n
  }

  lemma AgreeLine(head: string, needle: string, from: nat, end: nat)
    requires NamePattern(needle) && AtBoundary(head, from) && from < end <= |head|
    requires DelimFree(head[from..end], "\r\n") && (end < |head| ==> Delim(head[end]))
    requires Agree(head, needle, if end < |head| then end + 1 else end)
    ensures Agree(head, needle, from)
  {
    var line := head[from..end];
    var rest := Tokens(head[if end < |head| then end + 1 else end..], "\r\n");
    TokenBetween(head, from, end, "\r\n");
    NoOtherHits(head, needle, from, end);
    StartsInLine(head, from, end, needle);
    StoredIffStarts(line, needle);
    if At(line, needle, 0) { LineValueIs(head, from, end, needle); }
    CombineValues(line, rest, needle);
    CombineLines(head, needle, from, TokenHits(head, needle, if end < |head| then end + 1 else end, |head|));
  }

  lemma CombineLines(head: string, needle: string, from: nat, hits: seq<nat>)
    requires forall i :: i in hits ==> At(head, needle, i)
    ensures At(head, needle, from) ==> LineValues(head, needle, [from] + hits) == [LineValue(head, needle, from)] + LineValues(head, needle, hits)
    ensures [] + hits == hits
  {
    assert ([from] + hits)[1..] == hits;
  }

  /** Within a line only its first position can start a token. */
  lemma NoOtherHits(head: string, needle: string, from: nat, end: nat)
    requires AtBoundary(head, from) && from < end <= |head|
    requires DelimFree(head[from..end], "\r\n") && (end < |head| ==> Delim(head[end]))
    ensures TokenHits(head, needle, from, |head|)
            == (if At(head, needle, from) then [from] else [])
               + TokenHits(head, needle, if end < |head| then end + 1 else end, |head|)
  {
    forall j | from + 1 <= j <= end
      ensures !AfterBreak(head, j)
    {
      assert head[j - 1] == head[from..end][j - 1 - from];
    }
    SkipTokenHits(head, needle, from + 1, if end < |head| then end + 1 else end, |head|);
  }

  lemma CombineValues(line: string, rest: seq<string>, needle: string)
    requires needle != ""
    ensures StoredValues(AllHeaders([line] + rest), needle)
            == (if IsHeaderLine(line) && Named(HeaderOf(line).name, needle) then [HeaderOf(line).value] else [])
               + StoredValues(AllHeaders(rest), needle)
  {
    hide IsHeaderLine, HeaderOf, Named;
    assert ([line] + rest)[1..] == rest;
    var tail := AllHeaders(rest);
    if IsHeaderLine(line) {
      assert ([HeaderOf(line)] + tail)[1..] == tail;
    } else {
      assert [] + tail == tail && [] + StoredValues(tail, needle) == StoredValues(tail, needle);
    }
  }

  // ---------------------------------------------------------------- the agreement

  /** Two searches over the same head, in the buffer and in its copy, see the same occurrences. */
  lemma {:induction false} HeadIsEnough(v: string, needle: string, from: nat, end: nat)
    requires NamePattern(needle) && end < |v| && Delim(v[end])
    ensures LineInitial(v, needle, from, end) == LineInitial(v[..end], needle, from, end)
    decreases if from < end then end - from else 0
  {
    hide Same, NamePattern;
    if from < end {
      HeadIsEnough(v, needle, from + 1, end);
      if At(v, needle, from) && end < from + |needle| { NotDelim(v, needle, from, end); }
      if from + |needle| <= end { assert v[..end][from..from + |needle|] == v[from..from + |needle|]; }
    }
  }

  /** What read_full_body counts up to the end of the head is as many headers of the name as strtok_r cuts
      out exactly if no occurrence stands directly behind a CR; and then they agree value by value. */
  lemma HeadScansAgreeIff(v: string, end: nat, needle: string)
    requires NamePattern(needle) && end < |v| && Delim(v[end])
    ensures var values := StoredValues(AllHeaders(Tokens(v[..end], "\r\n")), needle);
            && (|values| == |LineInitial(v, needle, 0, end)| <==> NoneBehindCr(v[..end], needle))
            && (NoneBehindCr(v[..end], needle) ==> values == LineValues(v[..end], needle, LineInitial(v[..end], needle, 0, end)))
            && |values| >= |LineInitial(v, needle, 0, end)|
  {
    hide AllHeaders, StoredValues, Tokens;
    var head := v[..end];
    HeadIsEnough(v, needle, 0, end);
    assert head[0..] == head;
    AgreeFrom(head, needle, 0);
    LineValuesLength(head, needle, TokenHits(head, needle, 0, end));
    TokenHitsCount(head, needle, 0, end);
    BehindCrFits(head, needle);
  }

  /** The same for the headers that parse_headers stores. */
  lemma ScansAgreeIff(v: string, end: nat, needle: string)
    requires NamePattern(needle) && end < |v| && Delim(v[end]) && ParseHeaders(v[..end]).Some?
    ensures |StoredValues(ParseHeaders(v[..end]).value, needle)| == |LineInitial(v, needle, 0, end)|
            <==> NoneBehindCr(v[..end], needle)
    ensures NoneBehindCr(v[..end], needle) ==>
              StoredValues(ParseHeaders(v[..end]).value, needle) == LineValues(v[..end], needle, LineInitial(v[..end], needle, 0, end))
    ensures |StoredValues(ParseHeaders(v[..end]).value, needle)| >= |LineInitial(v, needle, 0, end)|
  {
    hide AllHeaders, StoredValues, Tokens, HeadersOf, NoneBehindCr, LineInitial;
    HeadScansAgreeIff(v, end, needle);
    StoredIsAll(Tokens(v[..end], "\r\n"), 0);
  }

  lemma BehindCrFits(head: string, needle: string)
    requires needle != ""
    ensures NoneBehindCr(head, needle) <==> forall i :: 0 <= i < |head| && i > 0 && head[i - 1] == '\r' ==> !At(head, needle, i)
  {
    if forall i :: 0 <= i < |head| && i > 0 && head[i - 1] == '\r' ==> !At(head, needle, i) {
      forall i | 0 <= i < |head| && head[i] == '\r'
        ensures !At(head, needle, i + 1)
      {
        if i + 1 < |head| { assert head[i + 1 - 1] == '\r'; }
      }
    }
  }

  lemma {:induction false} LineValuesLength(s: string, needle: string, hits: seq<nat>)
    requires forall i :: i in hits ==> At(s, needle, i)
    ensures |LineValues(s, needle, hits)| == |hits|
  {
    if hits != [] { LineValuesLength(s, needle, hits[1..]); }
  }

  lemma ContentLengthIsName()
    ensures NamePattern(CONTENT_LENGTH) && NamePattern(TRANSFER_ENCODING)
  {
  }

  /** When exactly one Content-Length line is found and its value is accepted, parse_headers has stored
      exactly one such header, and its value is the plain numeral of that number. */
  lemma LengthAgrees(v: string, end: nat, hit: nat, maxBody: nat)
    requires end < |v| && Delim(v[end]) && NoneBehindCr(v[..end], CONTENT_LENGTH) && ParseHeaders(v[..end]).Some?
    requires LineInitial(v, CONTENT_LENGTH, 0, end) == [hit] && maxBody <= SIZE_MAX - 6
    requires hit + |CONTENT_LENGTH| <= |v| && ParseLength(v[hit + |CONTENT_LENGTH|..], maxBody).Length?
    ensures var values := StoredValues(ParseHeaders(v[..end]).value, CONTENT_LENGTH);
            && |values| == 1 && AllDigits(values[0])
            && ParseLength(v[hit + |CONTENT_LENGTH|..], maxBody) == Length(ValueOf(values[0]))
  {
    hide StoredValues, ParseHeaders, LineInitial, LineValues, ParseLength, LengthOf, ValueOf, NoneBehindCr, At;
    ContentLengthIsName();
    ScansAgreeIff(v, end, CONTENT_LENGTH);
    HeadIsEnough(v, CONTENT_LENGTH, 0, end);
    var head := v[..end];
    assert hit in LineInitial(head, CONTENT_LENGTH, 0, end);
    OneValue(head, CONTENT_LENGTH, hit);
    LineLength(v, end, hit, maxBody);
    LengthIsPlain(LineValue(head, CONTENT_LENGTH, hit), maxBody);
  }

  lemma LineLength(v: string, end: nat, hit: nat, maxBody: nat)
    requires hit + |CONTENT_LENGTH| <= end < |v| && Delim(v[end]) && maxBody <= SIZE_MAX - 6
    ensures ParseLength(v[hit + |CONTENT_LENGTH|..], maxBody) == LengthOf(LineValue(v[..end], CONTENT_LENGTH, hit), maxBody)
  {
    hide ParseLength, LengthOf, Blanks, RunLength;
    LengthOfLine(v, end, hit + |CONTENT_LENGTH|, maxBody);
  }

  lemma LengthIsPlain(value: string, maxBody: nat)
    requires LengthOf(value, maxBody).Length?
    ensures AllDigits(value) && LengthOf(value, maxBody) == Length(ValueOf(value))
  {
  }

  lemma OneValue(head: string, needle: string, hit: nat)
    requires At(head, needle, hit)
    ensures hit + |needle| <= |head| && LineValues(head, needle, [hit]) == [LineValue(head, needle, hit)]
  {
    assert [hit][1..] == [];
  }

  /** What a Content-Length value says, read as a whole: a plain numeral within the limit. */
  function LengthOf(value: string, maxBody: nat): LengthResult {
    if value == "" || !AllDigits(value) then Malformed
    else if ValueOf(value) > maxBody then TooLarge
    else Length(ValueOf(value))
  }

  /** The digit scan of read_full_body, which goes on in the buffer, reads the value of its line. */
  lemma LengthOfLine(v: string, end: nat, from: nat, maxBody: nat)
    requires from <= end < |v| && Delim(v[end]) && maxBody <= SIZE_MAX - 6
    ensures var t := v[..end][from..];
            var line := t[..RunLength(t, "\r\n")];
            ParseLength(v[from..], maxBody) == LengthOf(line[Blanks(line)..], maxBody)
  {
    hide Accumulate, ValueOf, Digits, Blanks, RunLength;
    var t, text := v[..end][from..], v[from..];
    var k := RunLength(t, "\r\n");
    assert forall i :: 0 <= i < end - from ==> t[i] == text[i];
    assert text[end - from] == v[end];
    assert t[..k] == text[..k] && Delim(text[k]);
    var b := Blanks(t[..k]);
    BlanksBefore(text, k);
    var val, value := text[b..], t[..k][b..];
    assert value == val[..k - b] && val[k - b] == text[k];
    DigitsBefore(val, k - b);
    if AllDigits(value) && value != "" { AccumulateExact(value, maxBody); }
  }

  lemma BlanksBefore(text: string, k: nat)
    requires k < |text| && Delim(text[k])
    ensures Blanks(text) == Blanks(text[..k])
  {
    hide Blanks;
    BlanksIs(text, Blanks(text[..k]));
  }

  /** The digits end at the end of the line exactly if there is nothing else in it. */
  lemma DigitsBefore(val: string, n: nat)
    requires n < |val| && Delim(val[n]) && forall i :: 0 <= i < n ==> !Delim(val[i])
    ensures Digits(val) <= n && (Digits(val) == n <==> AllDigits(val[..n])) && (Delim(val[Digits(val)]) <==> Digits(val) == n)
  {
    hide Digits;
    var d := Digits(val);
    if AllDigits(val[..n]) {
      assert forall i :: 0 <= i < n ==> IsDigit(val[..n][i]) && val[..n][i] == val[i];
      DigitsIs(val, n);
    } else {
      var i :| 0 <= i < n && !IsDigit(val[..n][i]);
      assert val[i] == val[..n][i];
    }
  }
}
