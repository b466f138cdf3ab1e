/** C strings and the libc routines the server leans on.  A `char*` that the code reads up to its
    terminator is a string without NUL; a buffer with an explicit length is a string that may hold NULs. */
module Bytes {
  datatype Option<+T> = None | Some(value: T)

  /** A name and a value. */
  type Pair = (string, string)

  const NUL := '\0'
  const CRLF := "\r\n"

  predicate NulFree(s: string) { NUL !in s }

  predicate AllBytes(s: string) { forall i :: 0 <= i < |s| ==> s[i] as int < 256 }

  predicate NoBreak(s: string) { forall i :: 0 <= i < |s| ==> s[i] != '\r' && s[i] != '\n' }

  lemma PlainConcat(a: string, b: string)
    requires NoBreak(a) && NoBreak(b)
    ensures NoBreak(a + b)
  {
  }

  function Min(a: int, b: int): int { if a <= b then a else b }

  /** What a str* function sees of a buffer: everything before the first NUL. */
  function CStr(buf: string): (s: string)
    ensures |s| <= |buf| && s == buf[..|s|] && NulFree(s)
    ensures |s| < |buf| ==> buf[|s|] == NUL
  {
    if buf == "" || buf[0] == NUL then "" else [buf[0]] + CStr(buf[1..])
  }

  // ---------------------------------------------------------------- searching

  predicate OccursAt(s: string, needle: string, i: nat) {
    i + |needle| <= |s| && s[i..i + |needle|] == needle
  }

  /** strstr: the first occurrence. */
  function Find(s: string, needle: string): (r: Option<nat>)
    ensures r.Some? ==> OccursAt(s, needle, r.value) && forall j :: 0 <= j < r.value ==> !OccursAt(s, needle, j)
    ensures r.None? ==> forall j: nat :: !OccursAt(s, needle, j)
  {
    FindFrom(s, needle, 0)
  }

  function FindFrom(s: string, needle: string, from: nat): (r: Option<nat>)
    requires from <= |s|
    ensures r.Some? ==> from <= r.value && OccursAt(s, needle, r.value)
    ensures r.Some? ==> forall j :: from <= j < r.value ==> !OccursAt(s, needle, j)
    ensures r.None? ==> forall j :: from <= j ==> !OccursAt(s, needle, j)
    decreases |s| - from
  {
    if OccursAt(s, needle, from) then Some(from)
    else if from == |s| then None
    else FindFrom(s, needle, from + 1)
  }

  /** strchr on a delimiter-sized needle: the length of the prefix before the first c, |s| if there is none. */
  function UpTo(s: string, c: char): (n: nat)
    ensures n <= |s| && c !in s[..n]
    ensures n < |s| ==> s[n] == c
  {
    if s == "" || s[0] == c then 0 else 1 + UpTo(s[1..], c)
  }

  lemma {:induction false} UpToIs(s: string, c: char, n: nat)
    requires n <= |s| && (forall i :: 0 <= i < n ==> s[i] != c) && (n < |s| ==> s[n] == c)
    ensures UpTo(s, c) == n
  {
    if n > 0 { UpToIs(s[1..], c, n - 1); }
  }

  // ---------------------------------------------------------------- strtok_r

  /** The length of the longest prefix without a delimiter. */
  function RunLength(s: string, delims: string): (n: nat)
    ensures n <= |s|
    ensures forall i :: 0 <= i < n ==> s[i] !in delims
    ensures n < |s| ==> s[n] in delims
  {
    if s == "" || s[0] in delims then 0 else 1 + RunLength(s[1..], delims)
  }

  lemma {:induction false} RunLengthIs(s: string, delims: string, n: nat)
    requires n <= |s| && (forall i :: 0 <= i < n ==> s[i] !in delims) && (n < |s| ==> s[n] in delims)
    ensures RunLength(s, delims) == n
  {
    if n > 0 { RunLengthIs(s[1..], delims, n - 1); }
  }

  /** The tokens strtok_r delivers: the maximal non-empty runs without a delimiter. */
  function Tokens(s: string, delims: string): seq<string>
    decreases |s|
  {
    if s == "" then []
    else if s[0] in delims then Tokens(s[1..], delims)
    else var n := RunLength(s, delims); [s[..n]] + Tokens(s[n..], delims)
  }

  predicate DelimFree(s: string, delims: string) {
    forall i :: 0 <= i < |s| ==> s[i] !in delims
  }

  lemma DelimFreeConcat(a: string, b: string, delims: string)
    requires DelimFree(a, delims) && DelimFree(b, delims)
    ensures DelimFree(a + b, delims)
  {
  }

  lemma {:induction false} TokensStep(piece: string, rest: string, delims: string)
    requires piece != "" && DelimFree(piece, delims)
    requires rest == "" || rest[0] in delims
    ensures Tokens(piece + rest, delims) == [piece] + Tokens(rest, delims)
  {
    var s := piece + rest;
    RunLengthIs(s, delims, |piece|);
    assert s[..|piece|] == piece && s[|piece|..] == rest;
  }

  lemma TokenBetween(s: string, start: nat, end: nat, delims: string)
    requires start < end <= |s| && DelimFree(s[start..end], delims)
    requires end < |s| ==> s[end] in delims
    ensures Tokens(s[start..], delims) == [s[start..end]] + Tokens(s[if end < |s| then end + 1 else end..], delims)
  {
    assert s[start..] == s[start..end] + s[end..];
    TokensStep(s[start..end], s[end..], delims);
    if end < |s| { assert s[end..][1..] == s[end + 1..]; }
  }

  lemma DelimSkipped(s: string, pos: nat, delims: string)
    requires pos < |s| && s[pos] in delims
    ensures Tokens(s[pos..], delims) == Tokens(s[pos + 1..], delims)
  {
    assert s[pos..][1..] == s[pos + 1..];
  }

  lemma NoTokens(s: string, delims: string)
    requires s == ""
    ensures Tokens(s, delims) == []
  {
  }

  /** One call of strtok_r with the save pointer at `from`. */
  method StrTok(s: string, from: nat, delims: string) returns (token: Option<string>, next: nat)
    requires from <= |s|
    ensures from <= next <= |s|
    ensures token.None? ==> Tokens(s[from..], delims) == []
    ensures token.Some? ==> from < next && Tokens(s[from..], delims) == [token.value] + Tokens(s[next..], delims)
    ensures token.Some? ==> token.value != "" && DelimFree(token.value, delims)
    ensures token.Some? ==> forall c :: c in token.value ==> c in s
  {
    hide Tokens;
    var pos := from;
    while pos < |s| && s[pos] in delims
      invariant from <= pos <= |s|
      invariant Tokens(s[from..], delims) == Tokens(s[pos..], delims)
    {
      DelimSkipped(s, pos, delims);
      pos := pos + 1;
    }
    if pos == |s| {
      NoTokens(s[pos..], delims);
      return None, pos;
    }
    var start := pos;
    pos := pos + 1;
    while pos < |s| && s[pos] !in delims
      invariant start < pos <= |s|
      invariant DelimFree(s[start..pos], delims)
    {
      assert s[start..pos + 1] == s[start..pos] + [s[pos]];
      pos := pos + 1;
    }
    TokenBetween(s, start, pos, delims);
    token := Some(s[start..pos]);
    next := if pos < |s| then pos + 1 else pos;
  }

  /** Pieces joined by one delimiter. */
  function Join(pieces: seq<string>, sep: char): string {
    if pieces == [] then ""
    else if |pieces| == 1 then pieces[0]
    else pieces[0] + [sep] + Join(pieces[1..], sep)
  }

  lemma {:induction false} TokensOfJoin(pieces: seq<string>, sep: char)
    requires forall i :: 0 <= i < |pieces| ==> pieces[i] != "" && DelimFree(pieces[i], [sep])
    ensures Tokens(Join(pieces, sep), [sep]) == pieces
  {
    if pieces == [] {
    } else if |pieces| == 1 {
      TokensStep(pieces[0], "", [sep]);
      assert pieces[0] + "" == pieces[0];
    } else {
      var rest := [sep] + Join(pieces[1..], sep);
      assert Join(pieces, sep) == pieces[0] + rest;
      TokensStep(pieces[0], rest, [sep]);
      assert rest[1..] == Join(pieces[1..], sep);
      TokensOfJoin(pieces[1..], sep);
    }
  }

  lemma Assoc<T>(a: seq<T>, b: seq<T>, c: seq<T>)
    ensures a + (b + c) == (a + b) + c
  {
  }

  // ---------------------------------------------------------------- hex digits

  /** hex_value / hex_val: the digit's value, -1 for any other character. */
  function HexValue(c: char): (v: int)
    ensures -1 <= v < 16
  {
    if '0' <= c <= '9' then c as int - '0' as int
    else if 'a' <= c <= 'f' then c as int - 'a' as int + 10
    else if 'A' <= c <= 'F' then c as int - 'A' as int + 10
    else -1
  }

  predicate IsHex(c: char) { HexValue(c) >= 0 }

  /** The sixteen digits, in either case, and no other character. */
  lemma HexDigits(c: char, v: nat)
    requires v < 16
    ensures HexValue(c) == v <==> c == "0123456789abcdef"[v] || c == "0123456789ABCDEF"[v]
  {
  }

  function HexDigit(n: nat): (c: char)
    requires n < 16
    ensures HexValue(c) == n
  {
    if n < 10 then (n + '0' as int) as char else (n - 10 + 'a' as int) as char
  }

  function HexPair(hi: char, lo: char): (c: char)
    requires IsHex(hi) && IsHex(lo)
    ensures c as int == 16 * HexValue(hi) + HexValue(lo) < 256
  {
    (16 * HexValue(hi) + HexValue(lo)) as char
  }

  // ---------------------------------------------------------------- decimal numbers

  function Digit(d: nat): char
    requires d < 10
  {
    (d + '0' as int) as char
  }

  predicate IsDigit(c: char) { '0' <= c <= '9' }

  function DigitValue(c: char): nat
    requires IsDigit(c)
  {
    c as int - '0' as int
  }

  function Digits(s: string): (n: nat)
    ensures n <= |s| && (forall i :: 0 <= i < n ==> IsDigit(s[i])) && (n < |s| ==> !IsDigit(s[n]))
  {
    if s != "" && IsDigit(s[0]) then 1 + Digits(s[1..]) else 0
  }

  /** The digits, written out. */
  lemma DigitsAre(d: nat)
    ensures d < 10 ==> Digit(d) == "0123456789"[d] && DigitValue("0123456789"[d]) == d
    ensures d < 16 ==> HexDigit(d) == "0123456789abcdef"[d]
  {
  }

  predicate AllDigits(s: string) { forall i :: 0 <= i < |s| ==> IsDigit(s[i]) }

  /** The number a digit string denotes. */
  function ValueOf(ds: string): nat
    requires AllDigits(ds)
  {
    if ds == "" then 0 else ValueOf(ds[..|ds| - 1]) * 10 + DigitValue(ds[|ds| - 1])
  }

  lemma {:induction false} DigitsIs(s: string, n: nat)
    requires n <= |s| && (forall i :: 0 <= i < n ==> IsDigit(s[i])) && (n < |s| ==> !IsDigit(s[n]))
    ensures Digits(s) == n
  {
    if n > 0 { DigitsIs(s[1..], n - 1); }
  }

  /** printf's %u and %zu. */
  function Decimal(n: nat): (s: string)
    ensures s != "" && AllDigits(s)
  {
    if n < 10 then [Digit(n)] else Decimal(n / 10) + [Digit(n % 10)]
  }

  /** It writes no leading zero. */
  lemma {:induction false} NoLeadingZero(n: nat)
    ensures n > 0 ==> Decimal(n)[0] != '0'
    ensures n == 0 ==> Decimal(n) == "0"
  {
    if n >= 10 { NoLeadingZero(n / 10); }
  }

  lemma {:induction false} ValueOfDecimal(n: nat)
    ensures ValueOf(Decimal(n)) == n
  {
    var s := Decimal(n);
    if n < 10 {
      assert s[..|s| - 1] == "" && ValueOf("") == 0;
    } else {
      ValueOfDecimal(n / 10);
      assert s[..|s| - 1] == Decimal(n / 10);
    }
  }
}
