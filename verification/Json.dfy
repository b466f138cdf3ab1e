/** JSON strings: mnet_json_escape and a lexer for section 7 of RFC 8259 to measure it against. */
module Json {
  import opened Bytes

  // ---------------------------------------------------------------- escaping

  function EscapeChar(c: char): (e: string)
    ensures 1 <= |e| <= 6
  {
    if c == '"' then "\\\""
    else if c == '\\' then "\\\\"
    else if c == '\n' then "\\n"
    else if c == '\r' then "\\r"
    else if c == '\t' then "\\t"
    else if c < ' ' then "\\u00" + [HexDigit(c as int / 16), HexDigit(c as int % 16)]
    else [c]
  }

  function Escape(s: string): (e: string)
    ensures |e| <= 6 * |s|
  {
    if s == "" then "" else EscapeChar(s[0]) + Escape(s[1..])
  }

  /** What fits of the escaped text in `room` characters: an escape that does not fit is skipped,
      and nothing more is written once the room is used up. */
  function EscapeCapped(s: string, room: nat): (e: string)
    ensures |e| <= room
  {
    if s == "" || room == 0 then ""
    else if |EscapeChar(s[0])| <= room then EscapeChar(s[0]) + EscapeCapped(s[1..], room - |EscapeChar(s[0])|)
    else EscapeCapped(s[1..], room)
  }

  /** The characters of s whose escapes EscapeCapped writes. */
  function Kept(s: string, room: nat): string {
    if s == "" || room == 0 then ""
    else if |EscapeChar(s[0])| <= room then [s[0]] + Kept(s[1..], room - |EscapeChar(s[0])|)
    else Kept(s[1..], room)
  }

  predicate Subsequence(a: string, b: string) {
    if a == "" then true
    else if b == "" then false
    else if a[0] == b[0] && Subsequence(a[1..], b[1..]) then true
    else Subsequence(a, b[1..])
  }

  /** Whatever the room, the output is the complete escape of a subsequence of s. */
  lemma {:induction false} CappedIsEscapeOfSubsequence(s: string, room: nat)
    ensures EscapeCapped(s, room) == Escape(Kept(s, room))
    ensures Subsequence(Kept(s, room), s)
  {
    if s != "" && room > 0 {
      var e := EscapeChar(s[0]);
      if |e| <= room {
        CappedIsEscapeOfSubsequence(s[1..], room - |e|);
        assert Kept(s, room)[1..] == Kept(s[1..], room - |e|);
      } else {
        CappedIsEscapeOfSubsequence(s[1..], room);
      }
    }
  }

  /** With room for all of it nothing is dropped; 6 * |s| is always room enough. */
  lemma {:induction false} RoomForAll(s: string, room: nat)
    requires |Escape(s)| <= room
    ensures EscapeCapped(s, room) == Escape(s) && Kept(s, room) == s
  {
    if s != "" {
      RoomForAll(s[1..], room - |EscapeChar(s[0])|);
    }
  }

  function Count(s: string, c: char): nat {
    if s == "" then 0 else (if s[0] == c then 1 else 0) + Count(s[1..], c)
  }

  /** A character is dropped only if its escape does not fit into what is left of the room in the end: as
      long as it does, every occurrence of it is kept. */
  lemma {:induction false} DroppedForLackOfRoom(s: string, room: nat, c: char)
    requires room - |EscapeCapped(s, room)| >= |EscapeChar(c)|
    ensures Count(Kept(s, room), c) == Count(s, c)
    decreases |s|
  {
    hide EscapeChar;
    if s != "" && room > 0 {
      var n := |EscapeChar(s[0])|;
      if n <= room {
        DroppedForLackOfRoom(s[1..], room - n, c);
        var kept := Kept(s[1..], room - n);
        assert ([s[0]] + kept)[1..] == kept;
      } else {
        DroppedForLackOfRoom(s[1..], room, c);
      }
    }
  }

  /** And a beginning that fits is kept as a whole. */
  lemma {:induction false} FittingPrefixIsKept(s: string, room: nat, n: nat)
    requires n <= |s| && |Escape(s[..n])| <= room
    ensures s[..n] <= Kept(s, room)
    decreases |s|
  {
    hide EscapeChar;
    if n > 0 {
      assert s[..n][0] == s[0] && s[..n][1..] == s[1..][..n - 1];
      FittingPrefixIsKept(s[1..], room - |EscapeChar(s[0])|, n - 1);
      assert s[..n] == [s[0]] + s[1..][..n - 1];
    }
  }

  /** mnet_json_escape. */
  method EscapeInto(out: array<char>, outSize: nat, s: string) returns (n: nat)
    requires outSize <= out.Length
    modifies out
    ensures outSize == 0 ==> n == 0 && out[..] == old(out[..])
    ensures outSize > 0 ==> n < outSize && out[..n] == EscapeCapped(s, outSize - 1) && out[n] == NUL
    ensures forall k :: outSize <= k < out.Length ==> out[k] == old(out[k])
  {
    hide EscapeCapped;
    if outSize == 0 {
      return 0;
    }
    var pos, p := 0, 0;
    assert s[0..] == s;
    assert out[..0] + EscapeCapped(s, outSize - 1) == EscapeCapped(s, outSize - 1);
    while p < |s| && pos < outSize - 1
      invariant 0 <= p <= |s| && 0 <= pos < outSize
      invariant EscapeCapped(s, outSize - 1) == out[..pos] + EscapeCapped(s[p..], outSize - 1 - pos)
      invariant forall k :: outSize <= k < out.Length ==> out[k] == old(out[k])
    {
      pos := PutEscape(out, pos, outSize, s, p);
      p := p + 1;
    }
    CappedEnds(s[p..], outSize - 1 - pos, out[..pos]);
    Terminate(out, pos);
    return pos;
  }

  /** The switch: the escape of s[p] at pos, if it fits. */
  method PutEscape(out: array<char>, pos: nat, outSize: nat, s: string, p: nat) returns (end: nat)
    requires pos < outSize - 1 && outSize <= out.Length && p < |s|
    modifies out
    ensures end < outSize
    ensures out[..end] + EscapeCapped(s[p + 1..], outSize - 1 - end) == old(out[..pos]) + EscapeCapped(s[p..], outSize - 1 - pos)
    ensures forall k :: outSize <= k < out.Length ==> out[k] == old(out[k])
  {
    hide EscapeCapped, EscapeChar;
    CappedAt(s, p, outSize - 1 - pos);
    end := PutIfFits(out, pos, outSize, EscapeChar(s[p]), EscapeCapped(s[p + 1..], RoomAfter(s[p], outSize - 1 - pos)));
  }

  /** The room left after c: all of it when the escape of c does not fit. */
  function RoomAfter(c: char, room: nat): nat {
    if |EscapeChar(c)| <= room then room - |EscapeChar(c)| else room
  }

  /** Writes e at pos if that leaves a place for the terminator. */
  method PutIfFits(out: array<char>, pos: nat, outSize: nat, e: string, ghost tail: string) returns (end: nat)
    requires pos < outSize <= out.Length
    modifies out
    ensures end == if pos + |e| <= outSize - 1 then pos + |e| else pos
    ensures old(out[..pos]) + ((if pos + |e| <= outSize - 1 then e else "") + tail) == out[..end] + tail
    ensures forall k :: outSize <= k < out.Length ==> out[k] == old(out[k])
  {
    if pos + |e| <= outSize - 1 {
      end := PutAll(out, pos, e, tail);
    } else {
      end := pos;
      assert "" + tail == tail;
    }
  }

  method Terminate(out: array<char>, pos: nat)
    requires pos < out.Length
    modifies out
    ensures out[..pos] == old(out[..pos]) && out[pos] == NUL
    ensures forall k :: pos < k < out.Length ==> out[k] == old(out[k])
  {
    out[pos] := NUL;
  }

  lemma CappedAt(s: string, p: nat, room: nat)
    requires p < |s| && room > 0
    ensures EscapeCapped(s[p..], room)
            == (if |EscapeChar(s[p])| <= room then EscapeChar(s[p]) else "") + EscapeCapped(s[p + 1..], RoomAfter(s[p], room))
  {
    assert s[p..][0] == s[p] && s[p..][1..] == s[p + 1..];
    assert "" + EscapeCapped(s[p + 1..], room) == EscapeCapped(s[p + 1..], room);
  }

  lemma CappedEnds(s: string, room: nat, done: string)
    requires s == "" || room == 0
    ensures done + EscapeCapped(s, room) == done
  {
    assert done + "" == done;
  }

  /** Writes e at pos. */
  method PutAll(out: array<char>, pos: nat, e: string, ghost tail: string) returns (end: nat)
    requires pos + |e| <= out.Length
    modifies out
    ensures end == pos + |e|
    ensures old(out[..pos]) + (e + tail) == out[..end] + tail
    ensures out[..end] == old(out[..pos]) + e
    ensures forall k :: end <= k < out.Length ==> out[k] == old(out[k])
  {
    ghost var before := out[..pos];
    for i := 0 to |e|
      invariant out[..pos + i] == before + e[..i]
      invariant forall k :: pos + i <= k < out.Length ==> out[k] == old(out[k])
    {
      out[pos + i] := e[i];
      assert out[..pos + i + 1] == out[..pos + i] + [e[i]];
      assert e[..i + 1] == e[..i] + [e[i]];
    }
    assert e[..|e|] == e;
    Assoc(before, e, tail);
    return pos + |e|;
  }

  // ---------------------------------------------------------------- the lexer

  function Hex4(t: string): Option<int>
    requires |t| >= 4
  {
    if IsHex(t[0]) && IsHex(t[1]) && IsHex(t[2]) && IsHex(t[3]) then
      Some(((HexValue(t[0]) * 16 + HexValue(t[1])) * 16 + HexValue(t[2])) * 16 + HexValue(t[3]))
    else None
  }

  /** The UTF-8 bytes of a code point of the basic multilingual plane; surrogates have none. */
  function Utf8OfUnit(u: int): Option<string>
    requires 0 <= u < 0x10000
  {
    if u < 0x80 then Some([u as char])
    else if u < 0x800 then Some([(0xC0 + u / 64) as char, (0x80 + u % 64) as char])
    else if 0xD800 <= u < 0xE000 then None
    else Some([(0xE0 + u / 4096) as char, (0x80 + u / 64 % 64) as char, (0x80 + u % 64) as char])
  }

  /** The UTF-8 bytes of the code point that a surrogate pair stands for. */
  function Utf8OfPair(high: int, low: int): string
    requires 0xD800 <= high < 0xDC00 && 0xDC00 <= low < 0xE000
  {
    var c := 0x10000 + (high - 0xD800) * 0x400 + (low - 0xDC00);
    [(0xF0 + c / 0x40000) as char, (0x80 + c / 4096 % 64) as char, (0x80 + c / 64 % 64) as char, (0x80 + c % 64) as char]
  }

  /** What follows "\\u": one code unit or a surrogate pair, as its bytes and the characters read.  A lone
      surrogate stands for no text. */
  function LexUnicode(t: string): (r: Option<(string, nat)>)
    ensures r.Some? ==> r.value.1 <= |t|
  {
    if |t| < 4 || Hex4(t).None? then None
    else
      var u := Hex4(t).value;
      if !(0xD800 <= u < 0xDC00) then
        var bytes := Utf8OfUnit(u);
        if bytes.None? then None else Some((bytes.value, 4))
      else if |t| < 10 || t[4] != '\\' || t[5] != 'u' || Hex4(t[6..]).None? then None
      else
        var low := Hex4(t[6..]).value;
        if 0xDC00 <= low < 0xE000 then Some((Utf8OfPair(u, low), 10)) else None
  }

  type Lexed = Option<(string, string)>

  function Emit(text: string, r: Lexed): Lexed {
    if r.Some? then Some((text + r.value.0, r.value.1)) else None
  }

  /** The characters up to the closing quotation mark, and what follows it. */
  function LexChars(t: string): Lexed
    decreases |t|
  {
    if t == "" || t[0] < ' ' then None
    else if t[0] == '"' then Some(("", t[1..]))
    else if t[0] != '\\' then Emit([t[0]], LexChars(t[1..]))
    else if |t| < 2 then None
    else match t[1]
      case '"' => Emit("\"", LexChars(t[2..]))
      case '\\' => Emit("\\", LexChars(t[2..]))
      case '/' => Emit("/", LexChars(t[2..]))
      case 'b' => Emit([8 as char], LexChars(t[2..]))
      case 'f' => Emit([12 as char], LexChars(t[2..]))
      case 'n' => Emit("\n", LexChars(t[2..]))
      case 'r' => Emit("\r", LexChars(t[2..]))
      case 't' => Emit("\t", LexChars(t[2..]))
      case 'u' =>
        var r := LexUnicode(t[2..]);
        if r.None? then None else Emit(r.value.0, LexChars(t[2..][r.value.1..]))
      case _ => None
  }

  function LexString(t: string): Lexed {
    if t != "" && t[0] == '"' then LexChars(t[1..]) else None
  }

  lemma LexEscapedChar(c: char, rest: string)
    ensures LexChars(EscapeChar(c) + rest) == Emit([c], LexChars(rest))
  {
    hide LexChars, EscapeChar;
    EscapeLength(c);
    if |EscapeChar(c)| == 1 {
      LexPlain(c, rest);
    } else if |EscapeChar(c)| == 2 {
      LexShort(c, rest);
    } else {
      LexLong(c, rest);
    }
  }

  lemma EscapeLength(c: char)
    ensures |EscapeChar(c)| in {1, 2, 6}
  {
  }

  lemma LexPlain(c: char, rest: string)
    requires |EscapeChar(c)| == 1
    ensures LexChars(EscapeChar(c) + rest) == Emit([c], LexChars(rest))
  {
    hide LexUnicode;
    assert ([c] + rest)[1..] == rest;
  }

  lemma LexShort(c: char, rest: string)
    requires |EscapeChar(c)| == 2
    ensures LexChars(EscapeChar(c) + rest) == Emit([c], LexChars(rest))
  {
    hide LexUnicode;
    assert (EscapeChar(c) + rest)[2..] == rest;
  }

  lemma LexLong(c: char, rest: string)
    requires |EscapeChar(c)| == 6
    ensures LexChars(EscapeChar(c) + rest) == Emit([c], LexChars(rest))
  {
    hide LexUnicode, EscapeChar, LexChars;
    var e := EscapeChar(c);
    var t := e + rest;
    LexControl(c, rest);
    assert e[..2][0] == '\\' && e[..2][1] == 'u';
    LexUnicodeEscape(t);
    assert t[2..] == e[2..] + rest;
    assert t[2..][4..] == rest;
  }

  lemma LexUnicodeEscape(t: string)
    requires |t| >= 2 && t[0] == '\\' && t[1] == 'u'
    ensures LexChars(t) == var r := LexUnicode(t[2..]);
                           if r.None? then None else Emit(r.value.0, LexChars(t[2..][r.value.1..]))
  {
    hide LexUnicode;
  }

  lemma LexControl(c: char, rest: string)
    requires |EscapeChar(c)| == 6
    ensures EscapeChar(c)[..2] == "\\u" && LexUnicode(EscapeChar(c)[2..] + rest) == Some(([c], 4))
  {
    var h := EscapeChar(c)[2..];
    var t := h + rest;
    assert forall i :: 0 <= i < 4 ==> t[i] == h[i];
    assert Hex4(h) == Some(c as int);
  }

  lemma {:induction false} LexEscaped(s: string, rest: string)
    ensures LexChars(Escape(s) + "\"" + rest) == Some((s, rest))
  {
    hide LexChars, EscapeChar;
    if s == "" {
      assert Escape(s) + "\"" + rest == "\"" + rest;
      LexQuote(rest);
    } else {
      assert Escape(s) + "\"" + rest == EscapeChar(s[0]) + (Escape(s[1..]) + "\"" + rest);
      LexEscapedChar(s[0], Escape(s[1..]) + "\"" + rest);
      LexEscaped(s[1..], rest);
      assert [s[0]] + s[1..] == s;
    }
  }

  lemma LexQuote(rest: string)
    ensures LexChars("\"" + rest) == Some(("", rest))
  {
    assert ("\"" + rest)[1..] == rest;
  }

  /** A JSON lexer reads back exactly the string that was escaped, and stops where it ends. */
  lemma EscapeRoundTrip(s: string, rest: string)
    ensures LexString("\"" + Escape(s) + "\"" + rest) == Some((s, rest))
  {
    var t := "\"" + Escape(s) + "\"" + rest;
    assert t[1..] == Escape(s) + "\"" + rest;
    LexEscaped(s, rest);
  }

  /** Even when the room is too small, the output never ends inside an escape: it lexes to a subsequence. */
  lemma CappedStillLexes(s: string, room: nat, rest: string)
    ensures LexString("\"" + EscapeCapped(s, room) + "\"" + rest) == Some((Kept(s, room), rest))
    ensures Subsequence(Kept(s, room), s)
  {
    CappedIsEscapeOfSubsequence(s, room);
    EscapeRoundTrip(Kept(s, room), rest);
  }
}
