/** Route matching: mnet_route_match as a character scan, and what it means for segments. */
module Router {
  import opened Bytes
  import UrlCodec

  const DECODE_CAP := 4095

  // ---------------------------------------------------------------- decoding a path segment

  /** Percent-decoding that leaves '+' and malformed escapes as they are. */
  function PathDecode(s: string): (r: string)
    ensures |r| <= |s|
  {
    if s == "" then ""
    else if s[0] == '%' && |s| >= 3 && IsHex(s[1]) && IsHex(s[2]) then [HexPair(s[1], s[2])] + PathDecode(s[3..])
    else [s[0]] + PathDecode(s[1..])
  }

  /** What the 4096-byte buffer of mnet_route_match holds at the end. */
  function DecodeSegment(seg: string): string {
    var d := PathDecode(seg);
    if |d| > DECODE_CAP then d[..DECODE_CAP] else d
  }

  lemma {:induction false} PathDecodeInvertsEncode(s: string)
    requires AllBytes(s)
    ensures PathDecode(UrlCodec.Encode(s)) == s
  {
    if s != "" {
      PathDecodeInvertsEncode(s[1..]);
      PathDecodePiece(s[0], UrlCodec.Encode(s[1..]));
    }
  }

  lemma PathDecodePiece(c: char, rest: string)
    requires c as int < 256
    ensures PathDecode(UrlCodec.EncodeChar(c).Spelling() + rest) == [c] + PathDecode(rest)
  {
    var p := UrlCodec.EncodeChar(c).Spelling();
    assert (p + rest)[|p|..] == rest;
  }

  lemma {:induction false} PathDecodeKeepsPlain(s: string)
    requires '%' !in s
    ensures PathDecode(s) == s
  {
    if s != "" { PathDecodeKeepsPlain(s[1..]); }
  }

  // ---------------------------------------------------------------- the character scan

  /** A unit of a path segment: an escape, or a character that stands for itself, also a '%' or '+'. */
  datatype Unit = Escaped(hi: char, lo: char) | Itself(c: char) {
    function Spelling(): string { if Escaped? then ['%', hi, lo] else [c] }
  }

  function SpellUnits(us: seq<Unit>): string {
    if us == [] then "" else us[0].Spelling() + SpellUnits(us[1..])
  }

  /** A '%' stands for itself only where no two hex digits follow it. */
  predicate ProperUnits(us: seq<Unit>) {
    us == []
    || (&& (us[0].Escaped? ==> IsHex(us[0].hi) && IsHex(us[0].lo))
        && (us[0] == Itself('%') ==> var t := SpellUnits(us[1..]); |t| < 2 || !IsHex(t[0]) || !IsHex(t[1]))
        && ProperUnits(us[1..]))
  }

  /** Escapes are decoded and everything else, malformed escapes included, is kept. */
  lemma {:induction false} PathDecodeExactly(us: seq<Unit>)
    requires ProperUnits(us)
    ensures |PathDecode(SpellUnits(us))| == |us|
    ensures forall i :: 0 <= i < |us| ==>
              var r := PathDecode(SpellUnits(us))[i];
              (us[i].Itself? ==> r == us[i].c)
              && (us[i].Escaped? ==> IsHex(us[i].hi) && IsHex(us[i].lo) && r as int == 16 * HexValue(us[i].hi) + HexValue(us[i].lo))
  {
    if us != [] {
      PathDecodeExactly(us[1..]);
      PathDecodeUnit(us[0], SpellUnits(us[1..]));
      var first := PathDecode(us[0].Spelling() + SpellUnits(us[1..]));
      forall i | 1 <= i < |us|
        ensures first[i] == PathDecode(SpellUnits(us[1..]))[i - 1] && us[i] == us[1..][i - 1]
      {
      }
    }
  }

  lemma PathDecodeUnit(u: Unit, rest: string)
    requires u.Escaped? ==> IsHex(u.hi) && IsHex(u.lo)
    requires u == Itself('%') ==> |rest| < 2 || !IsHex(rest[0]) || !IsHex(rest[1])
    ensures PathDecode(u.Spelling() + rest) == [if u.Escaped? then HexPair(u.hi, u.lo) else u.c] + PathDecode(rest)
  {
    var t := u.Spelling() + rest;
    assert t[|u.Spelling()|..] == rest;
    if u == Itself('%') && |rest| >= 2 { assert t[1] == rest[0] && t[2] == rest[1]; }
  }

  /** A value is cut at the decoder's capacity, and only there. */
  lemma SegmentIsCapped(seg: string)
    ensures DecodeSegment(seg) <= PathDecode(seg) && |DecodeSegment(seg)| == Min(|PathDecode(seg)|, 4095)
  {
  }

  function Prepend(v: string, r: Option<seq<string>>): Option<seq<string>> {
    if r.Some? then Some([v] + r.value) else None
  }

  function DropSlash(s: string): (r: string)
    ensures |r| <= |s|
  {
    if s != "" && s[0] == '/' then s[1..] else s
  }

  /** What is left of a string after its first segment and, if there is one, the '/' behind it. */
  function AfterSegment(s: string): (r: string)
    ensures |r| <= |s|
  {
    DropSlash(s[UpTo(s, '/')..])
  }

  /** The captured values when the rest of the pattern matches the rest of the path. */
  function Scan(pattern: string, path: string): Option<seq<string>>
    decreases |pattern|
  {
    if pattern == "" || path == "" then
      if pattern == "" && path == "" then Some([]) else None
    else if pattern[0] == '*' then
      Prepend(path, Scan(pattern[1..], ""))
    else if pattern[0] == ':' then
      Prepend(DecodeSegment(path[..UpTo(path, '/')]), Scan(AfterSegment(pattern[1..]), AfterSegment(path)))
    else if pattern[0] == path[0] then Scan(pattern[1..], path[1..])
    else None
  }

  function Match(pattern: string, path: string): Option<seq<string>> {
    if pattern == "" || path == "" || pattern[0] != '/' || path[0] != '/' then None
    else Scan(pattern, path)
  }

  /** How many values a pattern can capture. */
  function Slots(pattern: string): nat
    decreases |pattern|
  {
    if pattern == "" then 0
    else if pattern[0] == '*' then 1 + Slots(pattern[1..])
    else if pattern[0] == ':' then 1 + Slots(AfterSegment(pattern[1..]))
    else Slots(pattern[1..])
  }

  /** How many values the scan has captured when it stops, matching or not. */
  function Taken(pattern: string, path: string): nat
    decreases |pattern|
  {
    if pattern == "" || path == "" then 0
    else if pattern[0] == '*' then 1
    else if pattern[0] == ':' then 1 + Taken(AfterSegment(pattern[1..]), AfterSegment(path))
    else if pattern[0] == path[0] then Taken(pattern[1..], path[1..])
    else 0
  }

  /** When the scan matches, these are its values. */
  lemma {:induction false} TakenIsCount(pattern: string, path: string)
    requires Scan(pattern, path).Some?
    ensures |Scan(pattern, path).value| == Taken(pattern, path)
    decreases |pattern|
  {
    if pattern != "" && path != "" {
      if pattern[0] == ':' {
        TakenIsCount(AfterSegment(pattern[1..]), AfterSegment(path));
      } else if pattern[0] != '*' {
        TakenIsCount(pattern[1..], path[1..]);
      }
    }
  }

  lemma {:induction false} TakenAtMostSlots(pattern: string, path: string)
    ensures Taken(pattern, path) <= Slots(pattern)
    decreases |pattern|
  {
    if pattern != "" && path != "" {
      if pattern[0] == ':' {
        TakenAtMostSlots(AfterSegment(pattern[1..]), AfterSegment(path));
      } else if pattern[0] != '*' {
        TakenAtMostSlots(pattern[1..], path[1..]);
      }
    }
  }

  // ---------------------------------------------------------------- segments

  datatype Segment = Literal(text: string) | Param(name: string) | Wildcard {
    predicate Valid() {
      match this
      case Literal(t) => '/' !in t && ':' !in t && '*' !in t
      case Param(n) => '/' !in n
      case Wildcard => true
    }

    function Spelling(): string {
      match this
      case Literal(t) => t
      case Param(n) => ":" + n
      case Wildcard => "*"
    }
  }

  /** A pattern is '/' and at least one segment; a wildcard can only come last. */
  predicate WellFormed(segs: seq<Segment>) {
    && segs != []
    && (forall i :: 0 <= i < |segs| ==> segs[i].Valid())
    && (forall i :: 0 <= i < |segs| - 1 ==> !segs[i].Wildcard?)
  }

  /** The segments of a path: any strings without '/'. */
  predicate PathSegments(ps: seq<string>) {
    ps != [] && forall i :: 0 <= i < |ps| ==> '/' !in ps[i]
  }

  function SpellAll(segs: seq<Segment>): string
    requires segs != []
  {
    if |segs| == 1 then segs[0].Spelling() else segs[0].Spelling() + "/" + SpellAll(segs[1..])
  }

  function Pattern(segs: seq<Segment>): string
    requires segs != []
  {
    "/" + SpellAll(segs)
  }

  function Path(ps: seq<string>): string { "/" + Join(ps, '/') }

  /** Segment by segment: literals must be equal, a parameter takes one segment, a wildcard takes
      all the rest.  [""] is the path that has ended: it offers nothing to a parameter or a wildcard.
      After a parameter the path may stop, or go on with one empty segment. */
  function MatchSegments(segs: seq<Segment>, ps: seq<string>): Option<seq<string>>
    requires segs != [] && ps != []
    decreases |segs|
  {
    match segs[0]
    case Wildcard => if ps == [""] then None else Some([Join(ps, '/')])
    case Literal(t) =>
      if |segs| == 1 then (if ps == [t] then Some([]) else None)
      else if |ps| > 1 && ps[0] == t then MatchSegments(segs[1..], ps[1..])
      else None
    case Param(_) =>
      if ps == [""] then None
      else if |segs| == 1 then
        (if |ps| == 1 || ps[1..] == [""] then Some([DecodeSegment(ps[0])]) else None)
      else
        Prepend(DecodeSegment(ps[0]), MatchSegments(segs[1..], if |ps| == 1 then [""] else ps[1..]))
  }

  // ---------------------------------------------------------------- the scan refines the segment matcher

  lemma {:induction false} ScanLiteral(text: string, pattern: string, path: string)
    requires ':' !in text && '*' !in text
    ensures Scan(text + pattern, path) == if text <= path then Scan(pattern, path[|text|..]) else None
  {
    if text == "" {
      assert text + pattern == pattern && path[0..] == path;
    } else if path != "" {
      assert (text + pattern)[1..] == text[1..] + pattern;
      ScanLiteral(text[1..], pattern, path[1..]);
      PrefixStep(text, path);
      if text <= path { assert path[1..][|text[1..]|..] == path[|text|..]; }
    }
  }

  lemma PrefixStep(a: string, b: string)
    requires a != "" && b != ""
    ensures a <= b <==> a[0] == b[0] && a[1..] <= b[1..]
  {
    assert a == [a[0]] + a[1..] && b == [b[0]] + b[1..];
  }

  /** The first segment of a joined path. */
  lemma {:induction false} JoinFirst(ps: seq<string>)
    requires PathSegments(ps)
    ensures UpTo(Join(ps, '/'), '/') == |ps[0]| && Join(ps, '/')[..|ps[0]|] == ps[0]
    ensures AfterSegment(Join(ps, '/')) == if |ps| == 1 then "" else Join(ps[1..], '/')
    ensures Join(ps, '/') == "" <==> ps == [""]
    ensures |ps| == 1 <==> |Join(ps, '/')| == |ps[0]|
  {
    var s := Join(ps, '/');
    assert s[..|ps[0]|] == ps[0];
    if |ps| > 1 {
      assert s[|ps[0]|..] == "/" + Join(ps[1..], '/');
    }
    UpToIs(s, '/', |ps[0]|);
  }

  lemma {:induction false} SpelledFirst(segs: seq<Segment>)
    requires WellFormed(segs) && segs[0].Param?
    ensures AfterSegment(SpellAll(segs)[1..]) == if |segs| == 1 then "" else SpellAll(segs[1..])
    ensures SpellAll(segs)[0] == ':'
  {
    var n := segs[0].name;
    var tail := if |segs| > 1 then "/" + SpellAll(segs[1..]) else "";
    assert SpellAll(segs) == (":" + n) + tail;
    hide *;
    assert ((":" + n) + tail)[1..] == n + tail;
    BehindName(n, tail);
  }

  lemma BehindName(n: string, tail: string)
    requires '/' !in n && (tail == "" || tail[0] == '/')
    ensures AfterSegment(n + tail) == if tail == "" then "" else tail[1..]
  {
    hide UpTo;
    UpToIs(n + tail, '/', |n|);
    assert (n + tail)[|n|..] == tail;
  }

  lemma {:induction false} ScanRefinesSegments(segs: seq<Segment>, ps: seq<string>)
    requires WellFormed(segs) && PathSegments(ps)
    ensures Scan(SpellAll(segs), Join(ps, '/')) == MatchSegments(segs, ps)
    decreases |segs|, 1
  {
    match segs[0]
    case Wildcard => ScanRefinesWildcard(segs, ps);
    case Literal(t) => ScanRefinesLiteral(segs, ps, t);
    case Param(_) => ScanRefinesParam(segs, ps);
  }

  lemma ScanRefinesWildcard(segs: seq<Segment>, ps: seq<string>)
    requires WellFormed(segs) && PathSegments(ps) && segs[0].Wildcard?
    ensures Scan(SpellAll(segs), Join(ps, '/')) == MatchSegments(segs, ps)
  {
    var s, path := SpellAll(segs), Join(ps, '/');
    JoinFirst(ps);
    assert |segs| == 1 && s[1..] == "";
    assert [path] + [] == [path];
    assert path != "" ==> Scan(s, path) == Prepend(path, Scan(s[1..], ""));
  }

  lemma {:induction false} ScanRefinesParam(segs: seq<Segment>, ps: seq<string>)
    requires WellFormed(segs) && PathSegments(ps) && segs[0].Param?
    ensures Scan(SpellAll(segs), Join(ps, '/')) == MatchSegments(segs, ps)
    decreases |segs|, 0
  {
    var s, path := SpellAll(segs), Join(ps, '/');
    JoinFirst(ps);
    SpelledFirst(segs);
    assert path != "" ==> Scan(s, path) == Prepend(DecodeSegment(ps[0]), Scan(AfterSegment(s[1..]), AfterSegment(path)));
    if |segs| > 1 {
      if ps != [""] {
        ScanRefinesSegments(segs[1..], if |ps| == 1 then [""] else ps[1..]);
      }
    } else {
      if |ps| > 1 { JoinFirst(ps[1..]); }
      assert [DecodeSegment(ps[0])] + [] == [DecodeSegment(ps[0])];
    }
  }

  lemma ScanRefinesLastLiteral(segs: seq<Segment>, ps: seq<string>, t: string)
    requires WellFormed(segs) && PathSegments(ps) && segs == [Literal(t)]
    ensures Scan(SpellAll(segs), Join(ps, '/')) == MatchSegments(segs, ps)
  {
    var path := Join(ps, '/');
    JoinFirst(ps);
    assert SpellAll(segs) == t + "";
    ScanLiteral(t, "", path);
    if path == t {
      UpToIs(path, '/', |t|);
      assert ps == [t];
    } else if t <= path {
      assert path[|t|..] != "";
    }
  }

  lemma {:induction false} ScanRefinesLiteral(segs: seq<Segment>, ps: seq<string>, t: string)
    requires WellFormed(segs) && PathSegments(ps) && segs[0] == Literal(t)
    ensures Scan(SpellAll(segs), Join(ps, '/')) == MatchSegments(segs, ps)
    decreases |segs|, 0
  {
    var path := Join(ps, '/');
    JoinFirst(ps);
    if |segs| == 1 {
      ScanRefinesLastLiteral(segs, ps, t);
    } else {
      var rest := "/" + SpellAll(segs[1..]);
      assert SpellAll(segs) == t + rest;
      ScanLiteral(t, rest, path);
      if t <= path {
        ScanLiteral("/", SpellAll(segs[1..]), path[|t|..]);
        if "/" <= path[|t|..] {
          UpToIs(path, '/', |t|);
          assert ps[0] == t;
          assert path[|t|..][1..] == Join(ps[1..], '/');
          ScanRefinesSegments(segs[1..], ps[1..]);
        }
      }
    }
  }

  /** mnet_route_match on a well-formed pattern decides exactly the segment matcher, and every path
      that starts with '/' is of this form. */
  lemma MatchRefinesSegments(segs: seq<Segment>, ps: seq<string>)
    requires WellFormed(segs) && PathSegments(ps)
    ensures Match(Pattern(segs), Path(ps)) == MatchSegments(segs, ps)
  {
    ScanLiteral("/", SpellAll(segs), Path(ps));
    assert Path(ps)[1..] == Join(ps, '/');
    ScanRefinesSegments(segs, ps);
  }

  /** The segments of a text without its leading '/'. */
  function Split(text: string): (ps: seq<string>)
    ensures ps != []
    decreases |text|
  {
    var n := UpTo(text, '/');
    if n == |text| then [text] else [text[..n]] + Split(text[n + 1..])
  }

  lemma {:induction false} SplitJoins(text: string)
    ensures PathSegments(Split(text)) && Join(Split(text), '/') == text
    decreases |text|
  {
    var n := UpTo(text, '/');
    var first := text[..n];
    assert '/' !in first;
    if n < |text| {
      var rest := Split(text[n + 1..]);
      SplitJoins(text[n + 1..]);
      JoinSplitFirst(first, rest);
      assert text == first + ("/" + text[n + 1..]);
    } else {
      assert text[..n] == text;
    }
  }

  lemma JoinSplitFirst(first: string, rest: seq<string>)
    requires rest != []
    ensures Join([first] + rest, '/') == first + ("/" + Join(rest, '/'))
  {
    assert ([first] + rest)[1..] == rest;
  }

  /** A '*' that is not the end of its pattern makes it match nothing. */
  lemma StarEndsPattern(text: string, behind: string, path: string)
    requires ':' !in text && '*' !in text && behind != ""
    ensures Match("/" + text + "*" + behind, path) == None
  {
    var pattern := "/" + text;
    assert pattern + ("*" + behind) == pattern + "*" + behind;
    ScanLiteral(pattern, "*" + behind, path);
    if pattern <= path {
      assert ("*" + behind)[1..] == behind;
      assert Scan(behind, "") == None;
    }
  }

  /** Patterns and paths that do not start with '/' match nothing. */
  lemma NoSlashNoMatch(pattern: string, path: string)
    requires pattern == "" || pattern[0] != '/' || path == "" || path[0] != '/'
    ensures Match(pattern, path) == None
  {
  }

  /** Every path that starts with '/' is the path of its segments. */
  lemma EveryPathHasSegments(path: string)
    requires path != "" && path[0] == '/'
    ensures PathSegments(Split(path[1..])) && Path(Split(path[1..])) == path
  {
    SplitJoins(path[1..]);
  }

  // ---------------------------------------------------------------- consequences

  /** A pattern that ends in a parameter matches a path with and without one trailing slash alike. */
  lemma {:induction false} TrailingSlashOptional(segs: seq<Segment>, ps: seq<string>)
    requires WellFormed(segs) && PathSegments(ps) && segs[|segs| - 1].Param? && ps[|ps| - 1] != ""
    ensures MatchSegments(segs, ps + [""]) == MatchSegments(segs, ps)
    decreases |segs|
  {
    if |segs| > 1 && |ps| > 1 {
      assert (ps + [""])[1..] == ps[1..] + [""];
      TrailingSlashOptional(segs[1..], ps[1..]);
    } else if |segs| > 1 {
      assert (ps + [""])[1..] == [""];
    }
  }

  /** A pattern that ends in a non-empty literal never matches a path with a trailing slash. */
  lemma {:induction false} TrailingSlashRejected(segs: seq<Segment>, ps: seq<string>)
    requires WellFormed(segs) && PathSegments(ps) && ps[|ps| - 1] == ""
    requires segs[|segs| - 1].Literal? && segs[|segs| - 1].text != ""
    ensures MatchSegments(segs, ps) == None
    decreases |segs|
  {
    if |segs| > 1 {
      TrailingSlashRejected(segs[1..], if |ps| == 1 then [""] else ps[1..]);
    }
  }

  /** The names of the values a well-formed pattern captures. */
  function Captures(segs: seq<Segment>): (cs: seq<Segment>)
    ensures |cs| <= |segs| && forall c :: c in cs ==> c in segs && !c.Literal?
  {
    if segs == [] then []
    else if segs[0].Literal? then Captures(segs[1..])
    else [segs[0]] + Captures(segs[1..])
  }

  lemma {:induction false} OneValuePerCapture(segs: seq<Segment>, ps: seq<string>)
    requires WellFormed(segs) && PathSegments(ps)
    ensures var r := MatchSegments(segs, ps); r.Some? ==> |r.value| == |Captures(segs)|
    decreases |segs|
  {
    if |segs| > 1 {
      OneValuePerCapture(segs[1..], if |ps| == 1 then [""] else ps[1..]);
    } else {
      assert Captures(segs[1..]) == [];
    }
  }

  /** Which segment the k-th capture is. */
  function CaptureIndex(segs: seq<Segment>, k: nat): (i: nat)
    requires k < |Captures(segs)|
    ensures i < |segs| && segs[i] == Captures(segs)[k]
    decreases |segs|
  {
    if segs[0].Literal? then 1 + CaptureIndex(segs[1..], k)
    else if k == 0 then 0
    else 1 + CaptureIndex(segs[1..], k - 1)
  }

  /** What segment i of a pattern stands for in a path: its own segment, decoded, or the raw rest. */
  function TextAt(segs: seq<Segment>, ps: seq<string>, i: nat): string
    requires i < |segs| && i < |ps|
  {
    if segs[i].Wildcard? then Join(ps[i..], '/') else DecodeSegment(ps[i])
  }

  /** Captures are aligned with the path: whenever a pattern matches, its k-th value is the text at its
      k-th capture. */
  lemma {:induction false} ValueAtCapture(segs: seq<Segment>, ps: seq<string>, k: nat)
    requires WellFormed(segs) && PathSegments(ps) && MatchSegments(segs, ps).Some? && k < |Captures(segs)|
    ensures var values := MatchSegments(segs, ps).value; var i := CaptureIndex(segs, k);
            k < |values| && i < |ps| && values[k] == TextAt(segs, ps, i)
    decreases |segs|
  {
    hide MatchSegments, TextAt, Captures, CaptureIndex;
    OneValuePerCapture(segs, ps);
    CapturesStep(segs);
    CaptureIndexStep(segs, k);
    if !segs[0].Literal? && k == 0 {
      FirstValue(segs, ps);
    } else {
      SegmentsBehind(segs, ps);
      RestMatches(segs, ps);
      var k' := if segs[0].Literal? then k else k - 1;
      ValueAtCapture(segs[1..], RestOf(ps), k');
      if |ps| > 1 {
        TextBehind(segs, ps, CaptureIndex(segs[1..], k'));
      } else {
        NothingAtEnd(segs[1..]);
      }
    }
  }

  /** The path behind its first segment; one that has ended offers one empty segment. */
  function RestOf(ps: seq<string>): (rest: seq<string>)
    requires ps != []
    ensures rest != []
  {
    if |ps| == 1 then [""] else ps[1..]
  }

  lemma CapturesStep(segs: seq<Segment>)
    requires segs != []
    ensures Captures(segs) == if segs[0].Literal? then Captures(segs[1..]) else [segs[0]] + Captures(segs[1..])
    ensures |segs| == 1 ==> Captures(segs[1..]) == []
  {
  }

  lemma CaptureIndexStep(segs: seq<Segment>, k: nat)
    requires segs != [] && k < |Captures(segs)|
    ensures CaptureIndex(segs, k) == if segs[0].Literal? then 1 + CaptureIndex(segs[1..], k)
                                     else if k == 0 then 0
                                     else 1 + CaptureIndex(segs[1..], k - 1)
  {
  }

  lemma FirstValue(segs: seq<Segment>, ps: seq<string>)
    requires segs != [] && ps != [] && !segs[0].Literal? && MatchSegments(segs, ps).Some?
    ensures var values := MatchSegments(segs, ps).value;
            values != [] && values[0] == TextAt(segs, ps, 0)
  {
    assert ps[0..] == ps;
  }

  lemma SegmentsBehind(segs: seq<Segment>, ps: seq<string>)
    requires WellFormed(segs) && PathSegments(ps) && |segs| > 1
    ensures !segs[0].Wildcard? && WellFormed(segs[1..]) && PathSegments(RestOf(ps))
  {
  }

  lemma RestMatches(segs: seq<Segment>, ps: seq<string>)
    requires |segs| > 1 && !segs[0].Wildcard? && ps != [] && MatchSegments(segs, ps).Some?
    ensures MatchSegments(segs[1..], RestOf(ps)).Some?
    ensures MatchSegments(segs, ps).value
            == (if segs[0].Literal? then [] else [DecodeSegment(ps[0])]) + MatchSegments(segs[1..], RestOf(ps)).value
  {
    var r := MatchSegments(segs[1..], RestOf(ps));
    assert r.Some? ==> [] + r.value == r.value;
  }

  /** A path that has ended matches nothing that captures. */
  lemma NothingAtEnd(segs: seq<Segment>)
    requires segs != [] && MatchSegments(segs, [""]).Some?
    ensures segs[0].Literal?
  {
  }

  lemma TextBehind(segs: seq<Segment>, ps: seq<string>, i: nat)
    requires i + 1 < |segs| && i + 1 < |ps|
    ensures TextAt(segs[1..], ps[1..], i) == TextAt(segs, ps, i + 1)
  {
    assert ps[1..][i..] == ps[i + 1..];
  }

  // ---------------------------------------------------------------- building a path from a pattern

  /** The segments of the path a client would write for a pattern: each parameter replaced by a
      percent-encoded value, the wildcard by its value as it is. */
  function Fill(segs: seq<Segment>, values: seq<string>): seq<string>
    requires Fillable(segs, values)
    decreases |segs|
  {
    if segs == [] then []
    else match segs[0]
      case Literal(t) => [t] + Fill(segs[1..], values)
      case Param(_) => [UrlCodec.Encode(values[0])] + Fill(segs[1..], values[1..])
      case Wildcard => Split(values[0]) + Fill(segs[1..], values[1..])
  }

  /** One value per capture: any bytes for a parameter, up to the decoder's capacity, and any text for the
      wildcard; only the value that ends the path must not be empty. */
  predicate Fillable(segs: seq<Segment>, values: seq<string>)
    decreases |segs|
  {
    if segs == [] then values == []
    else match segs[0]
      case Literal(_) => Fillable(segs[1..], values)
      case Param(_) =>
        && values != [] && AllBytes(values[0]) && |values[0]| <= DECODE_CAP
        && (|segs| == 1 ==> values[0] != "")
        && Fillable(segs[1..], values[1..])
      case Wildcard => values != [] && values[0] != "" && Fillable(segs[1..], values[1..])
  }

  lemma {:induction false} EncodeHasNoSlash(s: string)
    requires AllBytes(s)
    ensures '/' !in UrlCodec.Encode(s)
    ensures s != "" ==> UrlCodec.Encode(s) != ""
  {
    if s != "" { EncodeHasNoSlash(s[1..]); }
  }

  lemma {:induction false} FillIsPath(segs: seq<Segment>, values: seq<string>)
    requires WellFormed(segs) && Fillable(segs, values)
    ensures PathSegments(Fill(segs, values))
    decreases |segs|
  {
    hide Split, UrlCodec.Encode;
    if segs[0].Wildcard? {
      assert segs[1..] == [];
      SplitJoins(values[0]);
      assert Split(values[0]) + [] == Split(values[0]);
    } else {
      var rest := if segs[0].Literal? then values else values[1..];
      if segs[0].Param? { EncodeHasNoSlash(values[0]); }
      if |segs| > 1 {
        FillIsPath(segs[1..], rest);
      } else {
        assert segs[1..] == [];
      }
    }
  }

  lemma {:induction false} FillMatches(segs: seq<Segment>, values: seq<string>)
    requires WellFormed(segs) && Fillable(segs, values)
    ensures Fill(segs, values) != []
    ensures MatchSegments(segs, Fill(segs, values)) == Some(values)
    decreases |segs|, 1
  {
    match segs[0]
    case Literal(_) => FillMatchesLiteral(segs, values);
    case Param(_) => FillMatchesParam(segs, values);
    case Wildcard => FillMatchesWildcard(segs, values);
  }

  lemma {:induction false} FillMatchesLiteral(segs: seq<Segment>, values: seq<string>)
    requires WellFormed(segs) && Fillable(segs, values) && segs[0].Literal?
    ensures Fill(segs, values) != []
    ensures MatchSegments(segs, Fill(segs, values)) == Some(values)
    decreases |segs|, 0
  {
    var ps := Fill(segs, values);
    if |segs| > 1 {
      FillMatches(segs[1..], values);
      assert ps[1..] == Fill(segs[1..], values);
    } else {
      assert segs[1..] == [] && values == [];
      assert ps == [segs[0].text] + Fill([], values);
    }
  }

  lemma {:induction false} FillMatchesParam(segs: seq<Segment>, values: seq<string>)
    requires WellFormed(segs) && Fillable(segs, values) && segs[0].Param?
    ensures Fill(segs, values) != []
    ensures MatchSegments(segs, Fill(segs, values)) == Some(values)
    decreases |segs|, 0
  {
    var v, rest := values[0], values[1..];
    var first, more := UrlCodec.Encode(v), Fill(segs[1..], rest);
    SegmentRoundTrip(v);
    assert Fill(segs, values) == [first] + more;
    assert segs[1..] == [] ==> rest == [] && more == [];
    if |segs| > 1 { FillMatches(segs[1..], rest); }
    hide *;
    MatchParamFirst(segs, first, more);
    PrependBack(values);
  }

  lemma FillMatchesWildcard(segs: seq<Segment>, values: seq<string>)
    requires WellFormed(segs) && Fillable(segs, values) && segs[0].Wildcard?
    ensures Fill(segs, values) != []
    ensures MatchSegments(segs, Fill(segs, values)) == Some(values)
  {
    hide Split;
    assert segs[1..] == [] && values == [values[0]];
    SplitJoins(values[0]);
    assert Split(values[0]) + [] == Split(values[0]);
  }

  lemma SegmentRoundTrip(v: string)
    requires AllBytes(v) && |v| <= DECODE_CAP
    ensures (v != "" ==> UrlCodec.Encode(v) != "") && DecodeSegment(UrlCodec.Encode(v)) == v
  {
    EncodeHasNoSlash(v);
    PathDecodeInvertsEncode(v);
  }

  lemma PrependBack(values: seq<string>)
    requires values != []
    ensures Prepend(values[0], Some(values[1..])) == Some(values)
    ensures |values| == 1 ==> Some([values[0]]) == Some(values)
  {
    assert values == [values[0]] + values[1..];
    assert |values| == 1 ==> values == [values[0]];
  }

  lemma MatchParamFirst(segs: seq<Segment>, first: string, more: seq<string>)
    requires segs != [] && segs[0].Param? && (first != "" || more != []) && (|segs| == 1 <==> more == [])
    ensures MatchSegments(segs, [first] + more)
            == if |segs| == 1 then Some([DecodeSegment(first)]) else Prepend(DecodeSegment(first), MatchSegments(segs[1..], more))
  {
    assert ([first] + more)[1..] == more;
  }

  /** Reverse routing: the path written for some values is matched and gives them back. */
  lemma PathRoundTrip(segs: seq<Segment>, values: seq<string>)
    requires WellFormed(segs) && Fillable(segs, values)
    ensures Match(Pattern(segs), Path(Fill(segs, values))) == Some(values)
  {
    FillIsPath(segs, values);
    FillMatches(segs, values);
    MatchRefinesSegments(segs, Fill(segs, values));
  }
}
