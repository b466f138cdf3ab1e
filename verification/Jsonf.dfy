/** mnet_jsonfv: the printf-like renderer, over literals, %%, %s, %.Ns and %c. */
module Jsonf {
  import opened Bytes
  import Json
  import Utf8

  /** The arguments of the conversions; a %s argument may be NULL. */
  datatype Arg = Text(s: Option<string>) | Character(c: int)

  /** Failed is the 500 response; Other means that a conversion outside this model was reached. */
  datatype Rendered = Body(text: string) | Failed | Other

  function TextOf(a: Option<string>): string {
    if a.Some? then a.value else "(null)"
  }

  /** %c on an int argument.  A negative value goes through %04x as an unsigned int, of whose eight
      digits the first four are kept; a value above 255 loses its upper bits. */
  function CharacterText(c: int): (t: string)
    requires -0x8000_0000 <= c < 0x8000_0000
    ensures 1 <= |t| <= 6
  {
    if c == '"' as int then "\\\""
    else if c == '\\' as int then "\\\\"
    else if c == '\n' as int then "\\n"
    else if c == '\r' as int then "\\r"
    else if c == '\t' as int then "\\t"
    else if c == 0 then "\\u0000"
    else if c < 0x20 then
      "\\u" + (if c > 0 then HexFour(c) else HexFour((0x1_0000_0000 + c) / 0x1_0000))
    else [(c % 256) as char]
  }

  function HexFour(n: int): (t: string)
    requires 0 <= n < 0x1_0000
    ensures |t| == 4
  {
    [HexDigit(n / 4096), HexDigit(n / 256 % 16), HexDigit(n / 16 % 16), HexDigit(n % 16)]
  }

  function Emit(text: string, r: Rendered): Rendered {
    if r.Body? then Body(text + r.text) else r
  }

  // ---------------------------------------------------------------- formats

  /** What the format says next. */
  datatype Directive =
    | Literal(c: char)
    | Percent
    | Str
    | Prefix(precision: nat)
    | Chr
    | Reject      // lone '%' at the end, or "%*"
    | Foreign     // any other conversion

  /** The directive at the front of a non-empty format, and its length. */
  function Next(f: string): (r: (Directive, nat))
    requires f != ""
    ensures 1 <= r.1 <= |f|
  {
    if f[0] != '%' then (Literal(f[0]), 1)
    else if |f| == 1 || f[1] == '*' then (Reject, 1)
    else if f[1] == '%' then (Percent, 2)
    else if f[1] == '.' && 2 + Digits(f[2..]) < |f| && f[2 + Digits(f[2..])] == 's' then
      (Prefix(ValueOf(f[2..][..Digits(f[2..])])), 3 + Digits(f[2..]))
    else if f[1] == 's' then (Str, 2)
    else if f[1] == 'c' then (Chr, 2)
    else (Foreign, 1)
  }

  /** The format asks for arguments of the kinds that are there (anything else is undefined in C). */
  predicate ArgsFit(f: string, args: seq<Arg>)
    decreases |f|
  {
    if f == "" then true
    else
      var (d, n) := Next(f);
      match d
      case Literal(_) => ArgsFit(f[n..], args)
      case Percent => ArgsFit(f[n..], args)
      case Str => args != [] && args[0].Text? && ArgsFit(f[n..], args[1..])
      case Prefix(_) => args != [] && args[0].Text? && ArgsFit(f[n..], args[1..])
      case Chr => args != [] && args[0].Character? && CharacterFits(args[0].c) && ArgsFit(f[n..], args[1..])
      case Reject => true
      case Foreign => true
  }

  predicate CharacterFits(c: int) { -0x8000_0000 <= c < 0x8000_0000 }

  function PrefixText(s: string, precision: nat): string {
    Json.Escape(s[..Utf8.KeptLength(s, precision)])
  }

  function Render(f: string, args: seq<Arg>): Rendered
    requires ArgsFit(f, args)
    decreases |f|
  {
    if f == "" then Body("")
    else
      var (d, n) := Next(f);
      match d
      case Literal(c) => Emit([c], Render(f[n..], args))
      case Percent => Emit("%", Render(f[n..], args))
      case Str => Emit(Json.Escape(TextOf(args[0].s)), Render(f[n..], args[1..]))
      case Prefix(p) => Emit(PrefixText(TextOf(args[0].s), p), Render(f[n..], args[1..]))
      case Chr => Emit(CharacterText(args[0].c), Render(f[n..], args[1..]))
      case Reject => Failed
      case Foreign => Other
  }

  // ---------------------------------------------------------------- the renderer

  /** The doubling buffer: contents kept, room for `extra` more characters and the terminator. */
  method EnsureRoom(buf: array<char>, pos: nat, extra: nat) returns (grown: array<char>)
    requires pos < buf.Length
    ensures grown == buf || fresh(grown)
    ensures pos + extra + 1 < grown.Length && grown[..pos] == buf[..pos]
  {
    grown := buf;
    while pos + extra + 1 >= grown.Length
      invariant pos < grown.Length && grown[..pos] == buf[..pos]
      invariant grown == buf || fresh(grown)
      decreases pos + extra + 1 - grown.Length
    {
      grown := Doubled(grown, pos);
    }
  }

  /** realloc to twice the size. */
  method Doubled(buf: array<char>, pos: nat) returns (bigger: array<char>)
    requires pos < buf.Length
    ensures fresh(bigger) && bigger.Length == 2 * buf.Length && bigger[..pos] == buf[..pos]
  {
    bigger := new char[2 * buf.Length];
    for i := 0 to pos
      invariant bigger[..i] == buf[..i]
    {
      bigger[i] := buf[i];
    }
  }

  /** The escaped copy of a string argument, in a block of 6 * |s| + 1 characters. */
  method Escaped(s: string) returns (e: string)
    ensures e == Json.Escape(s)
  {
    var block := new char[6 * |s| + 1];
    var n := Json.EscapeInto(block, 6 * |s| + 1, s);
    Json.RoomForAll(s, 6 * |s|);
    e := block[..n];
  }

  lemma EmitTwice(a: string, b: string, r: Rendered)
    ensures Emit(a, Emit(b, r)) == Emit(a + b, r)
  {
    if r.Body? { Assoc(a, b, r.text); }
  }

  /** Appends text to the buffer, growing it first. */
  method Append(buf: array<char>, pos: nat, text: string) returns (grown: array<char>, end: nat)
    requires pos < buf.Length
    modifies buf
    ensures grown == buf || fresh(grown)
    ensures end == pos + |text| && end + 1 < grown.Length
    ensures grown[..end] == old(buf[..pos]) + text
  {
    grown := EnsureRoom(buf, pos, |text|);
    end := Json.PutAll(grown, pos, text, "");
  }

  predicate BytesFit(args: seq<Arg>) {
    forall i :: 0 <= i < |args| && args[i].Text? ==> AllBytes(TextOf(args[i].s))
  }

  /** The digits of a precision, and where they end. */
  method ScanPrecision(format: string, from: nat) returns (end: nat, precision: nat)
    requires from <= |format|
    ensures end == from + Digits(format[from..])
    ensures precision == ValueOf(format[from..][..Digits(format[from..])])
  {
    hide ValueOf;
    assert format[from..from] == "";
    NoDigits(format[from..from]);
    end, precision := from, 0;
    while end < |format| && IsDigit(format[end])
      invariant from <= end <= |format|
      invariant forall i :: from <= i < end ==> IsDigit(format[i])
      invariant precision == ValueOf(format[from..end])
    {
      OneMoreDigit(format, from, end);
      precision := precision * 10 + DigitValue(format[end]);
      end := end + 1;
    }
    DigitsIs(format[from..], end - from);
    assert format[from..][..end - from] == format[from..end];
  }

  lemma NoDigits(s: string)
    requires s == ""
    ensures ValueOf(s) == 0
  {
  }

  lemma OneMoreDigit(s: string, from: nat, end: nat)
    requires from <= end < |s| && forall i :: from <= i <= end ==> IsDigit(s[i])
    ensures ValueOf(s[from..end + 1]) == ValueOf(s[from..end]) * 10 + DigitValue(s[end])
  {
    assert s[from..end + 1][..end - from] == s[from..end];
  }

  /** The text one conversion produces. */
  method Convert(d: Directive, arg: Arg) returns (text: string)
    requires d.Str? || d.Prefix? ==> arg.Text? && AllBytes(TextOf(arg.s))
    requires d.Chr? ==> arg.Character? && CharacterFits(arg.c)
    requires d.Str? || d.Prefix? || d.Chr?
    ensures d.Str? ==> text == Json.Escape(TextOf(arg.s))
    ensures d.Prefix? ==> text == PrefixText(TextOf(arg.s), d.precision)
    ensures d.Chr? ==> text == CharacterText(arg.c)
  {
    match d
    case Chr => text := CharacterText(arg.c);
    case Str => text := Escaped(TextOf(arg.s));
    case Prefix(p) =>
      var n := Utf8.TruncateLoop(TextOf(arg.s), p);
      text := Escaped(TextOf(arg.s)[..n]);
  }

  /** The directive at position f, read character by character. */
  method ReadDirective(format: string, f: nat) returns (d: Directive, n: nat)
    requires f < |format|
    ensures (d, n) == Next(format[f..])
  {
    var rest := format[f..];
    if format[f] != '%' {
      return Literal(format[f]), 1;
    }
    if f + 1 == |format| {
      return Reject, 1;
    }
    assert rest[1] == format[f + 1];
    if format[f + 1] == '%' {
      return Percent, 2;
    }
    if format[f + 1] == '*' {
      return Reject, 1;
    }
    if format[f + 1] == '.' {
      var end, precision := ScanPrecision(format, f + 2);
      assert rest[2..] == format[f + 2..];
      if end < |format| && format[end] == 's' {
        return Prefix(precision), end + 1 - f;
      }
    }
    if format[f + 1] == 's' {
      return Str, 2;
    }
    if format[f + 1] == 'c' {
      return Chr, 2;
    }
    return Foreign, 1;
  }

  predicate TakesArgument(d: Directive) { d.Str? || d.Prefix? || d.Chr? }

  /** text is what the directive d produces from the arguments at hand. */
  predicate Produces(d: Directive, args: seq<Arg>, text: string)
    requires TakesArgument(d) ==> args != [] && (if d.Chr? then args[0].Character? && CharacterFits(args[0].c) else args[0].Text?)
  {
    match d
    case Literal(c) => text == [c]
    case Percent => text == "%"
    case Str => text == Json.Escape(TextOf(args[0].s))
    case Prefix(p) => text == PrefixText(TextOf(args[0].s), p)
    case Chr => text == CharacterText(args[0].c)
    case _ => false
  }

  function Rest(d: Directive, args: seq<Arg>): seq<Arg> {
    if TakesArgument(d) && args != [] then args[1..] else args
  }

  lemma RenderOne(f: string, args: seq<Arg>, text: string)
    requires f != "" && ArgsFit(f, args) && Produces(Next(f).0, args, text)
    ensures ArgsFit(f[Next(f).1..], Rest(Next(f).0, args))
    ensures Render(f, args) == Emit(text, Render(f[Next(f).1..], Rest(Next(f).0, args)))
  {
  }

  lemma RenderStep(format: string, f: nat, args: seq<Arg>, a: nat, done: string, text: string)
    requires f < |format| && a <= |args| && ArgsFit(format[f..], args[a..])
    requires TakesArgument(Next(format[f..]).0) ==> a < |args|
    requires Produces(Next(format[f..]).0, args[a..], text)
    ensures var (d, n) := Next(format[f..]);
            var a' := if TakesArgument(d) then a + 1 else a;
            && ArgsFit(format[f + n..], args[a'..])
            && Emit(done, Render(format[f..], args[a..])) == Emit(done + text, Render(format[f + n..], args[a'..]))
  {
    RenderOne(format[f..], args[a..], text);
    hide ArgsFit, Render, Next, Produces;
    var (d, n) := Next(format[f..]);
    var a' := if TakesArgument(d) then a + 1 else a;
    assert format[f..][n..] == format[f + n..];
    assert Rest(d, args[a..]) == args[a'..];
    EmitTwice(done, text, Render(format[f + n..], args[a'..]));
  }

  lemma ArgumentThere(f: string, args: seq<Arg>)
    requires f != "" && ArgsFit(f, args)
    ensures var d := Next(f).0;
            TakesArgument(d) ==> args != [] && (if d.Chr? then args[0].Character? && CharacterFits(args[0].c) else args[0].Text?)
  {
  }

  lemma RenderEnd(f: string, args: seq<Arg>, done: string)
    requires f == "" && ArgsFit(f, args)
    ensures Emit(done, Render(f, args)) == Body(done)
  {
    assert done + "" == done;
  }

  lemma RenderStops(f: string, args: seq<Arg>, done: string)
    requires f != "" && ArgsFit(f, args)
    ensures Next(f).0.Reject? ==> Emit(done, Render(f, args)) == Failed
    ensures Next(f).0.Foreign? ==> Emit(done, Render(f, args)) == Other
  {
  }

  method ProduceText(d: Directive, args: seq<Arg>, a: nat) returns (text: string)
    requires a <= |args| && BytesFit(args) && !d.Reject? && !d.Foreign?
    requires TakesArgument(d) ==> a < |args| && (if d.Chr? then args[a].Character? && CharacterFits(args[a].c) else args[a].Text?)
    ensures TakesArgument(d) ==> args[a..][0] == args[a]
    ensures Produces(d, args[a..], text)
  {
    if d.Literal? {
      text := [d.c];
    } else if d.Percent? {
      text := "%";
    } else {
      text := Convert(d, args[a]);
    }
  }

  /** mnet_jsonfv: one argument per conversion, and the concatenation of literals and escaped arguments. */
  method RenderLoop(format: string, args: seq<Arg>) returns (r: Rendered)
    requires ArgsFit(format, args) && BytesFit(args)
    ensures r == Render(format, args)
  {
    hide Render, ArgsFit, Next, Produces;
    var buf := new char[256];
    var pos: nat, f: nat, a: nat := 0, 0, 0;
    assert format[0..] == format && args[0..] == args;
    EmitNothing(Render(format, args));
    assert buf[..0] == "";
    while f < |format|
      invariant f <= |format| && a <= |args| && pos < buf.Length && fresh(buf)
      invariant ArgsFit(format[f..], args[a..])
      invariant Render(format, args) == Emit(buf[..pos], Render(format[f..], args[a..]))
    {
      var d, n := ReadDirective(format, f);
      RenderStops(format[f..], args[a..], buf[..pos]);
      if d.Reject? {
        return Failed;
      }
      if d.Foreign? {
        return Other;
      }
      ArgumentThere(format[f..], args[a..]);
      var text := ProduceText(d, args, a);
      RenderStep(format, f, args, a, buf[..pos], text);
      buf, pos := Append(buf, pos, text);
      f := f + n;
      a := if TakesArgument(d) then a + 1 else a;
    }
    buf[pos] := NUL;
    r := Body(buf[..pos]);
    RenderEnd(format[f..], args[a..], buf[..pos]);
  }

  lemma EmitNothing(r: Rendered)
    ensures Emit("", r) == r
  {
    if r.Body? { assert "" + r.text == r.text; }
  }

  // ---------------------------------------------------------------- what a rendering is

  /** A format as a list of pieces, with the arguments in place. */
  datatype Piece = Chars(c: char) | PercentSign | Value(s: Option<string>) | ValuePrefix(s: Option<string>, digits: string) | Char(code: int) {
    predicate Valid() {
      match this
      case Chars(c) => c != '%'
      case ValuePrefix(_, ds) => AllDigits(ds)
      case Char(c) => CharacterFits(c)
      case _ => true
    }

    function Spelling(): string {
      match this
      case Chars(c) => [c]
      case PercentSign => "%%"
      case Value(_) => "%s"
      case ValuePrefix(_, ds) => "%." + ds + "s"
      case Char(_) => "%c"
    }

    function Args(): seq<Arg> {
      match this
      case Value(s) => [Text(s)]
      case ValuePrefix(s, _) => [Text(s)]
      case Char(c) => [Character(c)]
      case _ => []
    }

    function Output(): string
      requires Valid()
    {
      match this
      case Chars(c) => [c]
      case PercentSign => "%"
      case Value(s) => Json.Escape(TextOf(s))
      case ValuePrefix(s, ds) => PrefixText(TextOf(s), ValueOf(ds))
      case Char(c) => CharacterText(c)
    }
  }

  predicate AllValid(ps: seq<Piece>) { forall i :: 0 <= i < |ps| ==> ps[i].Valid() }

  function Format(ps: seq<Piece>): string {
    if ps == [] then "" else ps[0].Spelling() + Format(ps[1..])
  }

  function Arguments(ps: seq<Piece>): seq<Arg> {
    if ps == [] then [] else ps[0].Args() + Arguments(ps[1..])
  }

  function Output(ps: seq<Piece>): string
    requires AllValid(ps)
  {
    if ps == [] then "" else ps[0].Output() + Output(ps[1..])
  }

  lemma NextOfPiece(p: Piece, rest: string)
    requires p.Valid()
    ensures var f := p.Spelling() + rest; Next(f).1 == |p.Spelling()| && f[Next(f).1..] == rest
    ensures Next(p.Spelling() + rest).0 ==
            match p
            case Chars(c) => Literal(c)
            case PercentSign => Percent
            case Value(_) => Str
            case ValuePrefix(_, ds) => Prefix(ValueOf(ds))
            case Char(_) => Chr
  {
    var f := p.Spelling() + rest;
    assert f[|p.Spelling()|..] == rest;
    if p.ValuePrefix? {
      var tail := f[2..];
      assert tail == p.digits + ("s" + rest);
      DigitsIs(tail, |p.digits|);
      assert tail[..|p.digits|] == p.digits;
    }
  }

  lemma PieceRenders(p: Piece, rest: string, args: seq<Arg>)
    requires p.Valid() && ArgsFit(rest, args)
    ensures ArgsFit(p.Spelling() + rest, p.Args() + args)
    ensures Render(p.Spelling() + rest, p.Args() + args) == Emit(p.Output(), Render(rest, args))
  {
    NextOfPiece(p, rest);
    assert (p.Args() + args)[|p.Args()|..] == args;
    if p.Args() == [] { assert p.Args() + args == args; }
  }

  /** Rendering a format is concatenating its literals and its escaped arguments, in order. */
  lemma {:induction false} RenderIsConcatenation(ps: seq<Piece>, more: seq<Arg>)
    requires AllValid(ps)
    ensures ArgsFit(Format(ps), Arguments(ps) + more)
    ensures Render(Format(ps), Arguments(ps) + more) == Body(Output(ps))
  {
    if ps != [] {
      RenderIsConcatenation(ps[1..], more);
      PieceRenders(ps[0], Format(ps[1..]), Arguments(ps[1..]) + more);
      Assoc(ps[0].Args(), Arguments(ps[1..]), more);
    }
  }

  /** Conversely every format that renders to a body is such a list of pieces. */
  lemma {:induction false} BodyHasPieces(f: string, args: seq<Arg>) returns (ps: seq<Piece>, more: seq<Arg>)
    requires ArgsFit(f, args) && Render(f, args).Body?
    ensures AllValid(ps) && Format(ps) == f && Arguments(ps) + more == args
    ensures Render(f, args) == Body(Output(ps))
    decreases |f|
  {
    if f == "" {
      ps, more := [], args;
    } else {
      hide Render, Next, ArgsFit;
      var p, rest, args' := FirstPiece(f, args);
      var tail;
      tail, more := BodyHasPieces(rest, args');
      ps := [p] + tail;
      assert ps[1..] == tail;
      Assoc(p.Args(), Arguments(tail), more);
    }
  }

  lemma FirstPiece(f: string, args: seq<Arg>) returns (p: Piece, rest: string, args': seq<Arg>)
    requires f != "" && ArgsFit(f, args) && Render(f, args).Body?
    ensures p.Valid() && p.Spelling() != "" && f == p.Spelling() + rest && args == p.Args() + args'
    ensures ArgsFit(rest, args') && Render(rest, args').Body?
    ensures Render(f, args) == Emit(p.Output(), Render(rest, args'))
  {
    p := PieceOf(f, args);
    rest, args' := f[Next(f).1..], args[|p.Args()|..];
    assert f == p.Spelling() + rest && args == p.Args() + args';
    PieceRenders(p, rest, args');
  }

  function PieceOf(f: string, args: seq<Arg>): (p: Piece)
    requires f != "" && ArgsFit(f, args) && !Next(f).0.Reject? && !Next(f).0.Foreign?
    ensures p.Valid() && p.Spelling() == f[..Next(f).1]
    ensures p.Args() == if TakesArgument(Next(f).0) then [args[0]] else []
    ensures ArgsFit(f[Next(f).1..], args[|p.Args()|..])
  {
    var (d, n) := Next(f);
    match d
    case Literal(c) => Chars(c)
    case Percent => PercentSign
    case Str => Value(args[0].s)
    case Prefix(_) =>
      var k := Digits(f[2..]);
      assert f[..n] == "%." + f[2..][..k] + "s";
      ValuePrefix(args[0].s, f[2..][..k])
    case Chr => Char(args[0].c)
  }

  // ---------------------------------------------------------------- what a JSON reader finds

  lemma {:induction false} OutputAppend(ps: seq<Piece>, qs: seq<Piece>)
    requires AllValid(ps) && AllValid(qs)
    ensures AllValid(ps + qs) && Output(ps + qs) == Output(ps) + Output(qs)
  {
    hide Piece.Output, Piece.Valid;
    assert forall i :: 0 <= i < |ps + qs| ==> (ps + qs)[i] == if i < |ps| then ps[i] else qs[i - |ps|];
    if ps == [] {
      assert [] + qs == qs;
    } else {
      OutputAppend(ps[1..], qs);
      Assoc(ps[0].Output(), Output(ps[1..]), Output(qs));
      assert (ps + qs)[0] == ps[0] && (ps + qs)[1..] == ps[1..] + qs;
    }
  }

  /** A conversion between quotation marks. */
  function Quoted(v: Piece): seq<Piece> { [Chars('"'), v, Chars('"')] }

  lemma QuotedOutput(v: Piece, post: seq<Piece>)
    requires v.Valid() && AllValid(post)
    ensures AllValid(Quoted(v) + post) && Output(Quoted(v) + post) == "\"" + v.Output() + "\"" + Output(post)
  {
    hide Piece.Output;
    var q := Chars('"');
    assert q.Output() == "\"" by { QuoteOutput(); }
    OutputAppend(Quoted(v), post);
    assert [q, v, q][1..] == [v, q] && [v, q][1..] == [q] && [q][1..] == [];
    assert Output([q]) == "\"" + "" && Output([v, q]) == v.Output() + Output([q]);
    assert Output(Quoted(v)) == "\"" + (v.Output() + ("\"" + ""));
    assert "\"" + (v.Output() + ("\"" + "")) + Output(post) == "\"" + v.Output() + "\"" + Output(post);
  }

  lemma QuoteOutput()
    ensures Chars('"').Output() == "\""
  {
  }

  /** Wherever it stands in a format, a string conversion between quotation marks is read back by a JSON
      lexer, and the rest of the body follows it: %s as the whole text, %.Ns as a beginning of at most N
      bytes, which for well-formed text is N bytes if the next one is ASCII and otherwise nothing.  A NULL
      argument is the text "(null)". */
  lemma StringIsReadBack(pre: seq<Piece>, v: Piece, post: seq<Piece>, more: seq<Arg>) returns (body: string, t: string, shown: string)
    requires AllValid(pre) && AllValid(post) && v.Valid() && (v.Value? || v.ValuePrefix?)
    ensures var ps := pre + (Quoted(v) + post);
            && AllValid(ps) && ArgsFit(Format(ps), Arguments(ps) + more)
            && Render(Format(ps), Arguments(ps) + more) == Body(body)
    ensures body == Output(pre) + t && Json.LexString(t) == Some((shown, Output(post)))
    ensures var text := if v.s.Some? then v.s.value else "(null)";
            && shown <= text
            && (v.Value? ==> shown == text)
            && (v.ValuePrefix? ==> |shown| <= ValueOf(v.digits))
            && (v.ValuePrefix? && Utf8.WellFormed(text) ==>
                  var n := ValueOf(v.digits);
                  |shown| == if n >= |text| then |text| else if text[n] as int < 0x80 then n else 0)
  {
    hide Render, ArgsFit, Format, Arguments, Utf8.KeptLength, Json.LexString, Json.Escape, Utf8.WellFormed;
    var text := TextOf(v.s);
    shown := if v.Value? then text else text[..Utf8.KeptLength(text, ValueOf(v.digits))];
    assert v.Output() == Json.Escape(shown);
    t := "\"" + Json.Escape(shown) + "\"" + Output(post);
    body := Output(pre) + t;
    QuotedOutput(v, post);
    OutputAppend(pre, Quoted(v) + post);
    RenderIsConcatenation(pre + (Quoted(v) + post), more);
    Json.EscapeRoundTrip(shown, Output(post));
    if v.ValuePrefix? && Utf8.WellFormed(text) { Utf8.TruncationExact(text, ValueOf(v.digits)); }
  }

  /** The same for %c and a byte. */
  lemma ByteIsReadBack(pre: seq<Piece>, c: int, post: seq<Piece>, more: seq<Arg>) returns (body: string, t: string)
    requires AllValid(pre) && AllValid(post) && 0 <= c < 256
    ensures var ps := pre + (Quoted(Char(c)) + post);
            && AllValid(ps) && ArgsFit(Format(ps), Arguments(ps) + more)
            && Render(Format(ps), Arguments(ps) + more) == Body(body)
    ensures body == Output(pre) + t && Json.LexString(t) == Some(([c as char], Output(post)))
  {
    hide Render, ArgsFit, Format, Arguments, Json.LexString, Json.Escape, CharacterText;
    var v := Char(c);
    EscapeOne(c);
    t := "\"" + Json.Escape([c as char]) + "\"" + Output(post);
    body := Output(pre) + t;
    QuotedOutput(v, post);
    OutputAppend(pre, Quoted(v) + post);
    RenderIsConcatenation(pre + (Quoted(v) + post), more);
    Json.EscapeRoundTrip([c as char], Output(post));
  }

  /** A '%' at the very end and "%*" make the whole rendering fail, whatever was rendered before. */
  lemma {:induction false} BadPercentFails(ps: seq<Piece>, tail: string, more: seq<Arg>)
    requires AllValid(ps) && (tail == "%" || "%*" <= tail)
    ensures ArgsFit(Format(ps) + tail, Arguments(ps) + more)
    ensures Render(Format(ps) + tail, Arguments(ps) + more) == Failed
  {
    hide Render, ArgsFit, Next;
    if ps == [] {
      assert Format(ps) + tail == tail && Arguments(ps) + more == more;
      RejectedAtOnce(tail, more);
    } else {
      BadPercentFails(ps[1..], tail, more);
      PieceRenders(ps[0], Format(ps[1..]) + tail, Arguments(ps[1..]) + more);
      Assoc(ps[0].Spelling(), Format(ps[1..]), tail);
      Assoc(ps[0].Args(), Arguments(ps[1..]), more);
    }
  }

  lemma RejectedAtOnce(tail: string, args: seq<Arg>)
    requires tail == "%" || "%*" <= tail
    ensures ArgsFit(tail, args) && Render(tail, args) == Failed
  {
  }

  // ---------------------------------------------------------------- %c

  predicate PlainInString(b: int) { 0x20 <= b && b != '"' as int && b != '\\' as int }

  /** Between quotes, %c yields a string holding just the byte c exactly when c is not negative and
      either fits a byte or its low byte needs no escape. */
  lemma CharacterRoundTripIff(c: int)
    requires CharacterFits(c)
    ensures Json.LexString("\"" + CharacterText(c) + "\"") == Some(([(c % 256) as char], ""))
            <==> 0 <= c && (c < 256 || PlainInString(c % 256))
  {
    if c < 0 {
      NegativeCharacter(c);
    } else if c < 256 {
      ByteCharacter(c);
    } else {
      WideCharacter(c);
    }
  }

  /** For a byte, %c is the escape of mnet_json_escape. */
  lemma EscapeOne(c: int)
    requires 0 <= c < 256
    ensures Json.Escape([c as char]) == CharacterText(c)
  {
    var s := [c as char];
    assert s[1..] == "" && Json.Escape(s) == Json.EscapeChar(s[0]) + "";
  }

  lemma ByteCharacter(c: int)
    requires 0 <= c < 256
    ensures Json.LexString("\"" + CharacterText(c) + "\"") == Some(([c as char], ""))
  {
    hide Json.LexString, Json.Escape, CharacterText;
    var s := [c as char];
    EscapeOne(c);
    Json.EscapeRoundTrip(s, "");
    assert "\"" + CharacterText(c) + "\"" == "\"" + Json.Escape(s) + "\"" + "";
  }

  lemma WideCharacter(c: int)
    requires 256 <= c && CharacterFits(c)
    ensures Json.LexString("\"" + CharacterText(c) + "\"") == Some(([(c % 256) as char], "")) <==> PlainInString(c % 256)
  {
    var t := [(c % 256) as char] + "\"";
    assert ("\"" + CharacterText(c) + "\"")[1..] == t;
    assert t[1..] == "\"" && "\""[1..] == "";
    assert Json.LexChars("\"") == Some(("", ""));
    assert [t[0]] + "" == [t[0]];
  }

  /** A negative argument becomes a \u escape of some code unit from 0x8000 on, never one byte. */
  lemma NegativeCharacter(c: int)
    requires CharacterFits(c) && c < 0
    ensures var r := Json.LexString("\"" + CharacterText(c) + "\"");
            r.Some? ==> |r.value.0| == 3
  {
    var u := (0x1_0000_0000 + c) / 0x1_0000;
    var t := CharacterText(c) + "\"";
    assert t == "\\u" + HexFour(u) + "\"";
    assert ("\"" + CharacterText(c) + "\"")[1..] == t;
    LexUnit(u, "");
    assert t == "\\u" + HexFour(u) + "\"" + "";
  }

  lemma HexFourReads(u: int, rest: string)
    requires 0 <= u < 0x1_0000
    ensures Json.Hex4(HexFour(u) + rest) == Some(u)
  {
    assert u / 256 == u / 4096 * 16 + u / 256 % 16;
    assert u / 16 == u / 256 * 16 + u / 16 % 16;
    assert u == u / 16 * 16 + u % 16;
    var t := HexFour(u) + rest;
    assert t[0] == HexDigit(u / 4096) && t[1] == HexDigit(u / 256 % 16) && t[2] == HexDigit(u / 16 % 16) && t[3] == HexDigit(u % 16);
  }

  lemma LexUnit(u: int, rest: string)
    requires 0x8000 <= u < 0x1_0000
    ensures var r := Json.LexChars("\\u" + HexFour(u) + "\"" + rest);
            r.Some? ==> |r.value.0| == 3
  {
    var t := "\\u" + HexFour(u) + "\"" + rest;
    assert t[2..] == HexFour(u) + ("\"" + rest);
    HexFourReads(u, "\"" + rest);
    assert t[6..] == "\"" + rest && t[6..][1..] == rest;
    assert Json.LexChars(t[6..]) == Some(("", rest));
  }
}
