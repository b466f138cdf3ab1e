/** parse_cookies: splitting a Cookie header value. */
module Cookies {
  import opened Bytes
  import Query

  function LeadingSpaces(s: string): (n: nat)
    ensures n <= |s| && (forall i :: 0 <= i < n ==> s[i] == ' ') && (n < |s| ==> s[n] != ' ')
  {
    if s != "" && s[0] == ' ' then 1 + LeadingSpaces(s[1..]) else 0
  }

  lemma {:induction false} LeadingSpacesIs(s: string, n: nat)
    requires n <= |s| && (forall i :: 0 <= i < n ==> s[i] == ' ') && (n < |s| ==> s[n] != ' ')
    ensures LeadingSpaces(s) == n
  {
    if n > 0 { LeadingSpacesIs(s[1..], n - 1); }
  }

  /** One token: spaces in front of the name and in front of the value are dropped, nothing is decoded. */
  function CookiePair(token: string): Pair {
    var t := token[LeadingSpaces(token)..];
    var (name, value) := Query.SplitPair(t);
    (name, value[LeadingSpaces(value)..])
  }

  function CookiePairs(tokens: seq<string>): (r: seq<Pair>)
    ensures |r| == |tokens| && forall i :: 0 <= i < |r| ==> r[i] == CookiePair(tokens[i])
  {
    seq(|tokens|, i requires 0 <= i < |tokens| => CookiePair(tokens[i]))
  }

  function ParseCookies(value: string): seq<Pair> {
    CookiePairs(Tokens(value, ";"))
  }

  // ---------------------------------------------------------------- the parser

  method SkipSpaces(s: string, from: nat) returns (end: nat)
    requires from <= |s|
    ensures from <= end <= |s| && end - from == LeadingSpaces(s[from..])
  {
    end := from;
    while end < |s| && s[end] == ' '
      invariant from <= end <= |s|
      invariant forall i :: from <= i < end ==> s[i] == ' '
    {
      end := end + 1;
    }
    LeadingSpacesIs(s[from..], end - from);
  }

  method TakeCookie(token: string) returns (pair: Pair)
    ensures pair == CookiePair(token)
  {
    hide LeadingSpaces, UpTo;
    assert token[0..] == token;
    var start := SkipSpaces(token, 0);
    var t := token[start..];
    var eq := UpTo(t, '=');
    var name, value := if eq < |t| then t[..eq] else t, if eq < |t| then t[eq + 1..] else "";
    assert value[0..] == value;
    var from := SkipSpaces(value, 0);
    return (name, value[from..]);
  }

  lemma CookieStep(done: seq<Pair>, token: string, rest: seq<string>)
    ensures done + CookiePairs([token] + rest) == (done + [CookiePair(token)]) + CookiePairs(rest)
  {
    assert CookiePairs([token] + rest) == [CookiePair(token)] + CookiePairs(rest);
    Assoc(done, [CookiePair(token)], CookiePairs(rest));
  }

  lemma CookiesDone(done: seq<Pair>)
    ensures done + CookiePairs([]) == done
  {
  }

  /** parse_cookies; the slots allocated, one for each ';' and one besides, are enough. */
  method ParseCookiesLoop(header: string) returns (pairs: seq<Pair>)
    ensures pairs == ParseCookies(header)
    ensures |pairs| <= 1 + Query.Count(header, ';')
  {
    hide Tokens, CookiePairs, CookiePair, Query.Count;
    Query.TokensAtMostSeparators(header, ';');
    pairs := [];
    assert header[0..] == header && [] + ParseCookies(header) == ParseCookies(header);
    var token, next := StrTok(header, 0, ";");
    while token.Some?
      invariant next <= |header|
      invariant ParseCookies(header)
                == pairs + CookiePairs(if token.Some? then [token.value] + Tokens(header[next..], ";") else [])
      decreases |header| - next, token.Some?
    {
      CookieStep(pairs, token.value, Tokens(header[next..], ";"));
      var pair := TakeCookie(token.value);
      pairs := pairs + [pair];
      token, next := StrTok(header, next, ";");
    }
    CookiesDone(pairs);
  }

  // ---------------------------------------------------------------- the round trip

  /** A cookie as it stands between two ';': blanks, a name, and perhaps '=', blanks and a value. */
  datatype RawCookie = RawCookie(lead: nat, name: string, gap: nat, value: Option<string>) {
    predicate Valid() {
      && ';' !in name && '=' !in name && (name != "" ==> name[0] != ' ')
      && (value.Some? ==> ';' !in value.value && (value.value != "" ==> value.value[0] != ' '))
      && (value.None? ==> name != "")
    }

    function Text(): string { Spaces(lead) + (name + if value.Some? then "=" + (Spaces(gap) + value.value) else "") }

    function Meaning(): Pair { (name, if value.Some? then value.value else "") }
  }

  function Spaces(n: nat): (s: string)
    ensures |s| == n && forall i :: 0 <= i < n ==> s[i] == ' '
  {
    seq(n, _ => ' ')
  }

  lemma PlainPart(s: string)
    ensures ';' !in s ==> DelimFree(s, ";")
  {
  }

  lemma SpacesSkipped(n: nat, u: string)
    requires u != "" ==> u[0] != ' '
    ensures LeadingSpaces(Spaces(n) + u) == n && (Spaces(n) + u)[n..] == u
  {
    hide LeadingSpaces;
    LeadingSpacesIs(Spaces(n) + u, n);
  }

  lemma CookieIsOneToken(c: RawCookie)
    requires c.Valid()
    ensures c.Text() != "" && DelimFree(c.Text(), ";")
  {
    hide DelimFree;
    PlainPart(Spaces(c.lead));
    PlainPart(c.name);
    PlainPart("");
    var behind := if c.value.Some? then "=" + (Spaces(c.gap) + c.value.value) else "";
    if c.value.Some? {
      PlainPart("=");
      PlainPart(Spaces(c.gap));
      PlainPart(c.value.value);
      DelimFreeConcat(Spaces(c.gap), c.value.value, ";");
      DelimFreeConcat("=", Spaces(c.gap) + c.value.value, ";");
    }
    DelimFreeConcat(c.name, behind, ";");
    DelimFreeConcat(Spaces(c.lead), c.name + behind, ";");
  }

  lemma CookieIsRead(c: RawCookie)
    requires c.Valid()
    ensures CookiePair(c.Text()) == c.Meaning()
  {
    hide LeadingSpaces, UpTo, Spaces, Query.SplitPair;
    var behind := if c.value.Some? then "=" + (Spaces(c.gap) + c.value.value) else "";
    var u := c.name + behind;
    assert u != "" && u[0] != ' ';
    SpacesSkipped(c.lead, u);
    NameIsCut(c.name, behind);
    if c.value.Some? {
      assert behind[1..] == Spaces(c.gap) + c.value.value;
      SpacesSkipped(c.gap, c.value.value);
    } else {
      NoSpaces();
    }
  }

  lemma NameIsCut(name: string, behind: string)
    requires '=' !in name && (behind == "" || behind[0] == '=')
    ensures Query.SplitPair(name + behind) == (name, if behind == "" then "" else behind[1..])
  {
    hide UpTo;
    var u := name + behind;
    UpToIs(u, '=', |name|);
    assert u[..|name|] == name;
    if behind != "" { assert u[|name| + 1..] == behind[1..]; } else { assert u == name; }
  }

  lemma NoSpaces()
    ensures LeadingSpaces("") == 0
  {
  }

  function CookieTexts(cs: seq<RawCookie>): (r: seq<string>)
    ensures |r| == |cs| && forall i :: 0 <= i < |r| ==> r[i] == cs[i].Text()
  {
    seq(|cs|, i requires 0 <= i < |cs| => cs[i].Text())
  }

  function Meanings(cs: seq<RawCookie>): (r: seq<Pair>)
    ensures |r| == |cs| && forall i :: 0 <= i < |r| ==> r[i] == cs[i].Meaning()
  {
    seq(|cs|, i requires 0 <= i < |cs| => cs[i].Meaning())
  }

  /** Cookies in any of these forms are read back, in order; a name without '=' has an empty value. */
  lemma CookiesExactly(cs: seq<RawCookie>)
    requires forall i :: 0 <= i < |cs| ==> cs[i].Valid()
    ensures ParseCookies(Join(CookieTexts(cs), ';')) == Meanings(cs)
  {
    hide CookiePair, RawCookie.Text, Tokens;
    var ts := CookieTexts(cs);
    forall i | 0 <= i < |cs|
      ensures ts[i] != "" && DelimFree(ts[i], ";") && CookiePair(ts[i]) == cs[i].Meaning()
    {
      CookieIsOneToken(cs[i]);
      CookieIsRead(cs[i]);
    }
    TokensOfJoin(ts, ';');
  }

  predicate ValidCookie(p: Pair) {
    && ';' !in p.0 && '=' !in p.0 && (p.0 != "" ==> p.0[0] != ' ')
    && ';' !in p.1 && (p.1 != "" ==> p.1[0] != ' ')
  }

  /** A Cookie header in the form of section 4.2.1 of RFC 6265: "n=v; n=v". */
  function CookieHeader(ps: seq<Pair>): string {
    Join(CookieTexts(AsClient(ps)), ';')
  }

  function AsClient(ps: seq<Pair>): seq<RawCookie> {
    seq(|ps|, i requires 0 <= i < |ps| => RawCookie(if i == 0 then 0 else 1, ps[i].0, 0, Some(ps[i].1)))
  }

  /** In particular cookies written as a client writes them. */
  lemma CookieRoundTrip(ps: seq<Pair>)
    requires forall i :: 0 <= i < |ps| ==> ValidCookie(ps[i])
    ensures ParseCookies(CookieHeader(ps)) == ps
  {
    hide ParseCookies;
    CookiesExactly(AsClient(ps));
    assert Meanings(AsClient(ps)) == ps;
  }
}
