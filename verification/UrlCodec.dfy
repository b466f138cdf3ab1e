/** mnet_url_decode_ex and mnet_url_decode: application/x-www-form-urlencoded decoding, possibly in place. */
module UrlCodec {
  import opened Bytes

  // ---------------------------------------------------------------- what an encoded string is

  /** One unit of encoded text. */
  datatype Piece = Plain(c: char) | Plus | Escape(hi: char, lo: char) {
    predicate Valid() {
      match this
      case Plain(c) => c != '%' && c != '+' && c != NUL
      case Plus => true
      case Escape(hi, lo) => IsHex(hi) && IsHex(lo) && HexPair(hi, lo) != NUL
    }

    function Spelling(): string {
      match this
      case Plain(c) => [c]
      case Plus => "+"
      case Escape(hi, lo) => ['%', hi, lo]
    }

    function Meaning(): char
      requires Valid()
    {
      match this
      case Plain(c) => c
      case Plus => ' '
      case Escape(hi, lo) => HexPair(hi, lo)
    }
  }

  predicate AllValid(ps: seq<Piece>) { forall i :: 0 <= i < |ps| ==> ps[i].Valid() }

  function Spell(ps: seq<Piece>): string {
    if ps == [] then "" else ps[0].Spelling() + Spell(ps[1..])
  }

  function Read(ps: seq<Piece>): string
    requires AllValid(ps)
  {
    if ps == [] then "" else [ps[0].Meaning()] + Read(ps[1..])
  }

  // ---------------------------------------------------------------- the decoder

  function Cons(c: char, r: Option<string>): Option<string> {
    if r.Some? && c != NUL then Some([c] + r.value) else None
  }

  /** What mnet_url_decode_ex yields when there is room. */
  function Decode(s: string): (r: Option<string>)
    ensures r.Some? ==> |r.value| <= |s| && NulFree(r.value)
  {
    if s == "" then Some("")
    else if s[0] == '%' then
      if |s| < 3 || !IsHex(s[1]) || !IsHex(s[2]) then None
      else Cons(HexPair(s[1], s[2]), Decode(s[3..]))
    else Cons(if s[0] == '+' then ' ' else s[0], Decode(s[1..]))
  }

  lemma {:induction false} DecodeOfSpelling(ps: seq<Piece>)
    requires AllValid(ps)
    ensures Decode(Spell(ps)) == Some(Read(ps))
  {
    if ps != [] {
      DecodeOfSpelling(ps[1..]);
      var p, s := ps[0], Spell(ps);
      assert p.Valid();
      assert s[|p.Spelling()|..] == Spell(ps[1..]);
    }
  }

  lemma {:induction false} SpellingOfDecodable(s: string) returns (ps: seq<Piece>)
    requires Decode(s).Some?
    ensures AllValid(ps) && Spell(ps) == s && Read(ps) == Decode(s).value
  {
    if s == "" {
      ps := [];
    } else {
      var p := if s[0] == '%' then Escape(s[1], s[2]) else if s[0] == '+' then Plus else Plain(s[0]);
      var n := |p.Spelling()|;
      var rest := SpellingOfDecodable(s[n..]);
      ps := [p] + rest;
      assert ps[1..] == rest;
      assert s == p.Spelling() + s[n..];
    }
  }

  /** The decoder accepts exactly the encoded strings, and returns what they mean: it fails exactly
      on a truncated or malformed escape and on a NUL. */
  lemma DecodesExactlyTheEncodings(t: string, s: string)
    ensures Decode(t) == Some(s) <==> exists ps :: AllValid(ps) && Spell(ps) == t && Read(ps) == s
  {
    if Decode(t) == Some(s) {
      var ps := SpellingOfDecodable(t);
      assert AllValid(ps) && Spell(ps) == t && Read(ps) == s;
    }
    if exists ps :: AllValid(ps) && Spell(ps) == t && Read(ps) == s {
      var ps :| AllValid(ps) && Spell(ps) == t && Read(ps) == s;
      DecodeOfSpelling(ps);
    }
  }

  // ---------------------------------------------------------------- percent-encoding

  /** The unreserved characters of section 2.3 of RFC 3986. */
  predicate Unreserved(c: char) {
    'a' <= c <= 'z' || 'A' <= c <= 'Z' || '0' <= c <= '9' || c in "-._~"
  }

  function EncodeChar(c: char): (p: Piece)
    requires c as int < 256
    ensures c != NUL ==> p.Valid() && p.Meaning() == c
    ensures '&' !in p.Spelling() && '=' !in p.Spelling()
  {
    if Unreserved(c) then Plain(c) else Escape(HexDigit(c as int / 16), HexDigit(c as int % 16))
  }

  /** Percent-encoding, section 2.1 of RFC 3986. */
  function Encode(s: string): (t: string)
    requires AllBytes(s)
  {
    if s == "" then "" else EncodeChar(s[0]).Spelling() + Encode(s[1..])
  }

  function EncodePieces(s: string): (ps: seq<Piece>)
    requires AllBytes(s) && NulFree(s)
    ensures AllValid(ps) && Spell(ps) == Encode(s) && Read(ps) == s
  {
    if s == "" then [] else
      var rest := EncodePieces(s[1..]);
      var ps := [EncodeChar(s[0])] + rest;
      assert ps[1..] == rest;
      ps
  }

  lemma {:induction false} EncodeHasNoSeparators(s: string)
    requires AllBytes(s)
    ensures '&' !in Encode(s) && '=' !in Encode(s)
  {
    if s != "" {
      EncodeHasNoSeparators(s[1..]);
      var p := EncodeChar(s[0]).Spelling();
    }
  }

  /** Decoding inverts percent-encoding. */
  lemma DecodeInvertsEncode(s: string)
    requires AllBytes(s) && NulFree(s)
    ensures Decode(Encode(s)) == Some(s)
  {
    DecodeOfSpelling(EncodePieces(s));
  }

  // ---------------------------------------------------------------- the in-place routine

  /** Decoding resumed after the prefix `done`. */
  function After(done: string, r: Option<string>): Option<string> {
    if r.Some? then Some(done + r.value) else None
  }

  lemma AfterOne(done: string, c: char, r: Option<string>)
    requires c != NUL
    ensures After(done, Cons(c, r)) == After(done + [c], r)
  {
    if r.Some? { assert done + ([c] + r.value) == (done + [c]) + r.value; }
  }

  lemma AfterNone(r: Option<string>)
    ensures After("", r) == r
  {
    if r.Some? { assert "" + r.value == r.value; }
  }

  lemma AfterAll(done: string, s: string)
    requires s == ""
    ensures After(done, Decode(s)) == Some(done)
  {
    assert done + "" == done;
  }

  predicate GoodEscape(s: string, i: nat) {
    i + 2 < |s| && IsHex(s[i + 1]) && IsHex(s[i + 2])
  }

  lemma DecodeAt(s: string, i: nat)
    requires i < |s|
    ensures s[i] == '%' && !GoodEscape(s, i) ==> Decode(s[i..]) == None
    ensures s[i] == '%' && GoodEscape(s, i) ==> Decode(s[i..]) == Cons(HexPair(s[i + 1], s[i + 2]), Decode(s[i + 3..]))
    ensures s[i] != '%' ==> Decode(s[i..]) == Cons(if s[i] == '+' then ' ' else s[i], Decode(s[i + 1..]))
  {
    assert s[i..][0] == s[i] && s[i..][1..] == s[i + 1..];
    if i + 2 < |s| {
      assert s[i..][1] == s[i + 1] && s[i..][2] == s[i + 2] && s[i..][3..] == s[i + 3..];
    }
  }

  /** mnet_url_decode_ex.  src and dst may be the same array. */
  method DecodeEx(src: array<char>, srcLen: nat, dst: array<char>, dstSize: nat) returns (n: int)
    requires srcLen <= src.Length && dstSize <= dst.Length
    modifies dst
    ensures var d := Decode(old(src[..srcLen]));
            if d.Some? && |d.value| < dstSize
            then n == |d.value| && dst[..n] == d.value && dst[n] == NUL
            else n == -1
    ensures n >= 0 ==> forall k :: n < k < dst.Length ==> dst[k] == old(dst[k])
    ensures forall k :: dstSize <= k < dst.Length ==> dst[k] == old(dst[k])
  {
    hide Decode;
    if dstSize == 0 {
      return -1;
    }
    ghost var text := src[..srcLen];
    var i, pos := 0, 0;
    assert text[0..] == text;
    AfterNone(Decode(text));
    assert dst[..0] == "";
    while i < srcLen
      invariant i <= srcLen && pos <= i && pos < dstSize
      invariant forall k :: i <= k < srcLen ==> src[k] == text[k]
      invariant forall k :: pos <= k < dst.Length ==> dst[k] == old(dst[k])
      invariant Decode(text) == After(dst[..pos], Decode(text[i..]))
    {
      DecodeAt(text, i);
      var out := src[i];
      var width := 1;
      if out == '%' {
        if i + 2 >= srcLen {
          return -1;
        }
        if !IsHex(src[i + 1]) || !IsHex(src[i + 2]) {
          return -1;
        }
        out := HexPair(src[i + 1], src[i + 2]);
        width := 3;
      } else if out == '+' {
        out := ' ';
      }
      if out == NUL {
        return -1;
      }
      AfterOne(dst[..pos], out, Decode(text[i + width..]));
      if pos + 1 >= dstSize {
        return -1;
      }
      ghost var before := dst[..pos];
      dst[pos] := out;
      assert dst[..pos + 1] == before + [out];
      pos := pos + 1;
      i := i + width;
    }
    AfterAll(dst[..pos], text[i..]);
    dst[pos] := NUL;
    return pos;
  }

  /** mnet_url_decode: a string that does not decode, or does not fit, becomes the empty string. */
  function DecodeOrEmpty(s: string): string {
    var d := Decode(s);
    if d.Some? then d.value else ""
  }

  /** mnet_url_decode(buf, strlen(buf) + 1, buf), as parse_query_string calls it on a fresh copy of s. */
  method DecodeCopy(s: string) returns (r: string)
    requires NulFree(s)
    ensures r == DecodeOrEmpty(s)
  {
    var buf := new char[|s| + 1](i requires 0 <= i <= |s| => if i < |s| then s[i] else NUL);
    assert buf[..|s|] == s;
    var n := DecodeEx(buf, |s|, buf, |s| + 1);
    if n < 0 {
      buf[0] := NUL;
      n := 0;
    }
    r := buf[..n];
  }
}
