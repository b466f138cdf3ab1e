/** Well-formed UTF-8 and the truncation that mnet_jsonfv applies for %.Ns. */
module Utf8 {
  import opened Bytes

  predicate Continuation(c: char) { 0x80 <= c as int < 0xC0 }

  /** How long the character is that starts with this byte (section 4 of RFC 3629), 0 if none does. */
  function LeadLength(c: char): (n: nat)
    ensures n <= 4
  {
    var b := c as int;
    if b < 0x80 then 1
    else if 0xC2 <= b <= 0xDF then 2
    else if 0xE0 <= b <= 0xEF then 3
    else if 0xF0 <= b <= 0xF4 then 4
    else 0
  }

  /** The range of the second byte narrows for four lead bytes. */
  predicate SecondByteFits(lead: char, second: char) {
    var a, b := lead as int, second as int;
    && (a == 0xE0 ==> 0xA0 <= b)
    && (a == 0xED ==> b <= 0x9F)
    && (a == 0xF0 ==> 0x90 <= b)
    && (a == 0xF4 ==> b <= 0x8F)
  }

  predicate StartsWithChar(s: string) {
    && s != ""
    && 1 <= LeadLength(s[0]) <= |s|
    && (forall i :: 1 <= i < LeadLength(s[0]) ==> Continuation(s[i]))
    && (LeadLength(s[0]) > 1 ==> SecondByteFits(s[0], s[1]))
  }

  predicate WellFormed(s: string)
    decreases |s|
  {
    s == "" || (StartsWithChar(s) && WellFormed(s[LeadLength(s[0])..]))
  }

  // ---------------------------------------------------------------- truncation

  /** The first byte at or before i that is not a continuation byte, or 0. */
  function BackUp(s: string, i: nat): (t: nat)
    requires i < |s|
    ensures t <= i && (t == 0 || !Continuation(s[t]))
    ensures forall k :: t < k <= i ==> Continuation(s[k])
  {
    if i > 0 && Continuation(s[i]) then BackUp(s, i - 1) else i
  }

  /** The lead-byte masks of mnet_jsonfv: 110xxxxx, 1110xxxx, 11110xxx. */
  function MaskLength(c: char): nat {
    var b := c as int;
    if 0xC0 <= b < 0xE0 then 2
    else if 0xE0 <= b < 0xF0 then 3
    else if 0xF0 <= b < 0xF8 then 4
    else 0
  }

  /** How many bytes of s %.Ns keeps. */
  function KeptLength(s: string, precision: nat): (n: nat)
    ensures n <= |s| && n <= precision
  {
    if precision >= |s| then |s|
    else
      var t := BackUp(s, precision);
      if t > 0 && s[t] as int >= 0x80 && MaskLength(s[t]) > 0 && t + MaskLength(s[t]) > precision then 0 else t
  }

  method TruncateLoop(s: string, precision: nat) returns (n: nat)
    requires AllBytes(s)
    ensures n == KeptLength(s, precision)
  {
    n := |s|;
    if precision < |s| {
      var trunc := precision;
      while trunc > 0 && Continuation(s[trunc])
        invariant 0 <= trunc <= precision && BackUp(s, trunc) == BackUp(s, precision)
      {
        trunc := trunc - 1;
      }
      if trunc > 0 && s[trunc] as int >= 0x80 {
        var seqLen := MaskLength(s[trunc]);
        if seqLen > 0 && trunc + seqLen > precision {
          trunc := 0;
        }
      }
      n := trunc;
    }
  }

  // ---------------------------------------------------------------- what is kept

  /** In well-formed text a byte that is not a continuation byte starts a character. */
  lemma {:induction false} Boundary(s: string, i: nat)
    requires WellFormed(s) && i <= |s| && (i < |s| ==> !Continuation(s[i]))
    ensures WellFormed(s[..i]) && WellFormed(s[i..])
    decreases |s|
  {
    if i == 0 {
      assert s[0..] == s;
    } else {
      hide SecondByteFits;
      var n := LeadLength(s[0]);
      assert n <= i;
      Boundary(s[n..], i - n);
      assert s[n..][i - n..] == s[i..];
      FirstKept(s, i);
    }
  }

  /** A prefix that holds the first character starts with it and goes on like the text. */
  lemma FirstKept(s: string, i: nat)
    requires s != "" && StartsWithChar(s) && LeadLength(s[0]) <= i <= |s|
    ensures s[..i] != "" && StartsWithChar(s[..i]) && LeadLength(s[..i][0]) == LeadLength(s[0])
    ensures s[..i][LeadLength(s[0])..] == s[LeadLength(s[0])..][..i - LeadLength(s[0])]
  {
    assert forall k :: 0 <= k < i ==> s[..i][k] == s[k];
  }

  /** A well-formed prefix ends at a character boundary. */
  lemma {:induction false} PrefixEndsAtBoundary(s: string, i: nat)
    requires WellFormed(s) && i < |s| && WellFormed(s[..i])
    ensures !Continuation(s[i])
    decreases |s|
  {
    if i > 0 {
      var n := LeadLength(s[0]);
      assert s[..i][0] == s[0];
      assert s[..i][n..] == s[n..][..i - n];
      PrefixEndsAtBoundary(s[n..], i - n);
    }
  }

  lemma LeadOfBoundary(s: string, i: nat)
    requires WellFormed(s) && i < |s| && !Continuation(s[i])
    ensures LeadLength(s[i]) >= 1 && i + LeadLength(s[i]) <= |s|
    ensures i + LeadLength(s[i]) < |s| ==> !Continuation(s[i + LeadLength(s[i])])
  {
    Boundary(s, i);
    var t := s[i..];
    var n := LeadLength(s[i]);
    assert t[0] == s[i];
    if n < |t| {
      assert StartsWithChar(t[n..]) && t[n..][0] == s[i + n];
    }
  }

  /** The first n bytes are a longest well-formed prefix of at most `precision` bytes. */
  ghost predicate LongestPrefix(s: string, precision: nat, n: nat) {
    && n <= |s| && n <= precision && WellFormed(s[..n])
    && forall m: nat :: m <= |s| && m <= precision && WellFormed(s[..m]) ==> m <= n
  }

  /** Exactly what %.Ns keeps of well-formed text: N bytes if the next one is ASCII, else nothing. */
  lemma TruncationExact(s: string, precision: nat)
    requires WellFormed(s)
    ensures KeptLength(s, precision)
            == if precision >= |s| then |s| else if s[precision] as int < 0x80 then precision else 0
    ensures WellFormed(s[..KeptLength(s, precision)])
  {
    if precision >= |s| {
      assert s[..|s|] == s;
    } else {
      var t := BackUp(s, precision);
      if t == 0 {
        assert s[..0] == "";
        if s[precision] as int < 0x80 { assert t == precision; }
      } else {
        LeadOfBoundary(s, t);
        Boundary(s, t);
      }
    }
  }

  lemma FirstCharFits(s: string, m: nat)
    requires 0 < m <= |s| && WellFormed(s[..m])
    ensures LeadLength(s[0]) <= m
  {
    assert s[..m][0] == s[0];
  }

  /** Backing up to the start of the cut character would keep the longest well-formed prefix; the
      code does so exactly when the text fits, the next byte is ASCII, or not even the first
      character fits. */
  lemma KeepsLongestPrefixIff(s: string, precision: nat)
    requires WellFormed(s) && s != ""
    ensures LongestPrefix(s, precision, KeptLength(s, precision))
            <==> |s| <= precision || s[precision] as int < 0x80 || precision < LeadLength(s[0])
  {
    TruncationExact(s, precision);
    var n := LeadLength(s[0]);
    assert s[..n][n..] == "" && s[..n][0] == s[0];
    assert WellFormed(s[..n]);
    if precision < n {
      forall m: nat | m <= |s| && m <= precision && WellFormed(s[..m])
        ensures m == 0
      {
        if m > 0 { FirstCharFits(s, m); }
      }
    }
  }

  /** A text and a precision for which a whole character is lost: "a" followed by U+00E9, cut at 1. */
  lemma LosesWholeCharacter()
    ensures var s := ['a', 0xC3 as char, 0xA9 as char];
            WellFormed(s) && KeptLength(s, 1) == 0 && WellFormed(s[..1])
  {
    var s := ['a', 0xC3 as char, 0xA9 as char];
    assert s[1..] == [0xC3 as char, 0xA9 as char];
    assert s[1..][2..] == "" && WellFormed(s[1..]);
    assert s[..1] == ['a'] && s[..1][1..] == "";
    assert BackUp(s, 1) == 1;
  }
}
