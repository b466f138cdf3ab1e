/** The imperative side of routing: the two-cursor loop of mnet_route_match with its malloc'd values,
    mnet_find_route, and the route table that mnet_add_route grows. */
module Routes {
  import opened Bytes
  import opened Router

  // ---------------------------------------------------------------- the C heap

  type Handle = nat

  /** malloc'd strings by address.  Free demands a live address, so a double free cannot verify. */
  class Heap {
    var cells: map<Handle, string>
    var next: Handle
    var exhausted: bool   // some malloc has returned NULL

    ghost predicate Valid()
      reads this
    {
      forall h :: h in cells ==> h < next
    }

    constructor ()
      ensures Valid() && cells == map[] && !exhausted
    {
      cells, next, exhausted := map[], 0, false;
    }

    /** malloc followed by filling the block with s. */
    method Alloc(s: string) returns (h: Option<Handle>)
      requires Valid()
      modifies this
      ensures Valid()
      ensures h.None? ==> cells == old(cells) && next == old(next) && exhausted
      ensures h.Some? ==> h.value == old(next) && next == old(next) + 1
      ensures h.Some? ==> cells == old(cells)[h.value := s] && exhausted == old(exhausted)
    {
      var granted: bool := *;
      if granted {
        h := Some(next);
        cells := cells[next := s];
        next := next + 1;
      } else {
        h := None;
        exhausted := true;
      }
    }

    method Free(h: Option<Handle>)
      requires Valid() && (h.Some? ==> h.value in cells)
      modifies this`cells
      ensures Valid()
      ensures cells == if h.Some? then old(cells) - {h.value} else old(cells)
    {
      if h.Some? {
        cells := cells - {h.value};
      }
    }
  }

  /** out[..n] holds consecutive addresses from `base` on whose contents are `values`; they are live
      besides what was live `before`, and nothing else is. */
  ghost predicate Owned(cells: map<Handle, string>, before: map<Handle, string>, out: seq<Option<Handle>>,
                        values: seq<string>, base: Handle) {
    && Kept(cells, before, base)
    && (forall h :: h in cells ==> h in before || base <= h < base + |values|)
    && Filled(cells, out, values, base)
  }

  predicate Kept(cells: map<Handle, string>, before: map<Handle, string>, base: Handle) {
    forall h :: h in before ==> h < base && h in cells && cells[h] == before[h]
  }

  predicate Filled(cells: map<Handle, string>, out: seq<Option<Handle>>, values: seq<string>, base: Handle) {
    |values| <= |out| && forall k :: 0 <= k < |values| ==> SlotHolds(cells, out[k], base + k, values[k])
  }

  predicate SlotHolds(cells: map<Handle, string>, slot: Option<Handle>, h: Handle, v: string) {
    slot == Some(h) && h in cells && cells[h] == v
  }

  /** mnet_match_params_free: releases the first `count` values; one that malloc refused is NULL. */
  method MatchParamsFree(heap: Heap, out: array<Option<Handle>>, count: nat, ghost before: map<Handle, string>,
                         ghost values: seq<string>, ghost base: Handle)
    requires heap.Valid() && |values| <= count <= out.Length
    requires Owned(heap.cells, before, out[..], values, base)
    requires forall k :: |values| <= k < count ==> out[k] == None
    modifies heap`cells
    ensures heap.Valid() && heap.cells == before
  {
    ghost var all := heap.cells;
    for i := 0 to count
      invariant heap.Valid()
      invariant forall h :: h in heap.cells <==> h in all && !(base <= h < base + Min(i, |values|))
      invariant forall h :: h in heap.cells ==> heap.cells[h] == all[h]
    {
      assert i < |values| ==> out[..][i] == Some(base + i);
      heap.Free(out[i]);
    }
  }

  /** The path segment before the next '/', and whether there is one. */
  method SegmentEnd(s: string, from: nat) returns (end: nat)
    requires from <= |s|
    ensures from <= end <= |s| && end - from == UpTo(s[from..], '/')
  {
    end := from;
    while end < |s| && s[end] != '/'
      invariant from <= end <= |s|
      invariant forall k :: from <= k < end ==> s[k] != '/'
    {
      end := end + 1;
    }
    UpToIs(s[from..], '/', end - from);
  }

  /** The decoding loop of a path parameter, with its 4096-byte buffer. */
  method DecodeLoop(value: string) returns (decoded: string)
    ensures decoded == DecodeSegment(value)
  {
    hide PathDecode, DecodeSegment;
    var buf := new char[DECODE_CAP + 1];
    var si, di := 0, 0;
    ghost var done := "";
    assert value[0..] == value && done + PathDecode(value) == PathDecode(value);
    while si < |value| && di < DECODE_CAP
      invariant si <= |value| && di <= DECODE_CAP
      invariant buf[..di] == done && PathDecode(value) == done + PathDecode(value[si..])
    {
      var c, width := value[si], 1;
      if EscapeAt(value, si) {
        c := HexPair(value[si + 1], value[si + 2]);
        width := 3;
      }
      DecodeTurn(value, si, done, c, width);
      buf[di] := c;
      assert buf[..di + 1] == done + [c];
      done := done + [c];
      di := di + 1;
      si := si + width;
    }
    DecodedAll(value, si, done);
    decoded := buf[..di];
  }

  lemma DecodedAll(value: string, si: nat, done: string)
    requires si <= |value| && PathDecode(value) == done + PathDecode(value[si..])
    requires |done| == DECODE_CAP || (si == |value| && |done| < DECODE_CAP)
    ensures done == DecodeSegment(value)
  {
    assert PathDecode("") == "";
    assert PathDecode(value)[..|done|] == done;
  }

  predicate EscapeAt(s: string, i: nat)
    requires i < |s|
  {
    s[i] == '%' && i + 2 < |s| && IsHex(s[i + 1]) && IsHex(s[i + 2])
  }

  lemma DecodeTurn(s: string, i: nat, done: string, c: char, width: nat)
    requires i < |s|
    requires if EscapeAt(s, i) then width == 3 && c == HexPair(s[i + 1], s[i + 2]) else width == 1 && c == s[i]
    ensures done + PathDecode(s[i..]) == (done + [c]) + PathDecode(s[i + width..])
  {
    assert s[i..][0] == s[i] && s[i..][width..] == s[i + width..];
    if i + 2 < |s| { assert s[i..][1] == s[i + 1] && s[i..][2] == s[i + 2]; }
    Assoc(done, [c], PathDecode(s[i + width..]));
  }

  // ---------------------------------------------------------------- mnet_route_match

  /** The scan from the cursors, given what the values captured so far make of it. */
  function Resume(values: seq<string>, r: Option<seq<string>>): Option<seq<string>> {
    if r.Some? then Some(values + r.value) else None
  }

  lemma ResumeOne(values: seq<string>, v: string, r: Option<seq<string>>)
    ensures Resume(values, Prepend(v, r)) == Resume(values + [v], r)
  {
    if r.Some? { Assoc(values, [v], r.value); }
  }

  lemma ResumeNone(r: Option<seq<string>>)
    ensures Resume([], r) == r
  {
    if r.Some? { assert [] + r.value == r.value; }
  }

  /** The values that have a slot: mnet_route_match counts the others without storing them. */
  function Stored(values: seq<string>, maxValues: nat): seq<string> {
    values[..Min(|values|, maxValues)]
  }

  /** Stores one captured value in slot n if there is one; on allocation failure releases all of them. */
  method Capture(heap: Heap, out: array<Option<Handle>>, maxValues: nat, n: nat, v: string, ghost before: map<Handle, string>,
                 ghost values: seq<string>, ghost base: Handle) returns (ok: bool)
    requires heap.Valid() && n == |values| && maxValues <= out.Length && heap.next == base + Min(n, maxValues)
    requires Owned(heap.cells, before, out[..], Stored(values, maxValues), base)
    modifies heap, out
    ensures heap.Valid()
    ensures ok ==> heap.next == base + Min(n + 1, maxValues) && heap.exhausted == old(heap.exhausted)
    ensures ok ==> Owned(heap.cells, before, out[..], Stored(values + [v], maxValues), base)
    ensures !ok ==> heap.exhausted && heap.cells == before && heap.next == old(heap.next)
  {
    if n >= maxValues {
      assert Stored(values + [v], maxValues) == Stored(values, maxValues);
      return true;
    }
    assert Stored(values, maxValues) == values && Stored(values + [v], maxValues) == values + [v];
    ghost var was, cells := out[..], heap.cells;
    var h := heap.Alloc(v);
    ok := h.Some?;
    out[n] := h;
    assert out[..] == was[n := h];
    OwnedWrite(cells, before, was, values, base, v, h);
    if !ok {
      assert forall k :: n <= k < n + 1 ==> out[k] == None;
      MatchParamsFree(heap, out, n + 1, before, values, base);
    }
  }

  lemma OwnedWrite(cells: map<Handle, string>, before: map<Handle, string>, out: seq<Option<Handle>>, values: seq<string>,
                   base: Handle, v: string, h: Option<Handle>)
    requires Owned(cells, before, out, values, base) && |values| < |out|
    ensures Owned(cells, before, out[|values| := h], values, base)
    ensures h == Some(base + |values|) ==>
              Owned(cells[base + |values| := v], before, out[|values| := h], values + [v], base)
  {
    var n, out' := |values|, out[|values| := h];
    forall k | 0 <= k < n
      ensures SlotHolds(cells, out'[k], base + k, values[k])
    {
      assert SlotHolds(cells, out[k], base + k, values[k]);
    }
    if h == Some(base + n) {
      var cells', values' := cells[base + n := v], values + [v];
      forall k | 0 <= k < n + 1
        ensures SlotHolds(cells', out'[k], base + k, values'[k])
      {
        if k < n { assert SlotHolds(cells, out'[k], base + k, values[k]); }
      }
    }
  }

  lemma ScanPlain(pattern: string, ppos: nat, path: string, rpos: nat)
    requires ppos < |pattern| && rpos < |path| && pattern[ppos] != '*' && pattern[ppos] != ':'
    ensures Scan(pattern[ppos..], path[rpos..])
            == if pattern[ppos] == path[rpos] then Scan(pattern[ppos + 1..], path[rpos + 1..]) else None
    ensures Taken(pattern[ppos..], path[rpos..])
            == if pattern[ppos] == path[rpos] then Taken(pattern[ppos + 1..], path[rpos + 1..]) else 0
  {
    ScanAt(pattern, ppos, path, rpos);
  }

  lemma ScanEnds(pattern: string, path: string)
    requires pattern == "" || path == ""
    ensures Scan(pattern, path) == if pattern == "" && path == "" then Some([]) else None
    ensures Taken(pattern, path) == 0
  {
  }

  lemma ScanAt(pattern: string, ppos: nat, path: string, rpos: nat)
    requires ppos < |pattern| && rpos < |path|
    ensures pattern[ppos..][0] == pattern[ppos] && pattern[ppos..][1..] == pattern[ppos + 1..]
    ensures path[rpos..][0] == path[rpos] && path[rpos..][1..] == path[rpos + 1..]
  {
  }

  /** Moves a cursor behind the segment that ends at `end` and the '/' there, if there is one. */
  lemma AfterSegmentAt(s: string, from: nat, end: nat)
    requires from <= end <= |s| && end - from == UpTo(s[from..], '/')
    ensures AfterSegment(s[from..]) == s[if end < |s| && s[end] == '/' then end + 1 else end..]
    ensures s[from..][..UpTo(s[from..], '/')] == s[from..end]
  {
    assert s[from..][end - from..] == s[end..];
    if end < |s| { assert s[end..][0] == s[end] && s[end..][1..] == s[end + 1..]; }
  }

  function BehindSlash(s: string, end: nat): (k: nat)
    requires end <= |s|
    ensures end <= k <= |s|
  {
    if end < |s| && s[end] == '/' then end + 1 else end
  }

  lemma ParamStep(pattern: string, ppos: nat, nameEnd: nat, path: string, rpos: nat, segEnd: nat)
    requires ppos < nameEnd <= |pattern| && nameEnd - (ppos + 1) == UpTo(pattern[ppos + 1..], '/') && pattern[ppos] == ':'
    requires rpos < |path| && rpos <= segEnd <= |path| && segEnd - rpos == UpTo(path[rpos..], '/')
    ensures Scan(pattern[ppos..], path[rpos..])
            == Prepend(DecodeSegment(path[rpos..segEnd]), Scan(pattern[BehindSlash(pattern, nameEnd)..], path[BehindSlash(path, segEnd)..]))
    ensures Taken(pattern[ppos..], path[rpos..])
            == 1 + Taken(pattern[BehindSlash(pattern, nameEnd)..], path[BehindSlash(path, segEnd)..])
  {
    ScanAt(pattern, ppos, path, rpos);
    AfterSegmentAt(path, rpos, segEnd);
    AfterSegmentAt(pattern, ppos + 1, nameEnd);
  }

  /** The ':' branch: captures one decoded segment and moves both cursors behind it. */
  method TakeParam(heap: Heap, pattern: string, ppos: nat, path: string, rpos: nat, out: array<Option<Handle>>,
                   maxValues: nat, n: nat, ghost before: map<Handle, string>, ghost values: seq<string>, ghost base: Handle)
    returns (ok: bool, ppos': nat, rpos': nat, v: string)
    requires heap.Valid() && n == |values| && maxValues <= out.Length && heap.next == base + Min(n, maxValues)
    requires Owned(heap.cells, before, out[..], Stored(values, maxValues), base)
    requires ppos < |pattern| && rpos < |path| && pattern[ppos] == ':'
    modifies heap, out
    ensures heap.Valid() && ppos < ppos' <= |pattern| && rpos <= rpos' <= |path|
    ensures Scan(pattern[ppos..], path[rpos..]) == Prepend(v, Scan(pattern[ppos'..], path[rpos'..]))
    ensures Taken(pattern[ppos..], path[rpos..]) == 1 + Taken(pattern[ppos'..], path[rpos'..])
    ensures ok ==> heap.next == base + Min(n + 1, maxValues) && heap.exhausted == old(heap.exhausted)
    ensures ok ==> Owned(heap.cells, before, out[..], Stored(values + [v], maxValues), base)
    ensures !ok ==> heap.exhausted && heap.cells == before && heap.next == old(heap.next)
  {
    rpos' := SegmentEnd(path, rpos);
    v := DecodeLoop(path[rpos..rpos']);
    ok := Capture(heap, out, maxValues, n, v, before, values, base);
    ppos' := SegmentEnd(pattern, ppos + 1);
    ParamStep(pattern, ppos, ppos', path, rpos, rpos');
    ppos', rpos' := BehindSlash(pattern, ppos'), BehindSlash(path, rpos');
  }

  /** The '*' branch: captures all the rest of the path, undecoded. */
  method TakeWildcard(heap: Heap, pattern: string, ppos: nat, path: string, rpos: nat, out: array<Option<Handle>>,
                      maxValues: nat, n: nat, ghost before: map<Handle, string>, ghost values: seq<string>, ghost base: Handle)
    returns (ok: bool, ppos': nat, rpos': nat, v: string)
    requires heap.Valid() && n == |values| && maxValues <= out.Length && heap.next == base + Min(n, maxValues)
    requires Owned(heap.cells, before, out[..], Stored(values, maxValues), base)
    requires ppos < |pattern| && rpos < |path| && pattern[ppos] == '*'
    modifies heap, out
    ensures heap.Valid() && ppos < ppos' <= |pattern| && rpos <= rpos' <= |path|
    ensures Scan(pattern[ppos..], path[rpos..]) == Prepend(v, Scan(pattern[ppos'..], path[rpos'..]))
    ensures Taken(pattern[ppos..], path[rpos..]) == 1 + Taken(pattern[ppos'..], path[rpos'..])
    ensures ok ==> heap.next == base + Min(n + 1, maxValues) && heap.exhausted == old(heap.exhausted)
    ensures ok ==> Owned(heap.cells, before, out[..], Stored(values + [v], maxValues), base)
    ensures !ok ==> heap.exhausted && heap.cells == before && heap.next == old(heap.next)
  {
    ScanAt(pattern, ppos, path, rpos);
    v := path[rpos..];
    ok := Capture(heap, out, maxValues, n, v, before, values, base);
    ppos', rpos' := ppos + 1, |path|;
    assert path[rpos'..] == "";
  }

  /** What mnet_route_match asks for: out_values is big enough for all values captured by a scan that
      fails, for those are released.  A scan that succeeds stores as many as fit. */
  predicate Fits(pattern: string, path: string, maxValues: nat) {
    || Match(pattern, path).Some?
    || pattern == "" || path == "" || pattern[0] != '/' || path[0] != '/'
    || Taken(pattern, path) <= maxValues
  }

  lemma FitsWithinSlots(pattern: string, path: string, maxValues: nat)
    requires Slots(pattern) <= maxValues
    ensures Fits(pattern, path, maxValues)
  {
    TakenAtMostSlots(pattern, path);
  }

  /** mnet_route_match.  On success out owns the captured values that have a slot; on failure everything
      allocated on the way has been released. */
  method RouteMatch(heap: Heap, pattern: string, path: string, out: array<Option<Handle>>, maxValues: nat)
    returns (n: int, ghost values: seq<string>)
    requires heap.Valid() && maxValues <= out.Length && Fits(pattern, path, maxValues)
    modifies heap, out
    ensures heap.Valid() && heap.next >= old(heap.next) && (old(heap.exhausted) ==> heap.exhausted)
    ensures n < 0 ==> n == -1 && heap.cells == old(heap.cells)
    ensures n < 0 && !heap.exhausted ==> Match(pattern, path) == None
    ensures n >= 0 ==> Match(pattern, path) == Some(values) && n == |values| && heap.exhausted == old(heap.exhausted)
    ensures n >= 0 ==> heap.next == old(heap.next) + Min(n, maxValues)
                       && Owned(heap.cells, old(heap.cells), out[..], Stored(values, maxValues), old(heap.next))
  {
    hide Scan, Taken;
    values := [];
    if |pattern| == 0 || |path| == 0 || pattern[0] != '/' || path[0] != '/' {
      return -1, [];
    }
    ghost var before, base := heap.cells, heap.next;
    var ppos, rpos := 0, 0;
    n := 0;
    assert pattern[0..] == pattern && path[0..] == path;
    ResumeNone(Scan(pattern, path));
    while ppos < |pattern| && rpos < |path|
      invariant ppos <= |pattern| && rpos <= |path|
      invariant heap.Valid() && heap.exhausted == old(heap.exhausted)
      invariant n == |values| && heap.next == base + Min(n, maxValues)
      invariant Owned(heap.cells, before, out[..], Stored(values, maxValues), base)
      invariant Scan(pattern, path) == Resume(values, Scan(pattern[ppos..], path[rpos..]))
      invariant Taken(pattern, path) == n + Taken(pattern[ppos..], path[rpos..])
    {
      if pattern[ppos] == '*' || pattern[ppos] == ':' {
        var ok, ppos', rpos', v;
        if pattern[ppos] == '*' {
          ok, ppos', rpos', v := TakeWildcard(heap, pattern, ppos, path, rpos, out, maxValues, n, before, values, base);
        } else {
          ok, ppos', rpos', v := TakeParam(heap, pattern, ppos, path, rpos, out, maxValues, n, before, values, base);
        }
        if !ok {
          return -1, values;
        }
        ResumeOne(values, v, Scan(pattern[ppos'..], path[rpos'..]));
        ppos, rpos, n, values := ppos', rpos', n + 1, values + [v];
      } else if pattern[ppos] != path[rpos] {
        ScanPlain(pattern, ppos, path, rpos);
        AllStored(values, maxValues);
        MatchParamsFree(heap, out, n, before, values, base);
        return -1, values;
      } else {
        ScanPlain(pattern, ppos, path, rpos);
        ppos := ppos + 1;
        rpos := rpos + 1;
      }
    }
    ScanEnds(pattern[ppos..], path[rpos..]);
    if ppos < |pattern| || rpos < |path| {
      AllStored(values, maxValues);
      MatchParamsFree(heap, out, n, before, values, base);
      return -1, values;
    }
    assert values + [] == values;
  }

  lemma AllStored(values: seq<string>, maxValues: nat)
    requires |values| <= maxValues
    ensures Stored(values, maxValues) == values
  {
  }

  // ---------------------------------------------------------------- the route table

  datatype Method = GET | POST | PUT | PATCH | DELETE | HEAD | OPTIONS

  datatype Route = Route(verb: Method, path: string, handler: nat, paramNames: seq<string>)

  /** The names mnet_add_route registers for a pattern, k of them so far. */
  function Names(p: string, k: nat): seq<string>
    decreases |p|
  {
    if p == "" then []
    else if p[0] == ':' then
      var n := RunLength(p[1..], "/.");
      [if n == 0 then "_" + Decimal(k) else p[1..][..n]] + Names(p[1..][n..], k + 1)
    else if p[0] == '*' then ["*"]
    else Names(p[1..], k)
  }

  /** The name of capture k: a parameter's name as far as registration reads it, up to a '.'; "_k" if that
      is empty; "*" for the wildcard. */
  function NameOf(c: Segment, k: nat): string
    requires !c.Literal?
  {
    match c
    case Param(n) => if UpTo(n, '.') == 0 then "_" + Decimal(k) else n[..UpTo(n, '.')]
    case Wildcard => "*"
  }

  /** The names of the captures, numbered from k. */
  function CaptureNames(segs: seq<Segment>, k: nat): (r: seq<string>)
    ensures |r| == |Captures(segs)|
  {
    seq(|Captures(segs)|, i requires 0 <= i < |Captures(segs)| => NameOf(Captures(segs)[i], k + i))
  }

  lemma CaptureNamesStep(segs: seq<Segment>, k: nat)
    requires segs != []
    ensures CaptureNames(segs, k)
            == if segs[0].Literal? then CaptureNames(segs[1..], k) else [NameOf(segs[0], k)] + CaptureNames(segs[1..], k + 1)
  {
    hide NameOf, Captures;
    CapturesStep(segs);
    if !segs[0].Literal? {
      var all, rest := CaptureNames(segs, k), CaptureNames(segs[1..], k + 1);
      forall i | 1 <= i < |all|
        ensures all[i] == rest[i - 1]
      {
        assert Captures(segs)[i] == Captures(segs[1..])[i - 1];
      }
      assert all == [all[0]] + rest;
    }
  }

  /** A name that registration and matching read alike: behind a '.' nothing starts another name. */
  predicate Tidy(name: string) {
    ':' !in name[UpTo(name, '.')..] && '*' !in name[UpTo(name, '.')..]
  }

  predicate AllTidy(segs: seq<Segment>) {
    forall i :: 0 <= i < |segs| && segs[i].Param? ==> Tidy(segs[i].name)
  }

  predicate NoStars(segs: seq<Segment>) {
    forall i :: 0 <= i < |segs| && segs[i].Param? ==> '*' !in segs[i].name
  }

  lemma {:induction false} NamesSkip(text: string, rest: string, k: nat)
    requires ':' !in text && '*' !in text
    ensures Names(text + rest, k) == Names(rest, k)
  {
    if text == "" {
      assert text + rest == rest;
    } else {
      assert (text + rest)[1..] == text[1..] + rest;
      NamesSkip(text[1..], rest, k);
    }
  }

  /** Registration of one parameter: its name, and then whatever stands behind a '.' in it. */
  lemma NamesFromParam(n: string, tail: string, k: nat)
    requires '/' !in n && (tail != "" ==> tail[0] == '/')
    ensures Names(":" + n + tail, k) == [NameOf(Param(n), k)] + Names(n[UpTo(n, '.')..] + tail, k + 1)
  {
    hide UpTo, RunLength;
    var s, m := ":" + n + tail, UpTo(n, '.');
    assert s[1..] == n + tail;
    RunLengthIs(s[1..], "/.", m);
    assert s[1..][..m] == n[..m] && s[1..][m..] == n[m..] + tail;
  }

  function TailOf(segs: seq<Segment>): string
    requires segs != []
  {
    if |segs| == 1 then "" else "/" + SpellAll(segs[1..])
  }

  lemma {:induction false} NamesOfPattern(segs: seq<Segment>, k: nat)
    requires WellFormed(segs) && AllTidy(segs)
    ensures Names(SpellAll(segs), k) == CaptureNames(segs, k)
    decreases |segs|, 1
  {
    hide NameOf;
    var tail := TailOf(segs);
    assert SpellAll(segs) == segs[0].Spelling() + tail;
    CaptureNamesStep(segs, k);
    match segs[0]
    case Wildcard => WildcardName(k);
    case Literal(t) =>
      NamesSkip(t, tail, k);
      NamesOfTail(segs, k);
    case Param(n) =>
      NamesFromParam(n, tail, k);
      NamesSkip(n[UpTo(n, '.')..], tail, k + 1);
      NamesOfTail(segs, k + 1);
  }

  lemma WildcardName(k: nat)
    ensures Names("*" + "", k) == [NameOf(Wildcard, k)]
  {
  }

  lemma {:induction false} NamesOfTail(segs: seq<Segment>, k: nat)
    requires WellFormed(segs) && AllTidy(segs)
    ensures Names(TailOf(segs), k) == CaptureNames(segs[1..], k)
    decreases |segs|, 0
  {
    if |segs| > 1 {
      NamesSkip("/", SpellAll(segs[1..]), k);
      NamesOfPattern(segs[1..], k);
    } else {
      assert segs[1..] == [];
    }
  }

  /** How many names are registered does not depend on the numbering. */
  lemma {:induction false} NamesCount(p: string, k: nat)
    ensures |Names(p, k)| == |Names(p, 0)|
    decreases |p|
  {
    if p != "" {
      if p[0] == ':' {
        var rest := p[1..][RunLength(p[1..], "/.")..];
        NamesCount(rest, k + 1);
        NamesCount(rest, 1);
      } else if p[0] != '*' {
        NamesCount(p[1..], k);
      }
    }
  }

  /** Every ':' in what is left of a segment makes for one more name. */
  lemma {:induction false} ExtraNames(t: string, tail: string, k: nat)
    requires '/' !in t && '*' !in t && (tail != "" ==> tail[0] == '/')
    ensures |Names(t + tail, k)| >= |Names(tail, 0)| + if ':' in t then 1 else 0
    decreases |t|
  {
    hide Names, NameOf, UpTo;
    if t == "" {
      assert t + tail == tail;
      NamesCount(tail, k);
    } else if t[0] == ':' {
      NamesFromParam(t[1..], tail, k);
      var rest := t[1..][UpTo(t[1..], '.')..];
      assert ":" + t[1..] + tail == t + tail;
      ExtraNames(rest, tail, k + 1);
    } else {
      NamesSkip(t[..1], t[1..] + tail, k);
      assert t[..1] + (t[1..] + tail) == t + tail;
      ExtraNames(t[1..], tail, k);
    }
  }

  lemma NamesOfOne(n: string, tail: string, k: nat)
    requires '/' !in n && '*' !in n && (tail != "" ==> tail[0] == '/')
    ensures |Names(":" + n + tail, k)| >= 1 + |Names(tail, 0)| + if Tidy(n) then 0 else 1
  {
    hide Names, NameOf, UpTo;
    NamesFromParam(n, tail, k);
    ExtraNames(n[UpTo(n, '.')..], tail, k + 1);
  }

  /** Without '*' in names there are never fewer names than captures, and more if a name is not tidy. */
  lemma {:induction false} NamesAtLeastCaptures(segs: seq<Segment>, k: nat)
    requires WellFormed(segs) && NoStars(segs)
    ensures |Names(SpellAll(segs), k)| >= |Captures(segs)| + if AllTidy(segs) then 0 else 1
    decreases |segs|
  {
    hide Names, NameOf, UpTo, Tidy;
    var tail := TailOf(segs);
    assert SpellAll(segs) == segs[0].Spelling() + tail;
    assert AllTidy(segs) <==> (segs[0].Param? ==> Tidy(segs[0].name)) && AllTidy(segs[1..]);
    if |segs| > 1 {
      NamesSkip("/", SpellAll(segs[1..]), 0);
      NamesAtLeastCaptures(segs[1..], 0);
    } else {
      assert segs[1..] == [];
    }
    assert |Names(tail, 0)| >= |Captures(segs[1..])| + if AllTidy(segs[1..]) then 0 else 1;
    match segs[0]
    case Wildcard => WildcardName(k);
    case Literal(t) =>
      NamesSkip(t, tail, k);
      NamesCount(tail, k);
    case Param(n) => NamesOfOne(n, tail, k);
  }

  /** Registration and matching agree: if no name holds a ':' or '*' behind a '.', the names registered are
      those of the captures, in order; and, '*' in names apart, only then. */
  lemma NamesAlign(segs: seq<Segment>)
    requires WellFormed(segs)
    ensures AllTidy(segs) ==> Names(Pattern(segs), 0) == CaptureNames(segs, 0)
    ensures NoStars(segs) ==> (Names(Pattern(segs), 0) == CaptureNames(segs, 0) <==> AllTidy(segs))
  {
    NamesSkip("/", SpellAll(segs), 0);
    if AllTidy(segs) { NamesOfPattern(segs, 0); }
    if NoStars(segs) { NamesAtLeastCaptures(segs, 0); }
  }

  /** Index by index: in every match value k belongs to name k, and is the text that stands in the path
      where capture k stands in the pattern. */
  lemma NamesAlignWithValues(segs: seq<Segment>, ps: seq<string>, k: nat)
    requires WellFormed(segs) && AllTidy(segs) && PathSegments(ps)
    requires Match(Pattern(segs), Path(ps)).Some? && k < |Captures(segs)|
    ensures var names, values := Names(Pattern(segs), 0), Match(Pattern(segs), Path(ps)).value;
            var i := CaptureIndex(segs, k);
            && |names| == |values| == |Captures(segs)| && i < |ps|
            && names[k] == NameOf(segs[i], k) && values[k] == TextAt(segs, ps, i)
  {
    NamesAlign(segs);
    MatchRefinesSegments(segs, ps);
    OneValuePerCapture(segs, ps);
    ValueAtCapture(segs, ps, k);
  }

  lemma {:induction false} SlotsSkip(text: string, rest: string)
    requires ':' !in text && '*' !in text
    ensures Slots(text + rest) == Slots(rest)
  {
    if text == "" {
      assert text + rest == rest;
    } else {
      assert (text + rest)[1..] == text[1..] + rest;
      SlotsSkip(text[1..], rest);
    }
  }

  lemma {:induction false} SlotsOfPattern(segs: seq<Segment>)
    requires WellFormed(segs)
    ensures Slots(SpellAll(segs)) == |Captures(segs)|
    decreases |segs|
  {
    var s := SpellAll(segs);
    var tail := TailOf(segs);
    assert s == segs[0].Spelling() + tail;
    SlotsOfTail(segs);
    match segs[0]
    case Wildcard => assert |segs| == 1 && s[1..] == "";
    case Literal(t) => SlotsSkip(t, tail);
    case Param(_) =>
      SpelledFirst(segs);
      if |segs| > 1 { SlotsSkip("/", SpellAll(segs[1..])); }
  }

  lemma {:induction false} SlotsOfTail(segs: seq<Segment>)
    requires WellFormed(segs)
    ensures Slots(TailOf(segs)) == |Captures(segs[1..])|
    decreases |segs|, 0
  {
    if |segs| > 1 {
      SlotsSkip("/", SpellAll(segs[1..]));
      SlotsOfPattern(segs[1..]);
    } else {
      assert segs[1..] == [];
    }
  }

  // ---------------------------------------------------------------- choosing a route

  predicate Applies(r: Route, verb: Method, path: string) {
    r.verb == verb && Match(r.path, path).Some?
  }

  /** The first route from `from` on that applies. */
  function FirstMatch(routes: seq<Route>, verb: Method, path: string, from: nat): (r: Option<nat>)
    requires from <= |routes|
    ensures r.Some? ==> from <= r.value < |routes| && Applies(routes[r.value], verb, path)
                        && forall j :: from <= j < r.value ==> !Applies(routes[j], verb, path)
    ensures r.None? ==> forall j :: from <= j < |routes| ==> !Applies(routes[j], verb, path)
    decreases |routes| - from
  {
    if from == |routes| then None
    else if Applies(routes[from], verb, path) then Some(from)
    else FirstMatch(routes, verb, path, from + 1)
  }

  /** HEAD falls back to GET. */
  function Chosen(routes: seq<Route>, verb: Method, path: string): Option<nat> {
    var r := FirstMatch(routes, verb, path, 0);
    if r.None? && verb == HEAD then FirstMatch(routes, GET, path, 0) else r
  }

  /** Which route is chosen: none exactly if no route of the method matches, for HEAD none of GET either;
      otherwise the first of its method that matches, and one of another method only for HEAD, when it is
      one of GET and no route of HEAD matches. */
  lemma ChosenRoute(routes: seq<Route>, verb: Method, path: string)
    ensures var r := Chosen(routes, verb, path);
            && (r.None? <==> forall i :: 0 <= i < |routes| && (routes[i].verb == verb || (verb == HEAD && routes[i].verb == GET))
                               ==> Match(routes[i].path, path).None?)
            && (r.Some? ==>
                  && r.value < |routes| && Match(routes[r.value].path, path).Some?
                  && (forall j :: 0 <= j < r.value && routes[j].verb == routes[r.value].verb ==> Match(routes[j].path, path).None?)
                  && (routes[r.value].verb != verb ==>
                        && verb == HEAD && routes[r.value].verb == GET
                        && forall j :: 0 <= j < |routes| && routes[j].verb == HEAD ==> Match(routes[j].path, path).None?))
  {
    hide Match, FirstMatch;
    var own := FirstMatch(routes, verb, path, 0);
    forall j | 0 <= j < |routes|
      ensures own.None? && routes[j].verb == verb ==> Match(routes[j].path, path).None?
      ensures own.Some? && j < own.value && routes[j].verb == verb ==> Match(routes[j].path, path).None?
    {
      assert Applies(routes[j], verb, path) <==> routes[j].verb == verb && Match(routes[j].path, path).Some?;
    }
    if own.None? && verb == HEAD {
      var get := FirstMatch(routes, GET, path, 0);
      forall j | 0 <= j < |routes|
        ensures get.None? && routes[j].verb == GET ==> Match(routes[j].path, path).None?
        ensures get.Some? && j < get.value && routes[j].verb == GET ==> Match(routes[j].path, path).None?
      {
        assert Applies(routes[j], GET, path) <==> routes[j].verb == GET && Match(routes[j].path, path).Some?;
      }
    }
  }

  lemma FirstMatchStep(routes: seq<Route>, verb: Method, path: string, i: nat)
    requires i < |routes|
    ensures FirstMatch(routes, verb, path, i)
            == if Applies(routes[i], verb, path) then Some(i) else FirstMatch(routes, verb, path, i + 1)
  {
  }

  lemma FirstMatchEnds(routes: seq<Route>, verb: Method, path: string)
    ensures FirstMatch(routes, verb, path, |routes|) == None
  {
  }

  /** The routes mnet_find_route looks at: those of the method, for HEAD also those of GET. */
  predicate Tried(routeVerb: Method, verb: Method) { routeVerb == verb || (verb == HEAD && routeVerb == GET) }

  lemma NamesAtParam(path: string, colon: nat, end: nat, k: nat)
    requires colon < end <= |path| && path[colon] == ':'
    requires forall i :: colon < i < end ==> path[i] != '/' && path[i] != '.'
    requires end < |path| ==> path[end] == '/' || path[end] == '.'
    ensures Names(path[colon..], k)
            == [if end == colon + 1 then "_" + Decimal(k) else path[colon + 1..end]] + Names(path[end..], k + 1)
  {
    var rest := path[colon + 1..];
    assert path[colon..][0] == ':' && path[colon..][1..] == rest;
    RunLengthIs(rest, "/.", end - colon - 1);
    assert rest[..end - colon - 1] == path[colon + 1..end] && rest[end - colon - 1..] == path[end..];
  }

  lemma NamesElsewhere(path: string, p: nat, k: nat)
    requires p <= |path|
    ensures p == |path| ==> Names(path[p..], k) == []
    ensures p < |path| && path[p] == '*' ==> Names(path[p..], k) == ["*"]
    ensures p < |path| && path[p] != ':' && path[p] != '*' ==> Names(path[p..], k) == Names(path[p + 1..], k)
  {
    if p < |path| { assert path[p..][0] == path[p] && path[p..][1..] == path[p + 1..]; }
  }

  const INITIAL_ROUTE_CAPACITY := 8

  class App {
    var routes: array<Route>
    var routeCount: nat

    ghost predicate Valid()
      reads this
    {
      routeCount <= routes.Length
    }

    ghost function Table(): seq<Route>
      requires Valid()
      reads this, routes
    {
      routes[..routeCount]
    }

    constructor ()
      ensures Valid() && Table() == []
    {
      routes := new Route[0];
      routeCount := 0;
    }

    /** The scan for parameter names in mnet_add_route. */
    static method ParamNames(path: string) returns (names: seq<string>)
      ensures names == Names(path, 0)
    {
      hide Names;
      names := [];
      var p := 0;
      assert path[0..] == path;
      assert [] + Names(path, 0) == Names(path, 0);
      while p < |path|
        invariant p <= |path|
        invariant Names(path, 0) == names + Names(path[p..], |names|)
      {
        if path[p] == ':' {
          var start := p + 1;
          p := start;
          while p < |path| && path[p] != '/' && path[p] != '.'
            invariant start <= p <= |path|
            invariant forall i :: start <= i < p ==> path[i] != '/' && path[i] != '.'
          {
            p := p + 1;
          }
          var name := if p == start then "_" + Decimal(|names|) else path[start..p];
          NamesAtParam(path, start - 1, p, |names|);
          Assoc(names, [name], Names(path[p..], |names| + 1));
          names := names + [name];
        } else if path[p] == '*' {
          NamesElsewhere(path, p, |names|);
          return names + ["*"];
        } else {
          NamesElsewhere(path, p, |names|);
          p := p + 1;
        }
      }
      NamesElsewhere(path, p, |names|);
      assert names + [] == names;
    }

    /** mnet_add_route: appends a route, doubling the table when it is full. */
    method AddRoute(verb: Method, path: string, handler: nat)
      requires Valid()
      modifies this, routes
      ensures Valid()
      ensures Table() == old(Table()) + [Route(verb, path, handler, Names(path, 0))]
      ensures routes == old(routes) || fresh(routes)
    {
      if routeCount == routes.Length {
        var capacity := if routes.Length == 0 then INITIAL_ROUTE_CAPACITY else routes.Length * 2;
        var grown := new Route[capacity];
        for i := 0 to routeCount
          invariant routes == old(routes) && routeCount == old(routeCount) && routes[..] == old(routes[..])
          invariant grown[..i] == routes[..i]
        {
          grown[i] := routes[i];
        }
        routes := grown;
      }
      assert routes[..routeCount] == old(Table());
      var names := ParamNames(path);
      routes[routeCount] := Route(verb, path, handler, names);
      routeCount := routeCount + 1;
      assert Table() == routes[..routeCount - 1] + [routes[routeCount - 1]];
    }

    /** mnet_find_route.  With no allocation failure it chooses the first matching route (for HEAD:
        the first HEAD match, else the first GET match); in every case exactly the values it stored
        are live afterwards. */
    method FindRoute(heap: Heap, verb: Method, path: string, out: array<Option<Handle>>, maxValues: nat)
      returns (route: Option<nat>, count: nat, ghost values: seq<string>)
      requires Valid() && heap.Valid() && maxValues <= out.Length
      requires forall i :: 0 <= i < routeCount && Tried(routes[i].verb, verb) ==> Fits(routes[i].path, path, maxValues)
      modifies heap, out
      ensures heap.Valid() && heap.next >= old(heap.next) && (old(heap.exhausted) ==> heap.exhausted)
      ensures route.None? ==> count == 0 && heap.cells == old(heap.cells)
      ensures route.Some? ==> route.value < routeCount && Tried(routes[route.value].verb, verb)
                              && Match(routes[route.value].path, path) == Some(values)
      ensures route.Some? ==> count == |values| && Min(count, maxValues) <= heap.next
                              && Owned(heap.cells, old(heap.cells), out[..], Stored(values, maxValues), heap.next - Min(count, maxValues))
      ensures !heap.exhausted ==> route == Chosen(Table(), verb, path)
      decreases verb == HEAD
    {
      hide Match, Fits, Stored, Owned, FirstMatch;
      count, values := 0, [];
      ghost var before := heap.cells;
      for i := 0 to routeCount
        invariant heap.Valid() && heap.cells == before && heap.next >= old(heap.next)
        invariant old(heap.exhausted) ==> heap.exhausted
        invariant count == 0
        invariant !heap.exhausted ==> FirstMatch(Table(), verb, path, 0) == FirstMatch(Table(), verb, path, i)
      {
        FirstMatchStep(Table(), verb, path, i);
        if routes[i].verb == verb {
          var n;
          n, values := RouteMatch(heap, routes[i].path, path, out, maxValues);
          if n >= 0 {
            return Some(i), n, values;
          }
        }
      }
      FirstMatchEnds(Table(), verb, path);
      if verb == HEAD {
        route, count, values := FindRoute(heap, GET, path, out, maxValues);
        return;
      }
      route := None;
    }

    /** The values of one request from mnet_find_route over the handler to mnet_match_params_free: the
        handler sees exactly those of the match, and afterwards the heap is as it was. */
    method HandleRoute(heap: Heap, verb: Method, path: string, maxValues: nat) returns (route: Option<nat>, seen: seq<string>)
      requires Valid() && heap.Valid()
      requires forall i :: 0 <= i < routeCount && Tried(routes[i].verb, verb) ==> Taken(routes[i].path, path) <= maxValues
      modifies heap
      ensures heap.Valid() && heap.cells == old(heap.cells)
      ensures if route.Some? then route.value < routeCount && Match(routes[route.value].path, path) == Some(seen) else seen == []
      ensures !heap.exhausted ==> route == Chosen(Table(), verb, path)
    {
      hide Match, Taken, Owned, Chosen;
      ghost var before := heap.cells;
      var out := new Option<Handle>[maxValues](_ => None);
      assert forall i :: 0 <= i < routeCount && Taken(routes[i].path, path) <= maxValues ==> Fits(routes[i].path, path, maxValues);
      var count;
      ghost var values;
      route, count, values := FindRoute(heap, verb, path, out, maxValues);
      if route.None? {
        return None, [];
      }
      MatchIsTaken(routes[route.value].path, path);
      AllStored(values, maxValues);
      seen := ValuesOf(heap, out, count, before, values, heap.next - count);
      MatchParamsFree(heap, out, count, before, values, heap.next - count);
    }
  }

  lemma MatchIsTaken(pattern: string, path: string)
    requires Match(pattern, path).Some?
    ensures |Match(pattern, path).value| == Taken(pattern, path)
  {
    TakenIsCount(pattern, path);
  }

  /** path_param_values as a handler reads it. */
  method ValuesOf(heap: Heap, out: array<Option<Handle>>, count: nat, ghost before: map<Handle, string>,
                  ghost values: seq<string>, ghost base: Handle) returns (seen: seq<string>)
    requires count == |values| && Owned(heap.cells, before, out[..], values, base)
    ensures seen == values
  {
    seen := [];
    for i := 0 to count
      invariant seen == values[..i]
    {
      assert SlotHolds(heap.cells, out[..][i], base + i, values[i]);
      seen := seen + [heap.cells[out[i].value]];
    }
  }

  // ---------------------------------------------------------------- what a handler sees

  /** mnet_request_param: the value under the first equal name. */
  function Lookup(names: seq<string>, values: seq<string>, name: string): Option<string>
    requires |values| <= |names|
  {
    if values == [] then None
    else if names[0] == name then Some(values[0])
    else Lookup(names[1..], values[1..], name)
  }

  /** Without a parameter of that name there is nothing. */
  lemma {:induction false} LookupMissing(names: seq<string>, values: seq<string>, name: string)
    requires |values| <= |names|
    ensures Lookup(names, values, name) == None <==> name !in names[..|values|]
  {
    if values != [] {
      LookupMissing(names[1..], values[1..], name);
      assert names[..|values|] == [names[0]] + names[1..][..|values| - 1];
    }
  }

  lemma {:induction false} LookupFinds(names: seq<string>, values: seq<string>, i: nat)
    requires |values| <= |names| && i < |values|
    requires forall j :: 0 <= j < i ==> names[j] != names[i]
    ensures Lookup(names, values, names[i]) == Some(values[i])
  {
    if i > 0 {
      assert names[1..][i - 1] == names[i] && values[1..][i - 1] == values[i];
      forall j | 0 <= j < i - 1
        ensures names[1..][j] != names[i]
      {
        assert names[1..][j] == names[j + 1];
      }
      LookupFinds(names[1..], values[1..], i - 1);
    }
  }

  /** What the handler of a matched route gets under the name of a capture: the text that stands there in
      the path.  Of equal names the first counts. */
  lemma ParamIsTextInPath(segs: seq<Segment>, ps: seq<string>, k: nat)
    requires WellFormed(segs) && AllTidy(segs) && PathSegments(ps)
    requires Match(Pattern(segs), Path(ps)).Some? && k < |Captures(segs)|
    requires forall j :: 0 <= j < k ==> CaptureNames(segs, 0)[j] != CaptureNames(segs, 0)[k]
    ensures var names, values := Names(Pattern(segs), 0), Match(Pattern(segs), Path(ps)).value;
            && |values| <= |names| && CaptureIndex(segs, k) < |ps|
            && Lookup(names, values, CaptureNames(segs, 0)[k]) == Some(TextAt(segs, ps, CaptureIndex(segs, k)))
  {
    hide Match, Names, Captures, NameOf;
    NamesAlignWithValues(segs, ps, k);
    NamesAlign(segs);
    LookupFinds(CaptureNames(segs, 0), Match(Pattern(segs), Path(ps)).value, k);
  }

  /** A parameter is found under its name, an unnamed one under "_" and its number, and gives its segment. */
  lemma ParamByName(segs: seq<Segment>, ps: seq<string>, k: nat, name: string)
    requires WellFormed(segs) && AllTidy(segs) && PathSegments(ps)
    requires Match(Pattern(segs), Path(ps)).Some? && k < |Captures(segs)|
    requires Captures(segs)[k].Param? && '.' !in Captures(segs)[k].name
    requires name == if Captures(segs)[k].name == "" then "_" + Decimal(k) else Captures(segs)[k].name
    requires forall j :: 0 <= j < k ==> CaptureNames(segs, 0)[j] != name
    ensures var names, values := Names(Pattern(segs), 0), Match(Pattern(segs), Path(ps)).value;
            && |values| <= |names| && CaptureIndex(segs, k) < |ps|
            && Lookup(names, values, name) == Some(DecodeSegment(ps[CaptureIndex(segs, k)]))
  {
    hide Match, Names, Captures;
    var n := Captures(segs)[k].name;
    UpToIs(n, '.', |n|);
    assert n[..|n|] == n;
    ParamIsTextInPath(segs, ps, k);
  }

  /** The wildcard is found under "*", and gives the rest of the path as it is. */
  lemma WildcardByStar(segs: seq<Segment>, ps: seq<string>, k: nat)
    requires WellFormed(segs) && AllTidy(segs) && PathSegments(ps)
    requires Match(Pattern(segs), Path(ps)).Some? && k < |Captures(segs)| && Captures(segs)[k].Wildcard?
    requires forall j :: 0 <= j < k ==> CaptureNames(segs, 0)[j] != "*"
    ensures var names, values := Names(Pattern(segs), 0), Match(Pattern(segs), Path(ps)).value;
            && |values| <= |names| && CaptureIndex(segs, k) < |ps|
            && Lookup(names, values, "*") == Some(Join(ps[CaptureIndex(segs, k)..], '/'))
  {
    hide Match, Names, Captures;
    ParamIsTextInPath(segs, ps, k);
  }

  /** End to end: a client writes values into a pattern, and the handler reads each of them back under its name. */
  lemma ParamsReachHandler(segs: seq<Segment>, values: seq<string>, k: nat)
    requires WellFormed(segs) && AllTidy(segs) && Fillable(segs, values) && k < |Captures(segs)|
    requires forall j :: 0 <= j < k ==> CaptureNames(segs, 0)[j] != CaptureNames(segs, 0)[k]
    ensures Match(Pattern(segs), Path(Fill(segs, values))) == Some(values)
    ensures k < |values| <= |Names(Pattern(segs), 0)|
    ensures Lookup(Names(Pattern(segs), 0), values, CaptureNames(segs, 0)[k]) == Some(values[k])
  {
    hide Match, Names, Captures, NameOf, Fillable, Fill;
    PathRoundTrip(segs, values);
    FillIsPath(segs, values);
    NamesAlignWithValues(segs, Fill(segs, values), k);
    NamesAlign(segs);
    LookupFinds(CaptureNames(segs, 0), values, k);
  }
}
