/** The containment check of static_handler on resolved paths. */
module StaticRoot {
  import opened Bytes

  /** strncmp over the root's length, and a boundary behind it. */
  predicate Inside(resolved: string, root: string)
    requires root != ""
  {
    root <= resolved && (|resolved| == |root| || resolved[|root|] == '/' || root[|root| - 1] == '/')
  }

  /** The names along a resolved path. */
  predicate Names(names: seq<string>) {
    forall i :: 0 <= i < |names| ==> names[i] != "" && '/' !in names[i]
  }

  function Slashed(names: seq<string>): string {
    if names == [] then "" else "/" + names[0] + Slashed(names[1..])
  }

  /** What realpath returns: no empty name, no trailing '/', except for the root directory itself. */
  function Resolved(names: seq<string>): string {
    if names == [] then "/" else Slashed(names)
  }

  predicate BoundaryPrefix(a: string, b: string) {
    b <= a && (|a| == |b| || a[|b|] == '/')
  }

  /** A name in front of a rest that is empty or starts with '/' ends where the first '/' is. */
  lemma FirstName(name: string, rest: string)
    requires '/' !in name && (rest == "" || rest[0] == '/')
    ensures UpTo(name + rest, '/') == |name|
  {
    UpToIs(name + rest, '/', |name|);
  }

  lemma {:induction false} SlashedStarts(names: seq<string>)
    ensures Slashed(names) == "" <==> names == []
    ensures names != [] ==> Slashed(names)[0] == '/'
  {
  }

  /** A text prefix that ends at a boundary is a prefix of names. */
  lemma {:induction false} BoundaryIsPrefix(a: seq<string>, b: seq<string>)
    requires Names(a) && Names(b)
    ensures BoundaryPrefix(Slashed(a), Slashed(b)) <==> b <= a
    decreases |b|
  {
    SlashedStarts(a);
    SlashedStarts(b);
    if a != [] && b != [] {
      var ta, tb := a[0] + Slashed(a[1..]), b[0] + Slashed(b[1..]);
      assert Slashed(a) == "/" + ta && Slashed(b) == "/" + tb;
      SlashedStarts(a[1..]);
      SlashedStarts(b[1..]);
      FirstName(a[0], Slashed(a[1..]));
      FirstName(b[0], Slashed(b[1..]));
      DropOne('/', ta, tb);
      BoundaryIsPrefix(a[1..], b[1..]);
      DropName(a[0], Slashed(a[1..]), b[0], Slashed(b[1..]));
      assert b <= a <==> a[0] == b[0] && b[1..] <= a[1..] by {
        assert a == [a[0]] + a[1..] && b == [b[0]] + b[1..];
      }
    }
  }

  lemma DropOne(c: char, a: string, b: string)
    ensures BoundaryPrefix([c] + a, [c] + b) <==> BoundaryPrefix(a, b)
  {
    assert ([c] + a)[1..] == a && ([c] + b)[1..] == b;
    if [c] + b <= [c] + a {
      assert b == ([c] + a)[..1 + |b|][1..] == a[..|b|];
    }
  }

  lemma DropName(x: string, a: string, y: string, b: string)
    requires '/' !in x && '/' !in y && (a == "" || a[0] == '/') && (b == "" || b[0] == '/')
    ensures BoundaryPrefix(x + a, y + b) <==> x == y && BoundaryPrefix(a, b)
  {
    FirstName(x, a);
    FirstName(y, b);
    if BoundaryPrefix(x + a, y + b) {
      SameLength(x, a, y, b);
      assert x == (x + a)[..|x|] && y == (y + b)[..|y|];
      assert (x + a)[|x|..] == a && (y + b)[|y|..] == b;
      assert b == (x + a)[..|y + b|][|x|..] == a[..|b|];
    }
  }

  lemma SameLength(x: string, a: string, y: string, b: string)
    requires '/' !in x && '/' !in y && (a == "" || a[0] == '/') && (b == "" || b[0] == '/')
    requires BoundaryPrefix(x + a, y + b)
    ensures |x| == |y|
  {
    var s := x + a;
    assert forall i :: 0 <= i < |y| ==> s[i] == (y + b)[i] == y[i];
    assert b != "" ==> s[|y|] == (y + b)[|y|] == '/';
    UpToIs(s, '/', |y|);
    FirstName(x, a);
  }

  /** The resolved path passes exactly if it is the root or lies beneath it: the names of the root are
      the first names of the path.  A sibling whose name merely starts like the root's does not pass. */
  lemma InsideIsBeneath(path: seq<string>, root: seq<string>)
    requires Names(path) && Names(root)
    ensures Inside(Resolved(path), Resolved(root)) <==> root <= path
  {
    SlashedStarts(path);
    SlashedStarts(root);
    if root != [] {
      BoundaryIsPrefix(path, root);
      EndsInName(root);
      if path == [] { assert |Slashed(root)| > 1; }
    }
  }

  lemma {:induction false} EndsInName(names: seq<string>)
    requires Names(names) && names != []
    ensures |Slashed(names)| > 1 && Slashed(names)[|Slashed(names)| - 1] != '/'
  {
    var s := Slashed(names);
    if |names| == 1 {
      assert s == "/" + names[0] + "";
      assert s[|s| - 1] == names[0][|names[0]| - 1];
    } else {
      EndsInName(names[1..]);
      var rest := Slashed(names[1..]);
      assert s[|s| - 1] == rest[|rest| - 1];
    }
  }
}
