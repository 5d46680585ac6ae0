/**
 A model of Node's POSIX `path.resolve` as a pure function on strings.

 A resolved path is kept as the list of its segments below the root `/`.
 Resolution splits the argument on `/`, drops empty and `.` segments, lets
 `..` pop one segment (never above the root), and restarts from the root
 when the argument is absolute. The working directory, which Node reads from
 the process, is a parameter.
 */
module PosixPath {

  /** An absolute path, as its segments below `/`. */
  type Path = seq<string>

  predicate IsNormalSegment(s: string) {
    |s| > 0 && '/' !in s && s != "." && s != ".."
  }

  /** A path that is already normalised: every segment is a plain name. */
  predicate IsNormal(p: Path) {
    forall i :: 0 <= i < |p| ==> IsNormalSegment(p[i])
  }

  predicate IsAbsolute(s: string) {
    |s| > 0 && s[0] == '/'
  }

  /** Splits a string at every `/`, keeping empty pieces. */
  function Split(s: string): (parts: seq<string>)
    ensures |parts| >= 1
    ensures forall i :: 0 <= i < |parts| ==> '/' !in parts[i]
  {
    if |s| == 0 then [""]
    else if s[0] == '/' then [""] + Split(s[1..])
    else
      var rest := Split(s[1..]);
      [[s[0]] + rest[0]] + rest[1..]
  }

  /** Glues pieces back together with `/` between them; the inverse of `Split`. */
  function JoinSlash(parts: seq<string>): string
    requires |parts| >= 1
    decreases |parts|
  {
    if |parts| == 1 then parts[0] else parts[0] + "/" + JoinSlash(parts[1..])
  }

  /** One normalisation step for a single segment. */
  function Step(stack: Path, seg: string): Path {
    if seg == "" || seg == "." then stack
    else if seg == ".." then (if |stack| == 0 then stack else stack[..|stack| - 1])
    else stack + [seg]
  }

  /** Normalises the segments `segs` on top of the already resolved `stack`. */
  function Normalize(stack: Path, segs: seq<string>): (p: Path)
    decreases |segs|
  {
    if |segs| == 0 then stack else Normalize(Step(stack, segs[0]), segs[1..])
  }

  /** Resolves one argument against an already resolved base. */
  function ResolveFrom(base: Path, arg: string): Path {
    Normalize(if IsAbsolute(arg) then [] else base, Split(arg))
  }

  /** `path.resolve(args...)` with the process working directory `cwd`. */
  function Resolve(cwd: Path, args: seq<string>): Path
    decreases |args|
  {
    if |args| == 0 then cwd else ResolveFrom(Resolve(cwd, args[..|args| - 1]), args[|args| - 1])
  }

  function Slashed(p: Path): string
    decreases |p|
  {
    if |p| == 0 then "" else "/" + p[0] + Slashed(p[1..])
  }

  /** The string `path.resolve` returns for a resolved path. */
  function Format(p: Path): (s: string)
    ensures IsAbsolute(s)
  {
    if |p| == 0 then "/" else Slashed(p)
  }

  /** `q` is `root` itself or lies below it. */
  predicate IsDescendantOrSelf(root: Path, q: Path) {
    |root| <= |q| && q[..|root|] == root
  }

  /**
   Exactly the pairs for which `Format(root)` is a string prefix of `Format(q)`:
   `q` agrees with `root` on every segment but the last one of `root`, and at
   that position `q`'s segment merely starts with `root`'s.
   */
  predicate IsPrefixCovered(root: Path, q: Path) {
    |root| == 0 ||
    (|root| <= |q| && q[..|root| - 1] == root[..|root| - 1] && root[|root| - 1] <= q[|root| - 1])
  }

  // ---------------------------------------------------------------------------
  // Splitting and joining

  lemma {:induction false} SplitJoin(s: string)
    ensures JoinSlash(Split(s)) == s
    decreases |s|
  {
    if |s| == 0 {
    } else if s[0] == '/' {
      SplitJoin(s[1..]);
      assert Split(s) == [""] + Split(s[1..]);
      assert (Split(s))[1..] == Split(s[1..]);
    } else {
      var rest := Split(s[1..]);
      SplitJoin(s[1..]);
      if |rest| == 1 {
        assert Split(s) == [[s[0]] + rest[0]];
        assert rest[0] == s[1..];
      } else {
        assert Split(s)[1..] == rest[1..];
        assert JoinSlash(rest) == rest[0] + "/" + JoinSlash(rest[1..]);
        assert JoinSlash(Split(s)) == [s[0]] + rest[0] + "/" + JoinSlash(rest[1..]);
        assert [s[0]] + s[1..] == s;
      }
    }
  }

  /** A piece without `/` glued to the front of a string extends its first piece. */
  lemma {:induction false} SplitCons(a: string, rest: string)
    requires '/' !in a
    ensures Split(a + rest) == [a + Split(rest)[0]] + Split(rest)[1..]
    decreases |a|
  {
    if |a| == 0 {
      var parts := Split(rest);
      assert a + rest == rest;
      assert a + parts[0] == parts[0];
      assert parts == [parts[0]] + parts[1..];
    } else {
      SplitCons(a[1..], rest);
      assert (a + rest)[0] == a[0];
      assert (a + rest)[1..] == a[1..] + rest;
      assert [a[0]] + (a[1..] + Split(rest)[0]) == a + Split(rest)[0];
    }
  }

  /** A name without `/` splits into itself. */
  lemma SplitName(a: string)
    requires '/' !in a
    ensures Split(a) == [a]
  {
    SplitCons(a, "");
    assert a + "" == a;
  }

  /** A name without `/` followed by `/` is split off as the first piece. */
  lemma SplitFirstName(a: string, rest: string)
    requires '/' !in a
    ensures Split(a + "/" + rest) == [a] + Split(rest)
  {
    SplitCons(a, "/" + rest);
    assert a + "/" + rest == a + ("/" + rest);
    assert ("/" + rest)[0] == '/' && ("/" + rest)[1..] == rest;
    assert Split("/" + rest) == [""] + Split(rest);
    assert a + "" == a;
  }

  lemma {:induction false} SplitSlashed(p: Path)
    requires IsNormal(p)
    requires |p| > 0
    ensures Split(Slashed(p)) == [""] + p
    decreases |p|
  {
    var tail := Slashed(p[1..]);
    assert Slashed(p) == "/" + (p[0] + tail);
    assert (Slashed(p))[1..] == p[0] + tail;
    if |p| == 1 {
      assert tail == "";
      assert p[0] + tail == p[0];
      SplitCons(p[0], "");
    } else {
      SplitSlashed(p[1..]);
      SplitCons(p[0], tail);
      assert p[0] + "" == p[0];
      assert [p[0]] + p[1..] == p;
    }
  }

  // ---------------------------------------------------------------------------
  // Normalisation

  lemma {:induction false} NormalizeIsNormal(stack: Path, segs: seq<string>)
    requires IsNormal(stack)
    requires forall i :: 0 <= i < |segs| ==> '/' !in segs[i]
    ensures IsNormal(Normalize(stack, segs))
    decreases |segs|
  {
    if |segs| > 0 {
      NormalizeIsNormal(Step(stack, segs[0]), segs[1..]);
    }
  }

  /** Normalising already normal segments just appends them. */
  lemma {:induction false} NormalizeNormal(stack: Path, p: Path)
    requires IsNormal(p)
    ensures Normalize(stack, p) == stack + p
    decreases |p|
  {
    if |p| > 0 {
      NormalizeNormal(stack + [p[0]], p[1..]);
      assert stack + [p[0]] + p[1..] == stack + p;
    }
  }

  /** Segments without `..` can only extend the stack. */
  lemma {:induction false} NormalizeExtends(stack: Path, segs: seq<string>)
    requires forall i :: 0 <= i < |segs| ==> segs[i] != ".."
    ensures IsDescendantOrSelf(stack, Normalize(stack, segs))
    decreases |segs|
  {
    if |segs| > 0 {
      var next := Step(stack, segs[0]);
      NormalizeExtends(next, segs[1..]);
      assert IsDescendantOrSelf(stack, next);
      var r := Normalize(next, segs[1..]);
      assert r[..|next|][..|stack|] == r[..|stack|];
    }
  }

  /** `..` never climbs above `/`: normalising is defined for every input. */
  lemma {:induction false} NormalizeAtRoot(segs: seq<string>)
    requires forall i :: 0 <= i < |segs| ==> segs[i] == ".."
    ensures Normalize([], segs) == []
    decreases |segs|
  {
    if |segs| > 0 {
      NormalizeAtRoot(segs[1..]);
    }
  }

  lemma ResolveFromIsNormal(base: Path, arg: string)
    requires IsNormal(base)
    ensures IsNormal(ResolveFrom(base, arg))
  {
    NormalizeIsNormal(if IsAbsolute(arg) then [] else base, Split(arg));
  }

  lemma {:induction false} ResolveIsNormal(cwd: Path, args: seq<string>)
    requires IsNormal(cwd)
    ensures IsNormal(Resolve(cwd, args))
    decreases |args|
  {
    if |args| > 0 {
      ResolveIsNormal(cwd, args[..|args| - 1]);
      ResolveFromIsNormal(Resolve(cwd, args[..|args| - 1]), args[|args| - 1]);
    }
  }

  /** Resolving the printed form of a resolved path gives it back, whatever the base. */
  lemma FormatRoundTrip(base: Path, p: Path)
    requires IsNormal(p)
    ensures ResolveFrom(base, Format(p)) == p
  {
    if |p| == 0 {
      assert Split("/") == [""] + Split("");
      assert Normalize([], ["", ""]) == [];
    } else {
      SplitSlashed(p);
      NormalizeNormal([], p);
      assert Normalize([], [""] + p) == Normalize([], p);
    }
  }

  // ---------------------------------------------------------------------------
  // What a string-prefix test on printed paths means

  lemma {:induction false} SlashedAppend(a: Path, b: Path)
    ensures Slashed(a + b) == Slashed(a) + Slashed(b)
    decreases |a|
  {
    if |a| == 0 {
      assert a + b == b;
    } else {
      SlashedAppend(a[1..], b);
      assert (a + b)[1..] == a[1..] + b;
    }
  }

  lemma SlashedStartsWithSlash(p: Path)
    requires |p| > 0
    ensures Slashed(p)[0] == '/'
  {
  }

  /** A descendant's printed form starts with the ancestor's printed form. */
  lemma DescendantIsPrefixed(root: Path, q: Path)
    requires IsDescendantOrSelf(root, q)
    ensures Format(root) <= Format(q)
  {
    if |root| > 0 {
      assert q == root + q[|root|..];
      SlashedAppend(root, q[|root|..]);
    }
  }

  /** Sufficient direction of the characterisation of the prefix test. */
  lemma PrefixCoveredIsPrefixed(root: Path, q: Path)
    requires IsPrefixCovered(root, q)
    ensures Format(root) <= Format(q)
  {
    if |root| > 0 {
      var k := |root| - 1;
      assert root == root[..k] + [root[k]];
      assert q == q[..k] + [q[k]] + q[k + 1..];
      SlashedAppend(root[..k], [root[k]]);
      SlashedAppend(q[..k] + [q[k]], q[k + 1..]);
      SlashedAppend(q[..k], [q[k]]);
      assert Slashed([root[k]]) == "/" + root[k];
      assert Slashed([q[k]]) == "/" + q[k];
      var pre := Slashed(root[..k]) + "/";
      assert Slashed(root) == pre + root[k];
      assert Slashed(q) == pre + q[k] + Slashed(q[k + 1..]);
      assert root[k] == q[k][..|root[k]|];
    }
  }

  lemma PrefixAgrees(x: string, y: string, i: int)
    requires x <= y
    requires 0 <= i < |x|
    ensures i < |y| && x[i] == y[i]
  {
  }

  lemma PrefixOfConcat(a: string, b: string, c: string, d: string)
    requires a + b <= c + d
    requires |a| == |c|
    ensures a == c && b <= d
  {
    assert (a + b)[..|a|] == a;
    assert (c + d)[..|c|] == c;
    assert forall i :: 0 <= i < |b| ==> b[i] == (a + b)[|a| + i] == (c + d)[|c| + i] == d[i];
  }

  /**
   Necessary direction: if `a` has no `/` and `a + s` is a prefix of
   `b + t`, where `t` is empty or starts with `/` and `s` is empty or starts
   with `/`, then either `s` is empty and `a` is a prefix of `b`, or the two
   names are equal and `s` is a prefix of `t`.
   */
  lemma NamePrefix(a: string, s: string, b: string, t: string)
    requires '/' !in a && '/' !in b
    requires s == "" || s[0] == '/'
    requires t == "" || t[0] == '/'
    requires a + s <= b + t
    ensures s == "" ==> a <= b
    ensures s != "" ==> a == b && s <= t
  {
    if |a| > |b| {
      PrefixAgrees(a + s, b + t, |b|);
      assert false;
    } else if s == "" {
      assert a + s == a;
      assert forall i :: 0 <= i < |a| ==> a[i] == (b + t)[i] == b[i];
    } else if |a| < |b| {
      PrefixAgrees(a + s, b + t, |a|);
      assert false;
    } else {
      PrefixOfConcat(a, s, b, t);
    }
  }

  lemma {:induction false} PrefixedIsPrefixCovered(root: Path, q: Path)
    requires IsNormal(root) && IsNormal(q)
    requires Format(root) <= Format(q)
    ensures IsPrefixCovered(root, q)
    decreases |root|
  {
    if |root| > 0 {
      if |q| == 0 {
        assert false;
      }
      var a, s := root[0], Slashed(root[1..]);
      var b, t := q[0], Slashed(q[1..]);
      assert Slashed(root) == "/" + (a + s);
      assert Slashed(q) == "/" + (b + t);
      PrefixOfConcat("/", a + s, "/", b + t);
      if |root| > 1 { SlashedStartsWithSlash(root[1..]); }
      if |q| > 1 { SlashedStartsWithSlash(q[1..]); }
      assert IsNormalSegment(root[0]) && IsNormalSegment(q[0]);
      NamePrefix(a, s, b, t);
      if |root| > 1 {
        assert |q| > 1;
        PrefixedIsPrefixCovered(root[1..], q[1..]);
        assert q[1..][..|root| - 2] == q[1..|root| - 1];
        assert q[..|root| - 1] == [q[0]] + q[1..|root| - 1];
        assert root[..|root| - 1] == [root[0]] + root[1..|root| - 1];
      }
    }
  }

  /** The string-prefix test on printed normal paths, exactly. */
  lemma PrefixTestCharacterisation(root: Path, q: Path)
    requires IsNormal(root) && IsNormal(q)
    ensures Format(root) <= Format(q) <==> IsPrefixCovered(root, q)
  {
    if Format(root) <= Format(q) {
      PrefixedIsPrefixCovered(root, q);
    }
    if IsPrefixCovered(root, q) {
      PrefixCoveredIsPrefixed(root, q);
    }
  }
}
