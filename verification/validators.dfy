/**
 The server's identifier validators, `isValidWorkspaceName` and
 `isValidFilename`: a non-empty name of at most 255 characters that matches an
 allow-list pattern and whose resolved path starts, as a string, with the
 resolved workspace folder.
 */
module Validators {
  import opened PosixPath

  const MaxNameLength: nat := 255

  predicate IsAlnum(c: char) {
    ('a' <= c <= 'z') || ('A' <= c <= 'Z') || ('0' <= c <= '9')
  }

  /** The class `[a-zA-Z0-9_-]`. */
  predicate IsWordChar(c: char) {
    IsAlnum(c) || c == '_' || c == '-'
  }

  /** The class `[a-zA-Z0-9_/.-]`. */
  predicate IsWorkspaceChar(c: char) {
    IsWordChar(c) || c == '/' || c == '.'
  }

  /** `/^[a-zA-Z0-9_/.-]+$/` */
  predicate MatchesWorkspacePattern(s: string) {
    |s| > 0 && forall i :: 0 <= i < |s| ==> IsWorkspaceChar(s[i])
  }

  predicate AllWord(s: string) {
    forall i :: 0 <= i < |s| ==> IsWordChar(s[i])
  }

  predicate AllAlnum(s: string) {
    forall i :: 0 <= i < |s| ==> IsAlnum(s[i])
  }

  /** `/^[a-zA-Z0-9_-]+(\.[a-zA-Z0-9]+)?$/`: a stem, then at most one `.alnum+` extension. */
  predicate MatchesFilenamePattern(s: string) {
    (|s| > 0 && AllWord(s)) ||
    exists i :: 0 < i < |s| - 1 && s[i] == '.' && AllWord(s[..i]) && AllAlnum(s[i + 1..])
  }

  /** `isValidWorkspaceName(workspaceFolder, workspaceName)`, with the process working directory `cwd`. */
  function IsValidWorkspaceName(cwd: Path, workspaceFolder: string, workspaceName: string): bool {
    if |workspaceName| == 0 then false
    else if |workspaceName| > MaxNameLength then false
    else if !MatchesWorkspacePattern(workspaceName) then false
    else
      var safeDirectory := Format(Resolve(cwd, [workspaceFolder]));
      var resolvedPath := Format(Resolve(cwd, [safeDirectory, workspaceName]));
      safeDirectory <= resolvedPath
  }

  /** `isValidFilename(workspaceFolder, filename)`, with the process working directory `cwd`. */
  function IsValidFilename(cwd: Path, workspaceFolder: string, filename: string): bool {
    if |filename| == 0 then false
    else if |filename| > MaxNameLength then false
    else if !MatchesFilenamePattern(filename) then false
    else
      var safeDirectory := Format(Resolve(cwd, [workspaceFolder]));
      var resolvedPath := Format(Resolve(cwd, [safeDirectory, filename]));
      safeDirectory <= resolvedPath
  }

  // ---------------------------------------------------------------------------
  // The filename pattern as the regular-expression engine runs it

  /** States of the automaton for the filename pattern. */
  datatype ScanState = Start | Stem | Dot | Extension | Reject

  function Next(st: ScanState, c: char): ScanState {
    match st
    case Start => if IsWordChar(c) then Stem else Reject
    case Stem => if IsWordChar(c) then Stem else if c == '.' then Dot else Reject
    case Dot => if IsAlnum(c) then Extension else Reject
    case Extension => if IsAlnum(c) then Extension else Reject
    case Reject => Reject
  }

  predicate InStem(p: string) {
    |p| > 0 && AllWord(p)
  }

  predicate InDot(p: string) {
    |p| > 1 && p[|p| - 1] == '.' && AllWord(p[..|p| - 1])
  }

  predicate InExtension(p: string) {
    exists i :: 0 < i < |p| - 1 && p[i] == '.' && AllWord(p[..i]) && AllAlnum(p[i + 1..])
  }

  lemma StemStep(p: string, c: char)
    ensures InStem(p + [c]) <==> (p == [] || InStem(p)) && IsWordChar(c)
  {
    var q := p + [c];
    assert q[..|p|] == p;
    assert q[|p|] == c;
  }

  lemma DotStep(p: string, c: char)
    ensures InDot(p + [c]) <==> InStem(p) && c == '.'
  {
    var q := p + [c];
    assert q[..|q| - 1] == p;
  }

  lemma ExtensionStepBack(p: string, c: char)
    requires InExtension(p + [c])
    ensures (InDot(p) || InExtension(p)) && IsAlnum(c)
  {
    var q := p + [c];
    var i :| 0 < i < |q| - 1 && q[i] == '.' && AllWord(q[..i]) && AllAlnum(q[i + 1..]);
    assert q[..i] == p[..i];
    assert q[i + 1..][|q| - i - 2] == c;
    if i < |p| - 1 {
      assert p[i + 1..] == q[i + 1..][..|p| - i - 1];
      assert InExtension(p);
    }
  }

  lemma ExtensionStepForward(p: string, c: char)
    requires InDot(p) || InExtension(p)
    requires IsAlnum(c)
    ensures InExtension(p + [c])
  {
    var q := p + [c];
    if InDot(p) {
      var i := |p| - 1;
      assert q[..i] == p[..i];
      assert q[i + 1..] == [c];
    } else {
      var i :| 0 < i < |p| - 1 && p[i] == '.' && AllWord(p[..i]) && AllAlnum(p[i + 1..]);
      assert q[..i] == p[..i];
      assert q[i + 1..] == p[i + 1..] + [c];
    }
  }

  lemma ExtensionStep(p: string, c: char)
    ensures InExtension(p + [c]) <==> (InDot(p) || InExtension(p)) && IsAlnum(c)
  {
    if InExtension(p + [c]) {
      ExtensionStepBack(p, c);
    }
    if (InDot(p) || InExtension(p)) && IsAlnum(c) {
      ExtensionStepForward(p, c);
    }
  }

  /** `safePattern.test(filename)` for the filename pattern, scanning left to right. */
  method TestFilenamePattern(s: string) returns (matched: bool)
    ensures matched <==> MatchesFilenamePattern(s)
  {
    var st := Start;
    var k := 0;
    while k < |s|
      invariant 0 <= k <= |s|
      invariant st == Start <==> k == 0
      invariant st == Stem <==> InStem(s[..k])
      invariant st == Dot <==> InDot(s[..k])
      invariant st == Extension <==> InExtension(s[..k])
    {
      StemStep(s[..k], s[k]);
      DotStep(s[..k], s[k]);
      ExtensionStep(s[..k], s[k]);
      assert s[..k + 1] == s[..k] + [s[k]];
      st := Next(st, s[k]);
      k := k + 1;
    }
    assert s[..k] == s;
    matched := st == Stem || st == Extension;
  }

  // ---------------------------------------------------------------------------
  // What the validators guarantee

  /** The double `path.resolve` in the validators collapses to one resolution under the root. */
  lemma ResolveUnderRoot(cwd: Path, workspaceFolder: string, name: string)
    requires IsNormal(cwd)
    ensures var root := Resolve(cwd, [workspaceFolder]);
            IsNormal(root) &&
            Resolve(cwd, [Format(root), name]) == ResolveFrom(root, name) &&
            IsNormal(ResolveFrom(root, name))
  {
    var root := Resolve(cwd, [workspaceFolder]);
    ResolveIsNormal(cwd, [workspaceFolder]);
    assert [Format(root), name][..1] == [Format(root)];
    assert [Format(root)][..0] == [];
    FormatRoundTrip(cwd, root);
    ResolveFromIsNormal(root, name);
  }

  /**
   What `isValidWorkspaceName` accepts, exactly: the length and pattern checks,
   and a resolved path whose printed form merely starts with the root's.
   */
  lemma WorkspaceNameCharacterisation(cwd: Path, workspaceFolder: string, name: string)
    requires IsNormal(cwd)
    ensures var root := Resolve(cwd, [workspaceFolder]);
            IsValidWorkspaceName(cwd, workspaceFolder, name) <==>
              0 < |name| <= MaxNameLength && MatchesWorkspacePattern(name) &&
              IsPrefixCovered(root, ResolveFrom(root, name))
  {
    var root := Resolve(cwd, [workspaceFolder]);
    ResolveUnderRoot(cwd, workspaceFolder, name);
    PrefixTestCharacterisation(root, ResolveFrom(root, name));
  }

  /** A relative name with no `..` segment is accepted and resolves inside the root. */
  lemma RelativeNameStaysInside(cwd: Path, workspaceFolder: string, name: string)
    requires IsNormal(cwd)
    requires 0 < |name| <= MaxNameLength && MatchesWorkspacePattern(name)
    requires !IsAbsolute(name)
    requires forall i :: 0 <= i < |Split(name)| ==> Split(name)[i] != ".."
    ensures var root := Resolve(cwd, [workspaceFolder]);
            IsValidWorkspaceName(cwd, workspaceFolder, name) &&
            IsDescendantOrSelf(root, ResolveFrom(root, name))
  {
    var root := Resolve(cwd, [workspaceFolder]);
    ResolveUnderRoot(cwd, workspaceFolder, name);
    NormalizeExtends(root, Split(name));
    DescendantIsPrefixed(root, ResolveFrom(root, name));
  }

  lemma ResolveSrvWs()
    ensures Resolve([], ["/srv/ws"]) == ["srv", "ws"]
  {
    SplitName("ws");
    SplitFirstName("srv", "ws");
    SplitFirstName("", "srv/ws");
    assert "" + "/" + "srv/ws" == "/srv/ws";
    assert "srv" + "/" + "ws" == "srv/ws";
    assert Split("/srv/ws") == ["", "srv", "ws"];
    assert ["/srv/ws"][..0] == [];
    assert Resolve([], ["/srv/ws"]) == ResolveFrom([], "/srv/ws");
    assert Normalize([], ["", "srv", "ws"]) == Normalize([], ["srv", "ws"]);
    assert Normalize([], ["srv", "ws"]) == Normalize(["srv"], ["ws"]);
  }

  lemma ResolveSibling()
    ensures ResolveFrom(["srv", "ws"], "../ws2") == ["srv", "ws2"]
  {
    SplitName("ws2");
    SplitFirstName("..", "ws2");
    assert ".." + "/" + "ws2" == "../ws2";
    assert Split("../ws2") == ["..", "ws2"];
    assert !IsAbsolute("../ws2");
    assert Normalize(["srv", "ws"], ["..", "ws2"]) == Normalize(["srv"], ["ws2"]);
    assert Normalize(["srv"], ["ws2"]) == Normalize(["srv", "ws2"], []);
  }

  /**
   The test is a string-prefix test, not a descendant test: under the folder
   `/srv/ws` the sibling `../ws2` is accepted although it resolves outside.
   */
  lemma SiblingOfRootAccepted()
    ensures IsValidWorkspaceName([], "/srv/ws", "../ws2")
    ensures !IsDescendantOrSelf(Resolve([], ["/srv/ws"]), ResolveFrom(Resolve([], ["/srv/ws"]), "../ws2"))
  {
    ResolveSrvWs();
    ResolveSibling();
    assert MatchesWorkspacePattern("../ws2") by {
      var n := "../ws2";
      assert n[0] == '.' && n[1] == '.' && n[2] == '/' && n[3] == 'w' && n[4] == 's' && n[5] == '2';
    }
    WorkspaceNameCharacterisation([], "/srv/ws", "../ws2");
    var root: Path := ["srv", "ws"];
    var q: Path := ["srv", "ws2"];
    assert q[..1] == root[..1];
    assert "ws" <= "ws2";
    assert IsPrefixCovered(root, q);
    assert q[..2] != root by { assert q[1] != root[1]; }
  }

  lemma ResolveRootFolder(cwd: Path)
    ensures Resolve(cwd, ["/"]) == []
  {
    SplitFirstName("", "");
    assert "" + "/" + "" == "/";
    assert Split("/") == ["", ""];
    assert ["/"][..0] == [];
    assert Resolve(cwd, ["/"]) == ResolveFrom(cwd, "/");
    assert IsAbsolute("/");
    assert Normalize([], ["", ""]) == Normalize([], [""]);
  }

  /** With the folder at `/` every name that passes the pattern is accepted, `../../etc/passwd` included. */
  lemma RootFolderAcceptsAnyPatternName(cwd: Path, name: string)
    requires IsNormal(cwd)
    requires 0 < |name| <= MaxNameLength && MatchesWorkspacePattern(name)
    ensures IsValidWorkspaceName(cwd, "/", name)
  {
    ResolveRootFolder(cwd);
    WorkspaceNameCharacterisation(cwd, "/", name);
  }

  /** An absolute name ignores the root entirely; it passes only if it happens to print under it. */
  lemma AbsoluteNameIgnoresRoot(root1: Path, root2: Path, name: string)
    requires IsAbsolute(name)
    ensures ResolveFrom(root1, name) == ResolveFrom(root2, name)
  {
  }

  /** A name that matches the filename pattern is a single plain path segment. */
  lemma FilenameIsSegment(f: string)
    requires MatchesFilenamePattern(f)
    ensures IsNormalSegment(f)
    ensures Split(f) == [f]
  {
    assert IsWordChar(f[0]) by {
      if !(|f| > 0 && AllWord(f)) {
        var i :| 0 < i < |f| - 1 && f[i] == '.' && AllWord(f[..i]) && AllAlnum(f[i + 1..]);
        assert f[..i][0] == f[0];
      }
    }
    assert '/' !in f by {
      forall j | 0 <= j < |f|
        ensures f[j] != '/'
      {
        if !(|f| > 0 && AllWord(f)) {
          var i :| 0 < i < |f| - 1 && f[i] == '.' && AllWord(f[..i]) && AllAlnum(f[i + 1..]);
          if j < i {
            assert f[..i][j] == f[j];
          } else if j > i {
            assert f[i + 1..][j - i - 1] == f[j];
          }
        }
      }
    }
    assert f != "." && f != "..";
    SplitCons(f, "");
    assert f + "" == f;
  }

  /** `isValidFilename` never fails its traversal check: it is the length and pattern checks alone. */
  lemma FilenameCharacterisation(cwd: Path, workspaceFolder: string, f: string)
    requires IsNormal(cwd)
    ensures IsValidFilename(cwd, workspaceFolder, f) <==>
              0 < |f| <= MaxNameLength && MatchesFilenamePattern(f)
    ensures IsValidFilename(cwd, workspaceFolder, f) ==>
              var root := Resolve(cwd, [workspaceFolder]);
              ResolveFrom(root, f) == root + [f]
  {
    if 0 < |f| <= MaxNameLength && MatchesFilenamePattern(f) {
      var root := Resolve(cwd, [workspaceFolder]);
      ResolveUnderRoot(cwd, workspaceFolder, f);
      FilenameIsSegment(f);
      assert IsNormal([f]);
      NormalizeNormal(root, [f]);
      assert IsDescendantOrSelf(root, root + [f]) by {
        assert (root + [f])[..|root|] == root;
      }
      DescendantIsPrefixed(root, root + [f]);
    }
  }
}
