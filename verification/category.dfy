/** Materialised category paths. */
module CategoryPaths {
  import opened Wrappers
  import opened Paths
  import Authz

  datatype Error = Invalid | Conflict | NotFound

  const ROOT := "/"
  const MAX_DIRECTORY := 64

  /** Begins and ends with a slash, with no empty segment between. */
  predicate ValidPath(p: string) {
    && p != "" && p[0] == '/' && p[|p| - 1] == '/'
    && NoDoubleSlash(p)
  }

  /** The unreserved characters of section 2.3 of RFC 3986. */
  predicate Unreserved(c: char) {
    'a' <= c <= 'z' || 'A' <= c <= 'Z' || '0' <= c <= '9' || c in "-_.~"
  }

  predicate ValidDirectory(s: string) {
    && 0 < |s| <= MAX_DIRECTORY
    && s != "." && s != ".."
    && forall k :: 0 <= k < |s| ==> Unreserved(s[k])
  }

  lemma DirectoryHasNoSlash(s: string)
    requires ValidDirectory(s)
    ensures '/' !in s
  {
  }

  function JoinPath(parent: string, directory: string): (r: Result<string, Error>)
    ensures r.Ok? <==> ValidPath(parent) && ValidDirectory(directory)
    ensures r.Ok? ==> ValidPath(r.value) && parent <= r.value
    ensures r.Err? ==> r.error == Invalid
  {
    if !ValidPath(parent) || !ValidDirectory(directory) then Err(Invalid)
    else
      DirectoryHasNoSlash(directory);
      JoinIsValid(parent, directory);
      Ok(parent + directory + "/")
  }

  lemma JoinIsValid(parent: string, directory: string)
    requires ValidPath(parent) && directory != "" && '/' !in directory
    ensures ValidPath(parent + directory + "/")
  {
    var p := parent + directory + "/";
    forall k | 0 <= k < |p| ensures !DoubleSlashAt(p, k) {
      if k + 1 < |parent| {
        assert !DoubleSlashAt(parent, k);
      } else if k + 1 < |parent| + |directory| {
        assert p[k + 1] == directory[k + 1 - |parent|];
      } else if k + 1 < |p| {
        assert p[k] == directory[k - |parent|];
      }
    }
  }

  /** At or below: a plain prefix, because both end in a slash. */
  predicate IsDescendant(parent: string, child: string) {
    parent <= child
  }

  function Rewrite(path: string, oldPrefix: string, newPrefix: string): string {
    if !IsDescendant(oldPrefix, path) then path else newPrefix + path[|oldPrefix|..]
  }

  /** A prefix of a child's path that ends in a slash is the child's path or within its parent's. */
  lemma PrefixOfChild(parent: string, directory: string, q: string)
    requires q != "" && q[|q| - 1] == '/' && '/' !in directory
    requires q <= parent + directory + "/"
    ensures q == parent + directory + "/" || q <= parent
  {
    var p := parent + directory + "/";
    assert forall k :: |parent| <= k < |parent| + |directory| ==> p[k] == directory[k - |parent|];
    assert p[|q| - 1] == q[|q| - 1];
  }

  // ---------------------------------------------------------------------
  // Ancestors
  // ---------------------------------------------------------------------

  function Slashes(s: string): nat {
    if s == "" then 0 else Slashes(s[..|s| - 1]) + if s[|s| - 1] == '/' then 1 else 0
  }

  function TrimLeft(s: string): string {
    if s != "" && s[0] == '/' then TrimLeft(s[1..]) else s
  }

  function TrimRight(s: string): string {
    if s != "" && s[|s| - 1] == '/' then TrimRight(s[..|s| - 1]) else s
  }

  function PathDepth(p: string): nat {
    var trimmed := TrimRight(TrimLeft(p));
    if trimmed == "" then 0 else Slashes(trimmed) + 1
  }

  lemma {:induction false} SlashesConcat(a: string, b: string)
    ensures Slashes(a + b) == Slashes(a) + Slashes(b)
    decreases |b|
  {
    if b == "" {
      assert a + b == a;
    } else {
      assert (a + b)[..|a + b| - 1] == a + b[..|b| - 1];
      SlashesConcat(a, b[..|b| - 1]);
    }
  }

  lemma {:induction false} NoSlashes(s: string)
    requires '/' !in s
    ensures Slashes(s) == 0
    decreases |s|
  {
    if s != "" { NoSlashes(s[..|s| - 1]); }
  }

  lemma TrimValid(p: string)
    requires ValidPath(p) && p != ROOT
    ensures |p| > 2 && TrimRight(TrimLeft(p)) == p[1..|p| - 1]
  {
    assert |p| >= 2;
    assert !DoubleSlashAt(p, 0);
    assert !DoubleSlashAt(p, |p| - 2);
    var t := p[1..];
    assert TrimLeft(p) == TrimLeft(t) == t;
    assert t[..|t| - 1] == p[1..|p| - 1];
    assert TrimRight(t) == TrimRight(p[1..|p| - 1]) == p[1..|p| - 1];
  }

  /** A valid path is one slash longer than it is deep. */
  lemma DepthCountsSlashes(p: string)
    requires ValidPath(p)
    ensures Slashes(p) == PathDepth(p) + 1
  {
    if p == ROOT {
      assert TrimLeft(p) == TrimLeft("");
      assert Slashes(p) == Slashes("") + 1;
    } else {
      TrimValid(p);
      var inner := p[1..|p| - 1];
      assert p == ("/" + inner) + "/";
      SlashesConcat("/" + inner, "/");
      SlashesConcat("/", inner);
      assert Slashes("/") == Slashes("") + 1;
    }
  }

  /** Everything up to and including the slash before the last segment. */
  function ParentPath(p: string): string
    requires p != ""
  {
    p[..LastSlash(p[..|p| - 1]) + 1]
  }

  lemma ParentOfValid(p: string)
    requires ValidPath(p) && p != ROOT
    ensures var q := ParentPath(p);
            && ValidPath(q) && q < p && Slashes(q) + 1 == Slashes(p)
            && forall a :: ValidPath(a) && a <= p && a != p ==> a <= q
  {
    var inner := p[..|p| - 1];
    var cut := LastSlash(inner);
    var q := ParentPath(p);
    assert inner[0] == '/';
    hide LastSlash;
    forall k | 0 <= k < |q| ensures !DoubleSlashAt(q, k) { assert !DoubleSlashAt(p, k); }
    var segment := inner[cut + 1..];
    assert p == q + segment + "/";
    assert '/' !in segment;
    SlashesConcat(q + segment, "/");
    SlashesConcat(q, segment);
    NoSlashes(segment);
    assert Slashes("/") == Slashes("") + 1;
    forall a | ValidPath(a) && a <= p && a != p ensures a <= q {
      PrefixOfChild(q, segment, a);
    }
  }

  /** The path and every ancestor of it, deepest first, ending at the root. */
  method AncestorPaths(path: string) returns (out: seq<string>)
    ensures !ValidPath(path) ==> out == []
    ensures ValidPath(path) ==> |out| == PathDepth(path) + 1 && out[0] == path && out[|out| - 1] == ROOT
    ensures forall q :: q in out <==> ValidPath(path) && ValidPath(q) && IsDescendant(q, path)
    ensures forall i, j :: 0 <= i < j < |out| ==> |out[i]| > |out[j]|
  {
    hide PathDepth, Slashes, ParentPath, ValidPath;
    if !ValidPath(path) {
      return [];
    }
    DepthCountsSlashes(path);
    PathsAreNotEmpty(path);
    var p := path;
    out := [path];
    assert forall q :: q <= path && |path| <= |q| ==> q == path;
    while p != ROOT
      invariant ValidPath(p) && p <= path
      invariant 0 < |out| && |out| + Slashes(p) == Slashes(path) + 1
      invariant out[0] == path && out[|out| - 1] == p
      invariant forall q :: q in out ==> ValidPath(q) && q <= path && |p| <= |q|
      invariant forall q :: ValidPath(q) && q <= path && |p| <= |q| ==> q in out
      invariant forall i, j :: 0 <= i < j < |out| ==> |out[i]| > |out[j]|
      decreases |p|
    {
      ParentOfValid(p);
      StepUp(path, p);
      PathsAreNotEmpty(p);
      p := ParentPath(p);
      out := out + [p];
    }
    RootIsAbove(path);
  }

  lemma PathsAreNotEmpty(path: string)
    requires ValidPath(path)
    ensures path != ""
  {
  }

  lemma StepUp(path: string, p: string)
    requires ValidPath(p) && p != ROOT && p <= path
    ensures var q := ParentPath(p);
            forall a :: ValidPath(a) && a <= path && |q| <= |a| ==> a == q || |p| <= |a|
  {
    ParentOfValid(p);
    hide ParentPath, Slashes;
    forall a | ValidPath(a) && a <= path && |ParentPath(p)| <= |a| < |p| ensures a == ParentPath(p) {
      assert a <= p;
    }
  }

  lemma RootIsAbove(path: string)
    requires ValidPath(path)
    ensures Slashes(ROOT) == 1 && forall q :: ValidPath(q) ==> |ROOT| <= |q|
  {
    assert Slashes(ROOT) == Slashes("") + 1;
  }

  /** The prefix order on valid paths is what a deep category scope matches. */
  lemma DeepScopeMatchesDescendants(p: string, q: string)
    requires ValidPath(p) && ValidPath(q)
    ensures Authz.CategoryMatches(p, true, q) <==> IsDescendant(p, q)
    ensures Authz.CategoryMatches(p, false, q) <==> IsDescendant(p, q) && PathDepth(p) == PathDepth(q)
  {
    DepthCountsSlashes(p);
    DepthCountsSlashes(q);
    if IsDescendant(p, q) && p != q {
      DeeperHasMoreSlashes(p, q);
    }
  }

  lemma DeeperHasMoreSlashes(p: string, q: string)
    requires p < q && ValidPath(q)
    ensures Slashes(p) < Slashes(q)
  {
    var rest := q[|p|..];
    assert q == p + rest && rest[|rest| - 1] == '/';
    SlashesConcat(p, rest);
  }
}
