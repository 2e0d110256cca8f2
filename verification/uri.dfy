/** Canonical addresses, and the files they are written to. */
module Uris {
  import opened Wrappers
  import opened Paths
  import OutputTree

  datatype Case = Mixed | Lower | Upper

  function FoldChar(c: char, mode: Case): char {
    if mode == Lower && 'A' <= c <= 'Z' then c + ('a' - 'A')
    else if mode == Upper && 'a' <= c <= 'z' then c - ('a' - 'A')
    else c
  }

  const CAPITALS := "ABCDEFGHIJKLMNOPQRSTUVWXYZ"
  const SMALLS := "abcdefghijklmnopqrstuvwxyz"

  lemma CapitalAt(i: nat)
    requires i < 26
    ensures |CAPITALS| == 26 && CAPITALS[i] as int == 'A' as int + i
  {
  }

  lemma SmallAt(i: nat)
    requires i < 26
    ensures |SMALLS| == 26 && SMALLS[i] as int == 'a' as int + i
  {
  }

  lemma LettersAre(c: char)
    ensures c !in CAPITALS ==> !('A' <= c <= 'Z')
    ensures c !in SMALLS ==> !('a' <= c <= 'z')
  {
    hide CAPITALS, SMALLS;
    if 'A' <= c <= 'Z' {
      CapitalAt(c as int - 'A' as int);
      assert CAPITALS[c as int - 'A' as int] == c;
    }
    if 'a' <= c <= 'z' {
      SmallAt(c as int - 'a' as int);
      assert SMALLS[c as int - 'a' as int] == c;
    }
  }

  /** The lower case of a capital is the small letter at its place in the alphabet, the
      upper case of a small one the capital there, and everything else stays. */
  lemma FoldExactly(i: nat, c: char, mode: Case)
    requires i < 26
    ensures |CAPITALS| == |SMALLS| == 26
    ensures FoldChar(CAPITALS[i], Lower) == SMALLS[i] && FoldChar(SMALLS[i], Upper) == CAPITALS[i]
    ensures mode == Mixed || (mode == Lower && c !in CAPITALS) || (mode == Upper && c !in SMALLS) ==>
              FoldChar(c, mode) == c
  {
    hide CAPITALS, SMALLS;
    CapitalAt(i);
    SmallAt(i);
    LettersAre(c);
  }

  function Fold(s: string, mode: Case): (t: string)
    ensures |t| == |s| && forall k :: 0 <= k < |s| ==> t[k] == FoldChar(s[k], mode)
  {
    seq(|s|, k requires 0 <= k < |s| => FoldChar(s[k], mode))
  }

  function FoldAll(segments: seq<string>, mode: Case): (r: seq<string>)
    ensures |r| == |segments| && forall k :: 0 <= k < |r| ==> r[k] == Fold(segments[k], mode)
  {
    seq(|segments|, k requires 0 <= k < |segments| => Fold(segments[k], mode))
  }

  function NonEmpty(segments: seq<string>): seq<string> {
    if segments == [] then []
    else
      var n := |segments| - 1;
      NonEmpty(segments[..n]) + if segments[n] == "" then [] else [segments[n]]
  }

  function JoinAll(segments: seq<string>): string {
    if segments == [] then "" else Join(segments)
  }

  /** The non-empty segments of an address, in order and in the channel's case. */
  function Canonical(uri: string, mode: Case): string {
    "/" + JoinAll(FoldAll(NonEmpty(Split(uri)), mode))
  }

  /** Absolute, no empty segment, and no trailing slash except at the root. */
  predicate IsCanonical(u: string) {
    u != "" && u[0] == '/' && NoDoubleSlash(u) && (u == "/" || u[|u| - 1] != '/')
  }

  /** Segments an address may consist of. */
  predicate Pieces(segments: seq<string>) {
    forall k :: 0 <= k < |segments| ==> segments[k] != "" && '/' !in segments[k]
  }

  method NormalizeURI(uri: string, mode: Case) returns (out: string)
    ensures out == Canonical(uri, mode)
  {
    hide Split, Fold, FoldAll, JoinAll;
    var pieces := Split(uri);
    var segments := [];
    for k := 0 to |pieces|
      invariant segments == NonEmpty(pieces[..k])
    {
      assert pieces[..k + 1][..k] == pieces[..k];
      if pieces[k] != "" {
        segments := segments + [pieces[k]];
      }
    }
    assert pieces[..|pieces|] == pieces;
    hide NonEmpty;
    FoldJoin(segments, mode);
    out := "/" + Fold(JoinAll(segments), mode);
  }

  // ---------------------------------------------------------------------
  // Splitting and folding
  // ---------------------------------------------------------------------

  lemma {:induction false} NonEmptyArePieces(segments: seq<string>)
    requires forall k :: 0 <= k < |segments| ==> '/' !in segments[k]
    ensures Pieces(NonEmpty(segments))
    decreases |segments|
  {
    if segments != [] { NonEmptyArePieces(segments[..|segments| - 1]); }
  }

  lemma {:induction false} PiecesAreNonEmpty(segments: seq<string>)
    requires Pieces(segments)
    ensures NonEmpty(segments) == segments
    decreases |segments|
  {
    if segments != [] {
      PiecesAreNonEmpty(segments[..|segments| - 1]);
      assert segments == segments[..|segments| - 1] + [segments[|segments| - 1]];
    }
  }

  lemma {:induction false} NonEmptyConcat(a: seq<string>, b: seq<string>)
    ensures NonEmpty(a + b) == NonEmpty(a) + NonEmpty(b)
    decreases |b|
  {
    if b == [] {
      assert a + b == a;
    } else {
      assert (a + b)[..|a + b| - 1] == a + b[..|b| - 1];
      NonEmptyConcat(a, b[..|b| - 1]);
    }
  }

  lemma FoldAround(a: string, b: string, mode: Case)
    ensures Fold(a + "/" + b, mode) == Fold(a, mode) + "/" + Fold(b, mode)
  {
  }

  /** Folding the case moves no slash. */
  lemma {:induction false} FoldJoin(segments: seq<string>, mode: Case)
    ensures Fold(JoinAll(segments), mode) == JoinAll(FoldAll(segments, mode))
    decreases |segments|
  {
    if |segments| > 1 {
      var n := |segments| - 1;
      hide Fold, FoldAll;
      FoldJoin(segments[..n], mode);
      assert FoldAll(segments, mode)[..n] == FoldAll(segments[..n], mode);
      FoldAround(Join(segments[..n]), segments[n], mode);
    }
  }

  lemma FoldKeepsPieces(segments: seq<string>, mode: Case)
    requires Pieces(segments)
    ensures Pieces(FoldAll(segments, mode))
  {
    var folded := FoldAll(segments, mode);
    forall k | 0 <= k < |folded| ensures folded[k] != "" && '/' !in folded[k] {
      var s := segments[k];
      assert s != "" && '/' !in s;
      assert forall i :: 0 <= i < |s| ==> s[i] != '/' && FoldChar(s[i], mode) != '/';
    }
  }

  lemma FoldTwice(segments: seq<string>, mode: Case)
    ensures FoldAll(FoldAll(segments, mode), mode) == FoldAll(segments, mode)
  {
    forall k | 0 <= k < |segments| ensures Fold(Fold(segments[k], mode), mode) == Fold(segments[k], mode) {
    }
  }

  lemma {:induction false} LeadingSlash(segments: seq<string>)
    requires segments != []
    ensures Join([""] + segments) == "/" + Join(segments)
    decreases |segments|
  {
    var n := |segments| - 1;
    assert ([""] + segments)[..n + 1] == [""] + segments[..n];
    if n > 0 {
      LeadingSlash(segments[..n]);
    } else {
      assert [""] + segments[..n] == [""];
    }
  }

  /** Taking apart what was joined gives the pieces back. */
  lemma PiecesComeBack(segments: seq<string>)
    requires Pieces(segments)
    ensures NonEmpty(Split("/" + JoinAll(segments))) == segments
  {
    if segments == [] {
      assert "/" + JoinAll(segments) == "" + "/" + "";
      SplitSnoc("", "");
      SplitOne("");
      NonEmptyConcat([""], [""]);
      assert NonEmpty([""]) == [];
    } else {
      LeadingSlash(segments);
      SplitJoin([""] + segments);
      NonEmptyConcat([""], segments);
      PiecesAreNonEmpty(segments);
    }
  }

  // ---------------------------------------------------------------------
  // The canonical form
  // ---------------------------------------------------------------------

  lemma {:induction false} JoinedPieces(segments: seq<string>)
    requires Pieces(segments) && segments != []
    ensures var j := Join(segments); j != "" && j[0] != '/' && j[|j| - 1] != '/' && NoDoubleSlash(j)
    decreases |segments|
  {
    var n := |segments| - 1;
    if n > 0 {
      JoinedPieces(segments[..n]);
      SlashBetween(Join(segments[..n]), segments[n]);
    }
  }

  lemma SlashBetween(a: string, b: string)
    requires a != "" && a[|a| - 1] != '/' && NoDoubleSlash(a)
    requires b != "" && '/' !in b
    ensures NoDoubleSlash(a + "/" + b) && (a + "/" + b)[|a| + |b|] != '/'
  {
    var p := a + "/" + b;
    forall k | 0 <= k < |p| ensures !DoubleSlashAt(p, k) {
      if k < |a| {
        assert !DoubleSlashAt(a, k);
      } else if k + 1 < |p| {
        assert p[k + 1] == b[k - |a|];
      }
    }
    assert p[|a| + |b|] == b[|b| - 1];
  }

  lemma SlashBefore(j: string)
    requires j != "" && j[0] != '/' && j[|j| - 1] != '/' && NoDoubleSlash(j)
    ensures IsCanonical("/" + j)
  {
    var u := "/" + j;
    forall k | 0 <= k < |u| ensures !DoubleSlashAt(u, k) {
      if k > 0 { assert !DoubleSlashAt(j, k - 1); }
    }
  }

  /** Normalising gives a canonical address with the same segments. */
  lemma CanonicalKeepsSegments(uri: string, mode: Case)
    ensures IsCanonical(Canonical(uri, mode))
    ensures NonEmpty(Split(Canonical(uri, mode))) == FoldAll(NonEmpty(Split(uri)), mode)
  {
    NonEmptyArePieces(Split(uri));
    hide Split, NonEmpty;
    FoldKeepsPieces(NonEmpty(Split(uri)), mode);
    var segments := FoldAll(NonEmpty(Split(uri)), mode);
    hide FoldAll;
    PiecesComeBack(segments);
    if segments != [] {
      JoinedPieces(segments);
      hide Join, Pieces;
      SlashBefore(Join(segments));
    }
  }

  lemma CanonicalIsIdempotent(uri: string, mode: Case)
    ensures Canonical(Canonical(uri, mode), mode) == Canonical(uri, mode)
  {
    hide IsCanonical, FoldAll, Split, NonEmpty, JoinAll;
    CanonicalKeepsSegments(uri, mode);
    FoldTwice(NonEmpty(Split(uri)), mode);
  }

  lemma FoldMixed(segments: seq<string>)
    ensures FoldAll(segments, Mixed) == segments
  {
    forall k | 0 <= k < |segments| ensures Fold(segments[k], Mixed) == segments[k] {
    }
  }

  /** The canonical addresses are exactly those that normalising leaves alone. */
  lemma FixpointsAreCanonical(u: string)
    ensures Canonical(u, Mixed) == u <==> IsCanonical(u)
  {
    CanonicalKeepsSegments(u, Mixed);
    if IsCanonical(u) {
      FoldMixed(NonEmpty(Split(u)));
      if u == "/" {
        CanonicalSegments(u);
      } else {
        var rest := Rejoined(u);
        hide NonEmpty, Split, FoldAll;
      }
    }
  }

  /** A canonical address is a slash and its segments joined. */
  lemma Rejoined(u: string) returns (rest: seq<string>)
    requires IsCanonical(u) && u != "/"
    ensures rest != [] && Pieces(rest) && rest == NonEmpty(Split(u)) && u == "/" + Join(rest)
  {
    CanonicalSegments(u);
    JoinSplit(u);
    hide NonEmpty, IsCanonical, Split, Pieces;
    rest := Split(u)[1..];
    assert Split(u) == [""] + rest;
    LeadingSlash(rest);
  }

  /** A canonical address splits into an empty piece and its segments. */
  lemma CanonicalSegments(u: string)
    requires IsCanonical(u)
    ensures Split(u)[0] == "" && NonEmpty(Split(u)) == if u == "/" then [] else Split(u)[1..]
    ensures u != "/" ==> |Split(u)| > 1 && Pieces(Split(u)[1..])
  {
    FirstIsEmpty(u);
    if u == "/" {
      PiecesComeBack([]);
    } else {
      RestAreNotEmpty(u);
      var rest := Split(u)[1..];
      assert Split(u) == [""] + rest;
      hide Split, IsCanonical;
      assert Pieces(rest);
      NonEmptyConcat([""], rest);
      assert NonEmpty([""]) == [];
      PiecesAreNonEmpty(rest);
    }
  }

  lemma RestAreNotEmpty(u: string)
    requires IsCanonical(u) && u != "/" && |Split(u)| > 1
    ensures forall k :: 0 < k < |Split(u)| ==> Split(u)[k] != ""
  {
    InnerSegments(u);
    LastSegment(u);
    hide Split, LastSlash;
  }

  lemma FirstIsEmpty(u: string)
    requires u != "" && u[0] == '/'
    ensures Split(u)[0] == "" && |Split(u)| > 1
  {
    forall n | 0 < n <= |u| ensures '/' in u[..n] {
      assert u[..n][0] == '/';
    }
    JoinSplit(u);
    JoinStarts(Split(u));
    LastSegment(u);
    hide Split;
    var first := Split(u)[0];
    assert first == u[..|first|] && '/' !in first;
  }

  // ---------------------------------------------------------------------
  // Files
  // ---------------------------------------------------------------------

  /** The name of the file an address's directory holds. */
  datatype Channel = Channel(filename: string, fileExt: string)

  function FileName(c: Channel): string {
    (if c.filename == "" then "index" else c.filename) + "." + (if c.fileExt == "" then "html" else c.fileExt)
  }

  function InDirectory(uri: string, name: string): string {
    if uri == "/" then "/" + name else uri + "/" + name
  }

  function FileURI(c: Channel, uri: string): string {
    InDirectory(uri, FileName(c))
  }

  datatype Error = Invalid

  ghost predicate AllProper(segments: seq<string>) {
    forall k :: 0 <= k < |segments| ==> ProperSegment(segments[k])
  }

  function OutputPath(fileURI: string): (r: Result<string, Error>)
    ensures r.Ok? ==> r.value == fileURI || "/" + r.value == fileURI
    ensures r.Ok? ==> '\0' !in r.value && r.value != "" && r.value[0] != '/'
    ensures r.Ok? ==> forall k :: 0 <= k < |Split(r.value)| ==> ProperSegment(Split(r.value)[k])
  {
    var trimmed := if fileURI != "" && fileURI[0] == '/' then fileURI[1..] else fileURI;
    if trimmed == "" || '\0' in trimmed || Clean(trimmed) != trimmed then Err(Invalid)
    else if exists k :: 0 <= k < |Split(trimmed)| && !ProperSegment(Split(trimmed)[k]) then Err(Invalid)
    else
      ProperIsClean(trimmed);
      Ok(trimmed)
  }

  /** Within a channel, two canonical addresses never share a file. */
  lemma FilesAreDistinct(c: Channel, u: string, v: string)
    requires IsCanonical(u) && IsCanonical(v)
    requires OutputPath(FileURI(c, u)).Ok? && OutputPath(FileURI(c, u)) == OutputPath(FileURI(c, v))
    ensures u == v
  {
    var f := FileName(c);
    assert FileURI(c, u)[0] == '/' && FileURI(c, v)[0] == '/';
    assert FileURI(c, u) == "/" + FileURI(c, u)[1..] && FileURI(c, v) == "/" + FileURI(c, v)[1..];
    SameDirectory(u, v, f);
  }

  /** Where a page goes: below its address, the channel's file name and extension, or
      "index" and "html" where it names none. */
  lemma PageIsAt(c: Channel, u: string, name: string, ext: string)
    requires IsCanonical(u) && OutputPath(FileURI(c, u)).Ok?
    requires if c.filename == "" then name == "index" else name == c.filename
    requires if c.fileExt == "" then ext == "html" else ext == c.fileExt
    ensures u == "/" ==> OutputPath(FileURI(c, u)).value == name + "." + ext
    ensures u != "/" ==> OutputPath(FileURI(c, u)).value == u[1..] + "/" + name + "." + ext
  {
    hide *;
    StartsAtRoot(u);
    NameIs(c, name, ext);
    FileIs(c, u);
    DirectoryIs(u, FileName(c));
    PathIs(FileURI(c, u));
    Regrouped(u[1..], name, ext);
  }

  lemma FileIs(c: Channel, u: string)
    ensures FileURI(c, u) == InDirectory(u, FileName(c))
  {
  }

  lemma DirectoryIs(u: string, f: string)
    requires u != "" && u[0] == '/'
    ensures InDirectory(u, f) != "" && InDirectory(u, f)[0] == '/'
    ensures InDirectory(u, f)[1..] == if u == "/" then f else u[1..] + "/" + f
  {
  }

  lemma Regrouped(u: string, name: string, ext: string)
    ensures u + "/" + (name + "." + ext) == u + "/" + name + "." + ext
  {
  }

  lemma StartsAtRoot(u: string)
    requires IsCanonical(u)
    ensures u != "" && u[0] == '/'
  {
  }

  lemma NameIs(c: Channel, name: string, ext: string)
    requires if c.filename == "" then name == "index" else name == c.filename
    requires if c.fileExt == "" then ext == "html" else ext == c.fileExt
    ensures FileName(c) == name + "." + ext
  {
  }

  lemma PathIs(fileURI: string)
    requires OutputPath(fileURI).Ok? && fileURI != "" && fileURI[0] == '/'
    ensures OutputPath(fileURI).value == fileURI[1..]
  {
    hide Clean, Split;
  }

  lemma SameDirectory(u: string, v: string, f: string)
    requires u != "" && v != ""
    requires InDirectory(u, f) == InDirectory(v, f)
    ensures u == v
  {
    if u != "/" && v != "/" {
      assert (u + "/" + f)[..|u|] == u;
      assert (v + "/" + f)[..|v|] == v;
    }
  }

  /** A canonical address has a file exactly when none of its segments, and none of the
      file name's, is empty, "." or "..", and neither holds a NUL. A name without a slash
      is one such segment. */
  lemma WhenOutputPathAccepts(c: Channel, u: string)
    requires IsCanonical(u)
    ensures OutputPath(FileURI(c, u)).Ok? <==>
              && '\0' !in u && '\0' !in FileName(c)
              && AllProper(NonEmpty(Split(u))) && AllProper(Split(FileName(c)))
    ensures '/' !in FileName(c) ==> AllProper(Split(FileName(c)))
  {
    var f := FileName(c);
    NameIsProper(c);
    hide FileName;
    var p := FileURI(c, u);
    assert p != "" && p[0] == '/';
    FileSegments(u, f);
    NulSpreads(u, f);
    AcceptedWhenProper(p);
    hide *;
    AllProperConcat(NonEmpty(Split(u)), Split(f));
  }

  lemma AllProperConcat(a: seq<string>, b: seq<string>)
    ensures AllProper(a + b) <==> AllProper(a) && AllProper(b)
  {
    assert forall k :: 0 <= k < |a| ==> (a + b)[k] == a[k];
    forall k | 0 <= k < |b| ensures (a + b)[|a| + k] == b[k] {
    }
  }

  lemma NameIsProper(c: Channel)
    ensures '/' !in FileName(c) ==> AllProper(Split(FileName(c)))
  {
    assert |FileName(c)| >= 3;
    if '/' !in FileName(c) { SplitOne(FileName(c)); }
  }

  lemma NulSpreads(u: string, f: string)
    requires u != "" && u[0] == '/'
    ensures InDirectory(u, f) != ""
    ensures '\0' in InDirectory(u, f)[1..] <==> '\0' in u || '\0' in f
  {
    if u != "/" {
      assert u == "/" + u[1..];
      assert (u + "/" + f)[1..] == u[1..] + "/" + f;
    } else {
      assert ("/" + f)[1..] == f;
    }
  }

  lemma FileSegments(u: string, f: string)
    requires IsCanonical(u)
    ensures InDirectory(u, f) != ""
    ensures Split(InDirectory(u, f)[1..]) == NonEmpty(Split(u)) + Split(f)
  {
    if u == "/" {
      CanonicalSegments(u);
      assert ("/" + f)[1..] == f;
      assert [] + Split(f) == Split(f);
    } else {
      var rest := Rejoined(u);
      hide *;
      BelowRoot(u, f, rest);
    }
  }

  lemma BelowRoot(u: string, f: string, rest: seq<string>)
    requires u != "/" && rest != [] && Pieces(rest) && u == "/" + Join(rest)
    ensures InDirectory(u, f) != "" && Split(InDirectory(u, f)[1..]) == rest + Split(f)
  {
    SplitJoin(rest);
    SplitConcat(Join(rest), f);
    hide Split, Join;
    assert (u + "/" + f)[1..] == Join(rest) + "/" + f;
  }

  lemma AcceptedWhenProper(fileURI: string)
    requires fileURI != "" && fileURI[0] == '/'
    ensures OutputPath(fileURI).Ok? <==>
              '\0' !in fileURI[1..] && AllProper(Split(fileURI[1..]))
  {
    var p := fileURI[1..];
    if AllProper(Split(p)) {
      ProperIsClean(p);
    }
  }

  /** The tree takes every path this accepts but one that names a temporary file. */
  lemma AcceptedPathsAreWritable(fileURI: string)
    requires OutputPath(fileURI).Ok?
    ensures var p := OutputPath(fileURI).value;
            OutputTree.ValidTreePath(p) <==>
              forall k :: 0 <= k < |Split(p)| ==> !OutputTree.IsTemporary(Split(p)[k])
  {
    ProperIsClean(OutputPath(fileURI).value);
  }
}
