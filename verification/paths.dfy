/** Slash-separated paths, taken apart and put together again. */
module Paths {

  /** The position of the last slash, or -1. */
  function LastSlash(p: string): (i: int)
    ensures -1 <= i < |p|
    ensures i >= 0 ==> p[i] == '/'
    ensures forall k :: i < k < |p| ==> p[k] != '/'
  {
    if p == "" then -1
    else if p[|p| - 1] == '/' then |p| - 1
    else LastSlash(p[..|p| - 1])
  }

  /** Everything between the slashes, empty pieces included. */
  function Split(p: string): (segments: seq<string>)
    ensures segments != []
    ensures forall k :: 0 <= k < |segments| ==> '/' !in segments[k]
    decreases |p|
  {
    var i := LastSlash(p);
    if i < 0 then [p] else Split(p[..i]) + [p[i + 1..]]
  }

  function Join(segments: seq<string>): string
    requires segments != []
    decreases |segments|
  {
    var n := |segments| - 1;
    if n == 0 then segments[0] else Join(segments[..n]) + "/" + segments[n]
  }

  lemma {:induction false} JoinSplit(p: string)
    ensures Join(Split(p)) == p
    decreases |p|
  {
    var i := LastSlash(p);
    if i >= 0 {
      JoinSplit(p[..i]);
      assert Split(p)[..|Split(p)| - 1] == Split(p[..i]);
      assert p == p[..i] + "/" + p[i + 1..];
    }
  }

  lemma LastSlashOf(a: string, b: string)
    requires '/' !in b
    ensures LastSlash(a + "/" + b) == |a|
  {
    var p := a + "/" + b;
    assert p[|a|] == '/';
    assert forall k :: |a| < k < |p| ==> p[k] in b;
  }

  lemma SplitSnoc(a: string, b: string)
    requires '/' !in b
    ensures Split(a + "/" + b) == Split(a) + [b]
  {
    var p := a + "/" + b;
    LastSlashOf(a, b);
    hide LastSlash;
    assert p[..|a|] == a && p[|a| + 1..] == b;
  }

  lemma {:induction false} SplitConcat(a: string, b: string)
    ensures Split(a + "/" + b) == Split(a) + Split(b)
    decreases |b|
  {
    hide Split, LastSlash;
    var i := LastSlash(b);
    if i < 0 {
      SplitSnoc(a, b);
      SplitOne(b);
    } else {
      var init, last := b[..i], b[i + 1..];
      assert b == init + "/" + last;
      assert a + "/" + b == (a + "/" + init) + "/" + last;
      SplitConcat(a, init);
      SplitSnoc(a + "/" + init, last);
      SplitSnoc(init, last);
    }
  }

  lemma {:induction false} SplitJoin(segments: seq<string>)
    requires segments != [] && forall k :: 0 <= k < |segments| ==> '/' !in segments[k]
    ensures Split(Join(segments)) == segments
    decreases |segments|
  {
    hide Split;
    var n := |segments| - 1;
    if n == 0 {
      SplitOne(segments[0]);
      assert segments == [segments[0]];
    } else {
      SplitJoin(segments[..n]);
      SplitSnoc(Join(segments[..n]), segments[n]);
      hide Join;
      assert segments == segments[..n] + [segments[n]];
    }
  }

  lemma SplitOne(s: string)
    requires '/' !in s
    ensures Split(s) == [s]
  {
  }

  predicate DoubleSlashAt(p: string, k: int)
    requires 0 <= k < |p|
  {
    k + 1 < |p| && p[k] == '/' && p[k + 1] == '/'
  }

  /** No segment between two slashes is empty. */
  predicate NoDoubleSlash(p: string) {
    forall k :: 0 <= k < |p| ==> !DoubleSlashAt(p, k)
  }

  lemma {:induction false} InnerSegments(p: string)
    requires NoDoubleSlash(p)
    ensures forall k :: 0 < k < |Split(p)| - 1 ==> Split(p)[k] != ""
    decreases |p|
  {
    var i := LastSlash(p);
    if i >= 0 {
      var q := p[..i];
      forall k | 0 <= k < |q| ensures !DoubleSlashAt(q, k) { assert !DoubleSlashAt(p, k); }
      InnerSegments(q);
      if i > 0 { assert !DoubleSlashAt(p, i - 1); }
      LastSegment(q);
      hide LastSlash;
      var s, last := Split(q), |Split(q)| - 1;
      assert Split(p) == s + [p[i + 1..]];
      if last > 0 { assert s[last] != ""; }
    }
  }

  /** The last segment is what follows the last slash. */
  lemma LastSegment(p: string)
    ensures Split(p)[|Split(p)| - 1] == p[LastSlash(p) + 1..]
    ensures |Split(p)| == 1 <==> LastSlash(p) < 0
  {
    var i := LastSlash(p);
    hide LastSlash;
    if i < 0 {
      assert Split(p) == [p];
    } else {
      var init := Split(p[..i]);
      assert Split(p) == init + [p[i + 1..]] && init != [];
    }
  }

  lemma {:induction false} JoinStarts(segments: seq<string>)
    requires segments != []
    ensures segments[0] <= Join(segments)
    ensures |segments| > 1 ==> |Join(segments)| > |segments[0]| && Join(segments)[|segments[0]|] == '/'
    decreases |segments|
  {
    if |segments| > 1 { JoinStarts(segments[..|segments| - 1]); }
  }

  /** What path.Clean makes of a path. */
  function Clean(p: string): string {
    if p == "" then "."
    else
      var kept := Lexical(Split(p), p[0] == '/');
      var out := (if p[0] == '/' then "/" else "") + if kept == [] then "" else Join(kept);
      if out == "" then "." else out
  }

  /** Segments with the empty ones and "." dropped and each ".." taken with what it undoes. */
  function Lexical(segments: seq<string>, rooted: bool): (kept: seq<string>)
    decreases |segments|
  {
    if segments == [] then []
    else
      var n := |segments| - 1;
      var before, s := Lexical(segments[..n], rooted), segments[n];
      if s == "" || s == "." then before
      else if s != ".." then before + [s]
      else if before != [] && before[|before| - 1] != ".." then before[..|before| - 1]
      else if rooted then before
      else before + [s]
  }

  predicate ProperSegment(s: string) {
    s != "" && s != "." && s != ".."
  }

  lemma {:induction false} LexicalKeeps(segments: seq<string>, rooted: bool)
    requires forall k :: 0 <= k < |segments| ==> ProperSegment(segments[k])
    ensures Lexical(segments, rooted) == segments
    decreases |segments|
  {
    if segments != [] {
      LexicalKeeps(segments[..|segments| - 1], rooted);
      assert segments == segments[..|segments| - 1] + [segments[|segments| - 1]];
    }
  }

  /** A path of proper segments is relative and already clean. */
  lemma ProperIsClean(p: string)
    requires forall k :: 0 <= k < |Split(p)| ==> ProperSegment(Split(p)[k])
    ensures p != "" && p[0] != '/' && Clean(p) == p
  {
    hide Split, Join, Lexical;
    JoinSplit(p);
    JoinStarts(Split(p));
    FirstCharacter(p, Split(p)[0]);
    LexicalKeeps(Split(p), false);
  }

  lemma FirstCharacter(p: string, first: string)
    requires first <= p && ProperSegment(first) && '/' !in first
    ensures p != "" && p[0] != '/'
  {
    assert p[0] == first[0];
  }
}
