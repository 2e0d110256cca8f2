/** Longest common subsequences, specified without the recursion that computes
    them, and edit scripts between two sequences of words. */
module Lcs {

  type Word = string

  // ---------------------------------------------------------------------
  // Specification
  // ---------------------------------------------------------------------

  /** c can be obtained from a by leaving elements out. */
  ghost predicate Subseq(c: seq<Word>, a: seq<Word>) {
    || c == []
    || (a != [] && Subseq(c, a[1..]))
    || (a != [] && c[0] == a[0] && Subseq(c[1..], a[1..]))
  }

  ghost predicate Common(c: seq<Word>, a: seq<Word>, b: seq<Word>) {
    Subseq(c, a) && Subseq(c, b)
  }

  /** One step of turning an older text into a newer one. */
  datatype Edit = Keep(w: Word) | Drop(w: Word) | Add(w: Word)

  function Before(es: seq<Edit>): seq<Word> {
    if es == [] then [] else (if es[0].Add? then [] else [es[0].w]) + Before(es[1..])
  }

  function After(es: seq<Edit>): seq<Word> {
    if es == [] then [] else (if es[0].Drop? then [] else [es[0].w]) + After(es[1..])
  }

  function Kept(es: seq<Edit>): seq<Word> {
    if es == [] then [] else (if es[0].Keep? then [es[0].w] else []) + Kept(es[1..])
  }

  /** Deletions plus insertions. */
  function Cost(es: seq<Edit>): nat {
    if es == [] then 0 else (if es[0].Keep? then 0 else 1) + Cost(es[1..])
  }

  ghost predicate Transforms(es: seq<Edit>, a: seq<Word>, b: seq<Word>) {
    Before(es) == a && After(es) == b
  }

  /** No edit script from a to b costs less than cost, and one costs exactly that. */
  ghost predicate FewestEdits(cost: int, a: seq<Word>, b: seq<Word>) {
    && (exists es :: Transforms(es, a, b) && Cost(es) == cost)
    && (forall es :: Transforms(es, a, b) ==> cost <= Cost(es))
  }

  // ---------------------------------------------------------------------
  // The recurrence
  // ---------------------------------------------------------------------

  /** The value the table holds for the suffixes a and b. */
  function Len(a: seq<Word>, b: seq<Word>): nat
    decreases |a| + |b|
  {
    if a == [] || b == [] then 0
    else if a[0] == b[0] then Len(a[1..], b[1..]) + 1
    else if Len(a[1..], b) >= Len(a, b[1..]) then Len(a[1..], b)
    else Len(a, b[1..])
  }

  lemma {:induction false} SubseqTail(c: seq<Word>, a: seq<Word>)
    requires c != [] && Subseq(c, a)
    ensures Subseq(c[1..], a)
    ensures a != [] && Subseq(c[1..], a[1..])
    decreases a
  {
    if Subseq(c, a[1..]) {
      SubseqTail(c, a[1..]);
    }
  }

  lemma {:induction false} SubseqSelf(a: seq<Word>)
    ensures Subseq(a, a)
    decreases a
  {
    if a != [] {
      SubseqSelf(a[1..]);
    }
  }

  lemma {:induction false} SubseqLength(c: seq<Word>, a: seq<Word>)
    requires Subseq(c, a)
    ensures |c| <= |a|
    decreases a
  {
    if c != [] {
      if Subseq(c, a[1..]) { SubseqLength(c, a[1..]); } else { SubseqLength(c[1..], a[1..]); }
    }
  }

  /** No common subsequence is longer than Len. */
  lemma {:induction false} LenBounds(c: seq<Word>, a: seq<Word>, b: seq<Word>)
    requires Common(c, a, b)
    ensures |c| <= Len(a, b)
    decreases |a| + |b|
  {
    if c == [] || a == [] || b == [] {
    } else if a[0] == b[0] {
      SubseqTail(c, a);
      SubseqTail(c, b);
      LenBounds(c[1..], a[1..], b[1..]);
    } else if Subseq(c, a[1..]) {
      LenBounds(c, a[1..], b);
    } else {
      LenBounds(c, a, b[1..]);
    }
  }

  /** Some common subsequence is as long as Len. */
  lemma {:induction false} LenAttained(a: seq<Word>, b: seq<Word>) returns (c: seq<Word>)
    ensures Common(c, a, b) && |c| == Len(a, b)
    decreases |a| + |b|
  {
    if a == [] || b == [] {
      c := [];
    } else if a[0] == b[0] {
      var rest := LenAttained(a[1..], b[1..]);
      c := [a[0]] + rest;
      assert c[1..] == rest;
    } else if Len(a[1..], b) >= Len(a, b[1..]) {
      c := LenAttained(a[1..], b);
    } else {
      c := LenAttained(a, b[1..]);
    }
  }

  /** The table value is the greatest length of any common subsequence. */
  lemma {:induction false} LenIsLongest(a: seq<Word>, b: seq<Word>)
    ensures exists c :: Common(c, a, b) && |c| == Len(a, b)
    ensures forall c :: Common(c, a, b) ==> |c| <= Len(a, b)
    ensures Len(a, b) <= |a| && Len(a, b) <= |b|
  {
    var best := LenAttained(a, b);
    SubseqLength(best, a);
    SubseqLength(best, b);
    forall c | Common(c, a, b) ensures |c| <= Len(a, b) {
      LenBounds(c, a, b);
    }
  }

  /** Dropping a leading word of the newer side never lengthens the match. */
  lemma {:induction false} LenMonotone(a: seq<Word>, b: seq<Word>)
    requires b != []
    ensures Len(a, b[1..]) <= Len(a, b)
  {
    var c := LenAttained(a, b[1..]);
    LenBounds(c, a, b);
  }

  /** Nor does dropping one of the older side. */
  lemma {:induction false} LenMonotoneOld(a: seq<Word>, b: seq<Word>)
    requires a != []
    ensures Len(a[1..], b) <= Len(a, b)
  {
    var c := LenAttained(a[1..], b);
    LenBounds(c, a, b);
  }

  /** Whether the longest match is shorter without the newer side's last word. */
  ghost predicate LastIsNeeded(a: seq<Word>, b: seq<Word>) {
    b != [] && Len(a, b[..|b| - 1]) < Len(a, b)
  }

  /** A last word needed without the older side's first word is needed with it. */
  lemma {:induction false} NeededWithMore(a: seq<Word>, b: seq<Word>)
    requires a != [] && LastIsNeeded(a[1..], b)
    ensures LastIsNeeded(a, b)
    decreases |a| + |b|
  {
    var b' := b[..|b| - 1];
    LenMonotoneOld(a, b);
    if b' != [] && !LastIsNeeded(a, b) {
      assert b[1..][..|b| - 2] == b'[1..];
      LenMonotone(a, b);
      if a[0] != b[0] {
        NeededWithLess(a[1..], b);
        NeededWithMore(a, b[1..]);
      } else {
        NeededWithLess(a[1..], b);
      }
    }
  }

  /** A last word needed with the newer side's first word is needed without it. */
  lemma {:induction false} NeededWithLess(a: seq<Word>, b: seq<Word>)
    requires |b| > 1 && LastIsNeeded(a, b)
    ensures LastIsNeeded(a, b[1..])
    decreases |a| + |b|
  {
    var b' := b[..|b| - 1];
    assert b[1..][..|b| - 2] == b'[1..];
    LenMonotone(a, b');
    if a != [] {
      if a[0] == b[0] {
        NeededWithMore(a, b[1..]);
      } else if Len(a[1..], b) >= Len(a, b[1..]) {
        LenMonotoneOld(a, b');
        NeededWithLess(a[1..], b);
        NeededWithMore(a, b[1..]);
      }
    }
  }

  lemma {:induction false} SubseqLonger(c: seq<Word>, a: seq<Word>, w: Word)
    requires Subseq(c, a)
    ensures Subseq(c, a + [w])
    decreases a
  {
    if c != [] {
      assert (a + [w])[1..] == a[1..] + [w];
      if Subseq(c, a[1..]) { SubseqLonger(c, a[1..], w); } else { SubseqLonger(c[1..], a[1..], w); }
    }
  }

  /** A match never grows by losing a last word. */
  lemma LenMonotoneEnd(a: seq<Word>, b: seq<Word>)
    requires b != []
    ensures Len(a, b[..|b| - 1]) <= Len(a, b)
  {
    var init, w := b[..|b| - 1], b[|b| - 1];
    var c := LenAttained(a, init);
    SubseqLonger(c, init, w);
    assert b == init + [w];
    LenBounds(c, a, b);
  }

  // ---------------------------------------------------------------------
  // Trimming a common head and tail
  // ---------------------------------------------------------------------

  lemma {:induction false} SubseqSnoc(c: seq<Word>, a: seq<Word>, w: Word)
    requires Subseq(c, a)
    ensures Subseq(c + [w], a + [w])
    decreases a
  {
    if a == [] {
      assert c == [];
      assert ([w] + c)[1..] == [] && (a + [w])[1..] == [];
    } else {
      assert (a + [w])[1..] == a[1..] + [w];
      if Subseq(c, a[1..]) {
        SubseqSnoc(c, a[1..], w);
      } else {
        SubseqSnoc(c[1..], a[1..], w);
        assert (c + [w])[1..] == c[1..] + [w];
      }
    }
  }

  lemma {:induction false} SubseqButLast(c: seq<Word>, a: seq<Word>, w: Word)
    requires c != [] && Subseq(c, a + [w])
    ensures Subseq(c[..|c| - 1], a)
    decreases a
  {
    if a == [] {
      SubseqLength(c, a + [w]);
    } else {
      assert (a + [w])[1..] == a[1..] + [w];
      if Subseq(c, a[1..] + [w]) {
        SubseqButLast(c, a[1..], w);
      } else if |c| > 1 {
        SubseqButLast(c[1..], a[1..], w);
        assert c[1..][..|c| - 2] == c[..|c| - 1][1..];
      }
    }
  }

  lemma {:induction false} LenTail(a: seq<Word>, b: seq<Word>, t: seq<Word>)
    ensures Len(a + t, b + t) == Len(a, b) + |t|
    decreases t
  {
    if t == [] {
      assert a + t == a && b + t == b;
    } else {
      var w, rest := t[0], t[1..];
      assert a + t == (a + [w]) + rest && b + t == (b + [w]) + rest;
      LenTail(a + [w], b + [w], rest);
      var c := LenAttained(a, b);
      SubseqSnoc(c, a, w);
      SubseqSnoc(c, b, w);
      LenBounds(c + [w], a + [w], b + [w]);
      var d := LenAttained(a + [w], b + [w]);
      SubseqButLast(d, a, w);
      SubseqButLast(d, b, w);
      LenBounds(d[..|d| - 1], a, b);
    }
  }

  lemma {:induction false} LenHead(h: seq<Word>, a: seq<Word>, b: seq<Word>)
    ensures Len(h + a, h + b) == |h| + Len(a, b)
    decreases h
  {
    if h == [] {
      assert h + a == a && h + b == b;
    } else {
      LenHead(h[1..], a, b);
      assert (h + a)[1..] == h[1..] + a && (h + b)[1..] == h[1..] + b;
    }
  }

  /** Sequences with no word in common have nothing to keep, and conversely. */
  lemma {:induction false} LenZero(a: seq<Word>, b: seq<Word>)
    ensures Len(a, b) == 0 <==> (forall w :: w in a ==> w !in b)
  {
    if exists w :: w in a && w in b {
      var w :| w in a && w in b;
      SubseqOne(w, a);
      SubseqOne(w, b);
      LenBounds([w], a, b);
    } else if Len(a, b) > 0 {
      var c := LenAttained(a, b);
      SubseqMember(c, a);
      SubseqMember(c, b);
    }
  }

  lemma {:induction false} SubseqOne(w: Word, a: seq<Word>)
    requires w in a
    ensures Subseq([w], a)
    decreases a
  {
    if w != a[0] {
      SubseqOne(w, a[1..]);
    }
  }

  lemma {:induction false} SubseqMember(c: seq<Word>, a: seq<Word>)
    requires c != [] && Subseq(c, a)
    ensures c[0] in a
    decreases a
  {
    if Subseq(c, a[1..]) {
      SubseqMember(c, a[1..]);
    }
  }

  // ---------------------------------------------------------------------
  // Cheapest scripts keep a longest common subsequence
  // ---------------------------------------------------------------------

  lemma {:induction false} ScriptKeepsCommon(es: seq<Edit>)
    ensures Common(Kept(es), Before(es), After(es))
    ensures Cost(es) == |Before(es)| + |After(es)| - 2 * |Kept(es)|
    decreases es
  {
    if es != [] {
      var rest := es[1..];
      ScriptKeepsCommon(rest);
      match es[0] {
        case Keep(w) =>
          assert Kept(es)[1..] == Kept(rest) && Before(es)[1..] == Before(rest) && After(es)[1..] == After(rest);
        case Drop(w) =>
          assert Before(es)[1..] == Before(rest);
          assert Kept(es) == Kept(rest) && After(es) == After(rest);
        case Add(w) =>
          assert After(es)[1..] == After(rest);
          assert Kept(es) == Kept(rest) && Before(es) == Before(rest);
      }
    }
  }

  /** A script that keeps Len words is a cheapest one, and no other is. */
  lemma {:induction false} CheapestScript(es: seq<Edit>, a: seq<Word>, b: seq<Word>)
    requires Transforms(es, a, b)
    ensures FewestEdits(Cost(es), a, b) <==> |Kept(es)| == Len(a, b)
  {
    ScriptKeepsCommon(es);
    LenBounds(Kept(es), a, b);
    forall other | Transforms(other, a, b)
      ensures Cost(other) >= |a| + |b| - 2 * Len(a, b)
    {
      ScriptKeepsCommon(other);
      LenBounds(Kept(other), a, b);
    }
    if FewestEdits(Cost(es), a, b) {
      var c := LenAttained(a, b);
      var best := ScriptKeeping(c, a, b);
      assert Cost(es) <= Cost(best);
    }
  }

  /** Any common subsequence is what some script keeps. */
  lemma {:induction false} ScriptKeeping(c: seq<Word>, a: seq<Word>, b: seq<Word>) returns (es: seq<Edit>)
    requires Common(c, a, b)
    ensures Transforms(es, a, b)
    ensures Kept(es) == c
    ensures Cost(es) == |a| + |b| - 2 * |c|
    decreases |a| + |b|
  {
    if a != [] && Subseq(c, a[1..]) {
      var rest := ScriptKeeping(c, a[1..], b);
      es := [Drop(a[0])] + rest;
      assert es[1..] == rest;
    } else if b != [] && Subseq(c, b[1..]) {
      var rest := ScriptKeeping(c, a, b[1..]);
      es := [Add(b[0])] + rest;
      assert es[1..] == rest;
    } else if c != [] {
      var rest := ScriptKeeping(c[1..], a[1..], b[1..]);
      es := [Keep(c[0])] + rest;
      assert es[1..] == rest;
    } else {
      es := [];
    }
  }
}
