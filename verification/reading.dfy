/** When the older text can be read off a diff. */
module OldReading {
  import opened Lcs
  import opened DiffScript
  import opened DiffOps
  import opened WordDiff

  // ---------------------------------------------------------------------
  // A diff is determined by its texts
  // ---------------------------------------------------------------------

  lemma TokensAreTheText(s: string, p: string, toks: seq<Token>)
    requires Tokenized(s, p, toks)
    ensures Words(toks) == WordsOf(s)
  {
    PrefixHasNoWords(p, toks);
  }

  lemma TokenizedOnce(s: string, p: string, x: seq<Token>, q: string, y: seq<Token>)
    requires Tokenized(s, p, x) && Tokenized(s, q, y)
    ensures p == q && x == y
  {
    TokensAreTheText(s, p, x);
    TokensAreTheText(s, q, y);
    hide Text, WordsOf, Words;
    TextTellsTokens(p, x, q, y);
  }

  /** The specification leaves no choice of ops. */
  lemma DiffIsUnique(from: string, to: string, x: seq<Op>, y: seq<Op>)
    requires IsDiff(from, to, x) && IsDiff(from, to, y)
    ensures x == y
  {
    hide Tokenized, Render, ScriptOf;
    var p, a, q, b :| Tokenized(from, p, a) && Tokenized(to, q, b) && x == Render(q, ScriptOf(a, b));
    var p', a', q', b' :| Tokenized(from, p', a') && Tokenized(to, q', b') && y == Render(q', ScriptOf(a', b'));
    TokenizedOnce(from, p, a, p', a');
    TokenizedOnce(to, q, b, q', b');
  }

  lemma MiddleIsFaithful(x: seq<Token>, y: seq<Token>)
    requires Gappy(x)
    ensures Faithful(MiddleOf(x, y), x, y)
  {
    hide Faithful, WalkOf;
    WalkIsFaithful(x, y);
    ReplacedMiddle(x, y);
  }

  lemma ScriptIsFaithful(a: seq<Token>, b: seq<Token>)
    requires GoodTokens(a) && GoodTokens(b)
    ensures Faithful(ScriptOf(a, b), a, b)
  {
    hide HeadFrom, TailFrom, Faithful, Framed, MiddleOf;
    var h := HeadFrom(Words(a), Words(b), 0);
    var t := TailFrom(Words(a), Words(b), h, 0);
    MidGappy(a, h, t);
    hide GoodTokens, Gappy;
    MiddleIsFaithful(a[h..|a| - t], b[h..|b| - t]);
    TrimmedWords(a, b, h, t);
    FramedFaithful(a, b, h, t, MiddleOf(a[h..|a| - t], b[h..|b| - t]));
  }

  // ---------------------------------------------------------------------
  // Reading the older words
  // ---------------------------------------------------------------------

  /** The diff's kept and deleted text runs the newer text's last word into what is
      deleted after it: that word has nothing after it, it is not in a shared tail, and
      it is kept with older words still to come. */
  ghost predicate JoinsOldWords(from: string, to: string) {
    var a, b := WordsOf(from), WordsOf(to);
    var h := HeadFrom(a, b, 0);
    && to != "" && !IsSpace(to[|to| - 1])
    && TailFrom(a, b, h, 0) == 0 && h < |a|
    && (h == |b| || (MiddleFits(a, b) && LastIsNeeded(Middles(a, b).0, Middles(a, b).1)))
  }

  /** The words of a faithful script's older text are the older words exactly when only
      the last of them has nothing after it. */
  lemma ReadsByGaps(q: string, a: seq<Token>, b: seq<Token>, f: seq<Piece>)
    requires Blank(q) && GoodTokens(a) && GoodTokens(b) && Faithful(f, a, b)
    ensures WordsOf(SideText(Render(q, f), OLD)) == Words(a) <==> Gappy(Pick(f, OLD))
  {
    hide Pick, Render, SideText, Text, WordsOf;
    ScriptIsGood(f, a, b);
    RenderText(q, f, OLD);
    PickedAreGood(f, OLD);
    TextWordsExactly(q, Pick(f, OLD));
  }

  lemma PickCons(p: Piece, f: seq<Piece>, ks: set<Kind>)
    ensures Pick([p] + f, ks) == (if p.kind in ks then [p.tok] else []) + Pick(f, ks)
  {
    PickConcat([p], f, ks);
    PickSnoc([], p, ks);
    assert [] + [p] == [p];
  }

  lemma GappyCons(t: Token, toks: seq<Token>)
    ensures Gappy([t] + toks) <==> Gappy(toks) && (toks != [] ==> t.sep != "")
  {
    var all := [t] + toks;
    assert all[0] == t;
    assert forall k :: 0 < k < |all| ==> all[k] == toks[k - 1];
    forall k | 0 <= k < |toks| ensures all[k + 1] == toks[k] {
    }
    if Gappy(all) {
      forall k | 0 <= k < |toks| - 1 ensures toks[k].sep != "" {
        var n := k + 1;
        assert all[n].sep != "";
      }
    }
  }

  lemma GappyTail(toks: seq<Token>)
    requires toks != [] && Gappy(toks)
    ensures Gappy(toks[1..]) && (|toks| > 1 ==> toks[0].sep != "")
    ensures Words(toks)[1..] == Words(toks[1..])
  {
    assert toks == [toks[0]] + toks[1..];
    GappyCons(toks[0], toks[1..]);
  }

  /** What a step of the walk does to whether the last word is needed. */
  lemma NeededStep(x: seq<Word>, y: seq<Word>)
    requires x != [] && y != []
    ensures x[0] == y[0] && |y| > 1 ==> (LastIsNeeded(x, y) <==> LastIsNeeded(x[1..], y[1..]))
    ensures x[0] == y[0] && |y| == 1 ==> LastIsNeeded(x, y)
    ensures x[0] != y[0] && Len(x[1..], y) >= Len(x, y[1..]) ==> (LastIsNeeded(x, y) <==> LastIsNeeded(x[1..], y))
    ensures x[0] != y[0] && Len(x[1..], y) < Len(x, y[1..]) ==> |y| > 1 && (LastIsNeeded(x, y) <==> LastIsNeeded(x, y[1..]))
  {
    if x[0] == y[0] {
      NeededKept(x, y);
    } else if Len(x[1..], y) >= Len(x, y[1..]) {
      NeededDropped(x, y);
    } else {
      NeededAdded(x, y);
    }
  }

  lemma ButLast(y: seq<Word>)
    requires |y| > 1
    ensures y[1..][..|y[1..]| - 1] == y[..|y| - 1][1..] && y[..|y| - 1] != [] && y[..|y| - 1][0] == y[0]
  {
  }

  lemma NeededKept(x: seq<Word>, y: seq<Word>)
    requires x != [] && y != [] && x[0] == y[0]
    ensures |y| > 1 ==> (LastIsNeeded(x, y) <==> LastIsNeeded(x[1..], y[1..]))
    ensures |y| == 1 ==> LastIsNeeded(x, y)
  {
    if |y| > 1 { ButLast(y); }
  }

  lemma NeededDropped(x: seq<Word>, y: seq<Word>)
    requires x != [] && y != [] && x[0] != y[0] && Len(x[1..], y) >= Len(x, y[1..])
    ensures LastIsNeeded(x, y) <==> LastIsNeeded(x[1..], y)
  {
    LenMonotoneOld(x, y[..|y| - 1]);
    if LastIsNeeded(x[1..], y) { NeededWithMore(x, y); }
  }

  lemma NeededAdded(x: seq<Word>, y: seq<Word>)
    requires x != [] && y != [] && x[0] != y[0] && Len(x[1..], y) < Len(x, y[1..])
    ensures |y| > 1 && (LastIsNeeded(x, y) <==> LastIsNeeded(x, y[1..]))
  {
    assert |y| > 1;
    ButLast(y);
    LenMonotone(x, y[..|y| - 1]);
    if LastIsNeeded(x, y) { NeededWithLess(x, y); }
    LenMonotoneEnd(x[1..], y);
  }

  /** The older side of a walk, first token first. */
  lemma WalkCons(p: Piece, x: seq<Token>, y: seq<Token>)
    requires p.kind != Insert && Gappy(x)
    ensures var rest := Pick(WalkOf(x, y), OLD);
            && |rest| == |x| && (x == [] ==> Gappy(rest))
            && (Gappy(Pick([p] + WalkOf(x, y), OLD)) <==> Gappy(rest) && (x != [] ==> p.tok.sep != ""))
  {
    WalkIsFaithful(x, y);
    PickCons(p, WalkOf(x, y), OLD);
    GappyCons(p.tok, Pick(WalkOf(x, y), OLD));
    assert |Words(Pick(WalkOf(x, y), OLD))| == |Words(x)|;
  }

  lemma OneSideLeft(x: seq<Token>)
    ensures Pick(WalkOf(x, []), OLD) == x
  {
    PickPieces(Delete, x, OLD);
    PickPieces(Insert, [], OLD);
  }

  lemma NothingNeeded(y: seq<Word>)
    ensures !LastIsNeeded([], y)
  {
  }

  lemma InsertUnseen(t: Token, f: seq<Piece>)
    ensures Pick([Piece(Insert, t)] + f, OLD) == Pick(f, OLD)
  {
    PickCons(Piece(Insert, t), f, OLD);
  }

  lemma FirstWord(x: seq<Token>)
    requires x != []
    ensures |Words(x)| == |x| && Words(x)[0] == x[0].word && Words(x[1..]) == Words(x)[1..] && (x[1..] == [] ==> Words(x[1..]) == [])
  {
  }

  /** The walk keeps the newer side's last word exactly when the longest match needs it;
      kept, and not last on the older side, it is where two older words can meet. */
  lemma {:induction false} WalkReadsBack(x: seq<Token>, y: seq<Token>)
    requires Gappy(x) && Gappy(y) && x != [] && y != [] && x[|x| - 1].word != y[|y| - 1].word
    ensures Gappy(Pick(WalkOf(x, y), OLD)) <==> y[|y| - 1].sep != "" || !LastIsNeeded(Words(x), Words(y))
    decreases |x| + |y|
  {
    hide *;
    var x', y' := x[1..], y[1..];
    GappyTail(x);
    GappyTail(y);
    FirstWord(x);
    FirstWord(y);
    WalkFirst(x, y);
    NeededStep(Words(x), Words(y));
    NothingNeeded(Words(y));
    NothingNeeded(Words(y'));
    OneSideLeft(x');
    if x[0].word == y[0].word {
      WalkCons(Piece(Equal, y[0]), x', y');
      if x' != [] && y' != [] { WalkReadsBack(x', y'); }
    } else if Len(Words(x'), Words(y)) >= Len(Words(x), Words(y')) {
      WalkCons(Piece(Delete, x[0]), x', y);
      if x' != [] { WalkReadsBack(x', y); }
    } else {
      InsertUnseen(y[0], WalkOf(x, y'));
      WalkReadsBack(x, y');
    }
  }

  // ---------------------------------------------------------------------
  // The whole diff
  // ---------------------------------------------------------------------

  lemma GappyConcat(x: seq<Token>, y: seq<Token>)
    ensures Gappy(x + y) <==> Gappy(x) && Gappy(y) && (x != [] && y != [] ==> x[|x| - 1].sep != "")
  {
    var z := x + y;
    assert forall k :: 0 <= k < |x| ==> z[k] == x[k];
    assert forall k :: |x| <= k < |z| ==> z[k] == y[k - |x|];
    forall k | 0 <= k < |y| ensures z[|x| + k] == y[k] {
    }
    if Gappy(z) {
      forall k | 0 <= k < |y| - 1 ensures y[k].sep != "" {
        var n := |x| + k;
        assert z[n].sep != "";
      }
    }
  }

  /** A text ends in white space unless its last word has none after it. */
  lemma EndsSolid(s: string, p: string, toks: seq<Token>)
    requires Tokenized(s, p, toks)
    ensures s != "" && !IsSpace(s[|s| - 1]) <==> toks != [] && toks[|toks| - 1].sep == ""
  {
    if toks != [] {
      var t := toks[|toks| - 1];
      assert t in toks;
      if t.sep == "" { TextEndsSolid(toks); } else { TextEndsBlank(toks); }
    }
  }

  /** What the older side of a whole script is made of. */
  lemma OldSide(a: seq<Token>, b: seq<Token>, h: nat, t: nat)
    requires h == HeadFrom(Words(a), Words(b), 0) && t == TailFrom(Words(a), Words(b), h, 0)
    ensures h + t <= |a| && h + t <= |b|
    ensures Pick(ScriptOf(a, b), OLD)
         == b[..h] + Pick(MiddleOf(a[h..|a| - t], b[h..|b| - t]), OLD) + b[|b| - t..]
  {
    hide HeadFrom, TailFrom, MiddleOf, Framed, Pick;
    FramedSide(b, h, t, MiddleOf(a[h..|a| - t], b[h..|b| - t]), OLD);
  }

  /** Where two older words meet in the middle. */
  ghost predicate MiddleJoins(x: seq<Token>, y: seq<Token>) {
    && x != [] && y != [] && |x| * |y| <= MAX_CELLS
    && y[|y| - 1].sep == "" && LastIsNeeded(Words(x), Words(y))
  }

  lemma MiddleGaps(x: seq<Token>, y: seq<Token>)
    requires Gappy(x) && Gappy(y)
    requires x != [] && y != [] ==> x[|x| - 1].word != y[|y| - 1].word
    ensures Gappy(Pick(MiddleOf(x, y), OLD)) <==> !MiddleJoins(x, y)
    ensures |Pick(MiddleOf(x, y), OLD)| == |x|
    ensures y == [] ==> Pick(MiddleOf(x, y), OLD) == x
  {
    MiddleIsFaithful(x, y);
    assert |Words(Pick(MiddleOf(x, y), OLD))| == |Words(x)|;
    hide Pick, Gappy, LastIsNeeded, Faithful;
    if |x| * |y| > MAX_CELLS {
      DeletedThenInserted(x, y);
    } else if x == [] {
      NothingGaps();
      assert Pick(MiddleOf(x, y), OLD) == [];
    } else if y == [] {
      OneSideLeft(x);
    } else {
      WalkReadsBack(x, y);
    }
  }

  lemma NothingGaps()
    ensures Gappy([])
  {
  }

  lemma DeletedThenInserted(x: seq<Token>, y: seq<Token>)
    ensures Pick(Pieces(Delete, x) + Pieces(Insert, y), OLD) == x
  {
    PickConcat(Pieces(Delete, x), Pieces(Insert, y), OLD);
    PickPieces(Delete, x, OLD);
    PickPieces(Insert, y, OLD);
  }

  /** Every token of a script's older side is one of the two texts'. */
  lemma {:induction false} OldSideComes(f: seq<Piece>)
    ensures forall t :: t in Pick(f, OLD) ==> t in Pick(f, {Delete}) || t in Pick(f, NEW)
    decreases |f|
  {
    if f != [] { OldSideComes(f[..|f| - 1]); }
  }

  ghost predicate AllSpaced(toks: seq<Token>) {
    forall t :: t in toks ==> t.sep != ""
  }

  lemma SpacedUpTo(toks: seq<Token>, lo: nat, hi: nat)
    requires Gappy(toks) && lo <= hi < |toks|
    ensures AllSpaced(toks[lo..hi])
  {
  }

  /** With a shared tail, nothing before it lacks a separator. */
  lemma TailedGaps(a: seq<Token>, b: seq<Token>, h: nat, t: nat)
    requires Gappy(a) && Gappy(b) && 0 < t && h + t <= |a| && h + t <= |b|
    ensures Gappy(b[..h] + Pick(MiddleOf(a[h..|a| - t], b[h..|b| - t]), OLD) + b[|b| - t..])
  {
    var x, y := a[h..|a| - t], b[h..|b| - t];
    SpacedUpTo(a, h, |a| - t);
    SpacedUpTo(b, h, |b| - t);
    SpacedUpTo(b, 0, h);
    assert Gappy(x);
    MiddleIsFaithful(x, y);
    OldSideComes(MiddleOf(x, y));
    var m := Pick(MiddleOf(x, y), OLD);
    assert AllSpaced(m);
    hide Pick, MiddleOf;
    assert AllSpaced(b[..h] + m);
    SpacedThenGappy(b[..h] + m, b[|b| - t..]);
  }

  lemma SpacedThenGappy(x: seq<Token>, y: seq<Token>)
    requires AllSpaced(x) && Gappy(y)
    ensures Gappy(x + y)
  {
    GappyConcat(x, y);
  }

  /** Without a shared tail the middles reach the ends, and end in different words. */
  lemma UntailedEnds(a: seq<Token>, b: seq<Token>, h: nat)
    requires h <= |a| && h <= |b| && TailFrom(Words(a), Words(b), h, 0) == 0
    requires a[h..] != [] && b[h..] != []
    ensures a[h..][|a[h..]| - 1].word != b[h..][|b[h..]| - 1].word
  {
    assert Words(a)[|a| - 1] != Words(b)[|b| - 1];
  }

  lemma GappySplit(b: seq<Token>, h: nat)
    requires Gappy(b) && h <= |b|
    ensures Gappy(b[..h]) && Gappy(b[h..]) && (0 < h < |b| ==> b[h - 1].sep != "")
  {
  }

  /** Without one, only the newer text's last word can meet an older one. */
  lemma UntailedGaps(a: seq<Token>, b: seq<Token>, h: nat)
    requires Gappy(a) && Gappy(b) && h <= |a| && h <= |b| && TailFrom(Words(a), Words(b), h, 0) == 0
    ensures Gappy(b[..h] + Pick(MiddleOf(a[h..], b[h..]), OLD)) <==>
            !(|| (h == |b| && b != [] && b[|b| - 1].sep == "" && h < |a|)
              || MiddleJoins(a[h..], b[h..]))
  {
    hide *;
    var x, y := a[h..], b[h..];
    GappySplit(a, h);
    GappySplit(b, h);
    if x != [] && y != [] { UntailedEnds(a, b, h); }
    MiddleGaps(x, y);
    GappyConcat(b[..h], Pick(MiddleOf(x, y), OLD));
    NoMiddleJoin(x, y);
    if h == |b| { assert b[..h] == b; }
  }

  lemma NoMiddleJoin(x: seq<Token>, y: seq<Token>)
    ensures x == [] || y == [] ==> !MiddleJoins(x, y)
  {
  }

  /** The condition on the texts, once the shared head is known. */
  lemma JoinsAt(from: string, to: string, h: nat)
    requires h == HeadFrom(WordsOf(from), WordsOf(to), 0) && TailFrom(WordsOf(from), WordsOf(to), h, 0) == 0
    ensures var a, b := WordsOf(from), WordsOf(to);
            JoinsOldWords(from, to) <==>
            && to != "" && !IsSpace(to[|to| - 1]) && h < |a|
            && (h == |b| || (MiddleFits(a, b) && LastIsNeeded(Middles(a, b).0, Middles(a, b).1)))
  {
    hide HeadFrom, TailFrom, Middles, MiddleFits, LastIsNeeded, WordsOf;
  }

  /** The middles of two texts without a shared tail, as tokens. */
  lemma UntailedMiddles(a: seq<Token>, b: seq<Token>, h: nat)
    requires h == HeadFrom(Words(a), Words(b), 0) && TailFrom(Words(a), Words(b), h, 0) == 0
    ensures h <= |a| && h <= |b|
    ensures Middles(Words(a), Words(b)) == (Words(a[h..]), Words(b[h..]))
    ensures MiddleFits(Words(a), Words(b)) <==> |a[h..]| * |b[h..]| <= MAX_CELLS
  {
    hide HeadFrom, TailFrom, Middles, MiddleFits, Words;
    TrimmedWords(a, b, h, 0);
    assert a[h..|a| - 0] == a[h..] && b[h..|b| - 0] == b[h..];
    MiddleSize(a, b, h, 0);
  }

  /** The condition on the texts, as one on their tokens. */
  lemma JoinsByTokens(from: string, to: string, a: seq<Token>, b: seq<Token>, h: nat)
    requires Words(a) == WordsOf(from) && Words(b) == WordsOf(to)
    requires to != "" && !IsSpace(to[|to| - 1]) <==> b != [] && b[|b| - 1].sep == ""
    requires h == HeadFrom(Words(a), Words(b), 0) && TailFrom(Words(a), Words(b), h, 0) == 0
    ensures h <= |a| && h <= |b|
    ensures JoinsOldWords(from, to) <==>
            || (h == |b| && b != [] && b[|b| - 1].sep == "" && h < |a|)
            || MiddleJoins(a[h..], b[h..])
  {
    hide *;
    JoinsAt(from, to, h);
    UntailedMiddles(a, b, h);
    var x, y := a[h..], b[h..];
    NoMiddleJoin(x, y);
    if x != [] && y != [] {
      assert y[|y| - 1] == b[|b| - 1];
      MiddleJoinsMeans(x, y);
    }
    WordForToken(a);
    WordForToken(b);
  }

  lemma MiddleJoinsMeans(x: seq<Token>, y: seq<Token>)
    requires x != [] && y != []
    ensures MiddleJoins(x, y) <==>
            |x| * |y| <= MAX_CELLS && y[|y| - 1].sep == "" && LastIsNeeded(Words(x), Words(y))
  {
    hide LastIsNeeded, Words;
  }

  lemma WordForToken(a: seq<Token>)
    ensures |Words(a)| == |a|
  {
  }

  lemma TailedNeverJoins(from: string, to: string, a: seq<Token>, b: seq<Token>, h: nat)
    requires Words(a) == WordsOf(from) && Words(b) == WordsOf(to)
    requires h == HeadFrom(Words(a), Words(b), 0) && TailFrom(Words(a), Words(b), h, 0) > 0
    ensures !JoinsOldWords(from, to)
  {
  }

  lemma OldSideGaps(from: string, to: string, p: string, a: seq<Token>, q: string, b: seq<Token>)
    requires Tokenized(from, p, a) && Tokenized(to, q, b)
    ensures Gappy(Pick(ScriptOf(a, b), OLD)) <==> !JoinsOldWords(from, to)
  {
    hide *;
    TokensAreTheText(from, p, a);
    TokensAreTheText(to, q, b);
    EndsSolid(to, q, b);
    TokensAreGappy(from, p, a);
    TokensAreGappy(to, q, b);
    var h := HeadFrom(Words(a), Words(b), 0);
    var t := TailFrom(Words(a), Words(b), h, 0);
    OldSide(a, b, h, t);
    if t > 0 {
      TailedGaps(a, b, h, t);
      TailedNeverJoins(from, to, a, b, h);
    } else {
      UntailedGaps(a, b, h);
      JoinsByTokens(from, to, a, b, h);
      WithoutTail(a, b, h);
    }
  }

  lemma TokensAreGappy(s: string, p: string, toks: seq<Token>)
    requires Tokenized(s, p, toks)
    ensures Blank(p) && GoodTokens(toks) && Gappy(toks)
  {
  }

  lemma WithoutTail(a: seq<Token>, b: seq<Token>, h: nat)
    requires h <= |a| && h <= |b|
    ensures b[..h] + Pick(MiddleOf(a[h..|a| - 0], b[h..|b| - 0]), OLD) + b[|b| - 0..]
         == b[..h] + Pick(MiddleOf(a[h..], b[h..]), OLD)
  {
    assert a[h..|a| - 0] == a[h..] && b[h..|b| - 0] == b[h..] && b[|b| - 0..] == [];
  }

  // ---------------------------------------------------------------------
  // The two readings of a diff
  // ---------------------------------------------------------------------

  /** The older words can be read off a diff's kept and deleted text exactly unless the
      texts are such that it joins two of them. */
  lemma OldWordsExactly(from: string, to: string, ops: seq<Op>)
    requires IsDiff(from, to, ops)
    ensures WordsOf(SideText(ops, OLD)) == WordsOf(from) <==> !JoinsOldWords(from, to)
  {
    hide *;
    var p, a, q, b := ScriptBehind(from, to, ops);
    TokensAreGappy(from, p, a);
    TokensAreGappy(to, q, b);
    TokensAreTheText(from, p, a);
    ScriptIsFaithful(a, b);
    ReadsByGaps(q, a, b, ScriptOf(a, b));
    OldSideGaps(from, to, p, a, q, b);
  }

  lemma ScriptBehind(from: string, to: string, ops: seq<Op>)
    returns (p: string, a: seq<Token>, q: string, b: seq<Token>)
    requires IsDiff(from, to, ops)
    ensures Tokenized(from, p, a) && Tokenized(to, q, b) && ops == Render(q, ScriptOf(a, b))
  {
    hide Tokenized, Render, ScriptOf;
    p, a, q, b :| Tokenized(from, p, a) && Tokenized(to, q, b) && ops == Render(q, ScriptOf(a, b));
  }

  /** Both texts begin with the same white space, and every older word the script goes
      through is followed by what follows it in the older text. */
  ghost predicate SameSpacing(from: string, to: string) {
    forall p, a: seq<Token>, q, b: seq<Token> :: Tokenized(from, p, a) && Tokenized(to, q, b) ==>
      p == q && |Pick(ScriptOf(a, b), OLD)| == |a|
      && forall k :: 0 <= k < |a| ==> Pick(ScriptOf(a, b), OLD)[k].sep == a[k].sep
  }

  lemma SameTokens(x: seq<Token>, y: seq<Token>)
    requires Words(x) == Words(y)
    ensures x == y <==> |x| == |y| && forall k :: 0 <= k < |y| ==> x[k].sep == y[k].sep
  {
    assert |x| == |Words(x)| == |Words(y)| == |y|;
    if forall k :: 0 <= k < |y| ==> x[k].sep == y[k].sep {
      forall k | 0 <= k < |y| ensures x[k] == y[k] {
        assert Words(x)[k] == Words(y)[k];
      }
    }
  }

  lemma SpacingIs(from: string, to: string, p: string, a: seq<Token>, q: string, b: seq<Token>)
    requires Tokenized(from, p, a) && Tokenized(to, q, b)
    requires Words(Pick(ScriptOf(a, b), OLD)) == Words(a)
    ensures SameSpacing(from, to) <==> p == q && Pick(ScriptOf(a, b), OLD) == a
  {
    hide Tokenized, ScriptOf, Pick, Words;
    SameTokens(Pick(ScriptOf(a, b), OLD), a);
    forall p', a', q', b' | Tokenized(from, p', a') && Tokenized(to, q', b')
      ensures p' == p && a' == a && q' == q && b' == b
    {
      TokenizedOnce(from, p', a', p, a);
      TokenizedOnce(to, q', b', q, b);
    }
  }

  lemma SpellsByTokens(p: string, a: seq<Token>, q: string, b: seq<Token>, f: seq<Piece>)
    requires Blank(p) && Blank(q) && GoodTokens(a) && GoodTokens(b) && Faithful(f, a, b)
    ensures SideText(Render(q, f), OLD) == p + Text(a) <==> p == q && Pick(f, OLD) == a
  {
    hide Pick, Render, SideText, Text;
    ScriptIsGood(f, a, b);
    RenderText(q, f, OLD);
    PickedAreGood(f, OLD);
    if SideText(Render(q, f), OLD) == p + Text(a) {
      TextTellsTokens(q, Pick(f, OLD), p, a);
    }
  }

  lemma TokensSpell(s: string, p: string, toks: seq<Token>)
    requires Tokenized(s, p, toks)
    ensures s == p + Text(toks)
  {
  }

  lemma SameWordsBehind(f: seq<Piece>, a: seq<Token>, b: seq<Token>)
    requires Faithful(f, a, b)
    ensures Words(Pick(f, OLD)) == Words(a)
  {
  }

  /** The older text itself can be read off exactly when the texts' spacing agrees. */
  lemma OldTextExactly(from: string, to: string, ops: seq<Op>)
    requires IsDiff(from, to, ops)
    ensures SideText(ops, OLD) == from <==> SameSpacing(from, to)
  {
    hide *;
    var p, a, q, b := ScriptBehind(from, to, ops);
    TokensAreGappy(from, p, a);
    TokensAreGappy(to, q, b);
    TokensSpell(from, p, a);
    ScriptIsFaithful(a, b);
    SameWordsBehind(ScriptOf(a, b), a, b);
    SpacingIs(from, to, p, a, q, b);
    SpellsByTokens(p, a, q, b, ScriptOf(a, b));
  }

  // ---------------------------------------------------------------------
  // One diff
  // ---------------------------------------------------------------------

  /** The diff of "a b" and "a" keeps "a" with nothing after it and deletes "b" after it:
      read end to end they are one word. */
  lemma OldRunsCanJoin(ops: seq<Op>)
    requires IsDiff("a b", "a", ops)
    ensures ops == [Op(Equal, "a"), Op(Delete, "b")]
    ensures SideText(ops, OLD) == "ab" && JoinsOldWords("a b", "a")
  {
    hide *;
    var p, a, q, b := ScriptBehind("a b", "a", ops);
    var x, y := [Token("a", " "), Token("b", "")], [Token("a", "")];
    SmallTokens(x, y);
    TokenizedOnce("a b", p, a, "", x);
    TokenizedOnce("a", q, b, "", y);
    SmallScript(x, y);
    SmallRender(y[0], x[1]);
    assert SideText(ops, OLD) == "a" + "b" == "ab";
    OldWordsExactly("a b", "a", ops);
    OneWord();
    TokensAreTheText("a b", "", x);
    assert |Words(x)| == 2;
  }

  lemma SmallTokens(x: seq<Token>, y: seq<Token>)
    requires x == [Token("a", " "), Token("b", "")] && y == [Token("a", "")]
    ensures Tokenized("a b", "", x) && Tokenized("a", "", y)
  {
    assert x[..1] == [x[0]] && x[..1][..0] == [] && y[..0] == [];
    assert Text(y) == "" + "a" + "" == "a";
    assert Text(x) == ("" + "a" + " ") + "b" + "" == "a b";
    assert "" + "a b" == "a b" && "" + "a" == "a";
  }

  lemma SmallScript(x: seq<Token>, y: seq<Token>)
    requires x == [Token("a", " "), Token("b", "")] && y == [Token("a", "")]
    ensures ScriptOf(x, y) == [Piece(Equal, y[0]), Piece(Delete, x[1])]
  {
    assert Words(x) == ["a", "b"] && Words(y) == ["a"];
    assert HeadFrom(Words(x), Words(y), 1) == 1;
    assert HeadFrom(Words(x), Words(y), 0) == 1;
    assert TailFrom(Words(x), Words(y), 1, 0) == 0;
    assert x[1..2] == [x[1]] && y[1..1] == [] && y[..1] == y;
    assert MiddleOf([x[1]], []) == Pieces(Delete, [x[1]]) == [Piece(Delete, x[1])];
    assert Pieces(Equal, y) == [Piece(Equal, y[0])];
  }

  lemma SmallRender(k: Token, d: Token)
    requires k.word != "" && d.word != "" && k.sep == d.sep == ""
    ensures Render("", [Piece(Equal, k), Piece(Delete, d)]) == [Op(Equal, k.word), Op(Delete, d.word)]
    ensures SideText([Op(Equal, k.word), Op(Delete, d.word)], OLD) == k.word + d.word
  {
    var p, q := Piece(Equal, k), Piece(Delete, d);
    assert [p, q] == [p] + [q] && [p] == [] + [p];
    RenderSnoc("", [], p);
    RenderSnoc("", [p], q);
    PrefixOnly("");
    var x, y := Op(Equal, k.word), Op(Delete, d.word);
    assert k.word + k.sep == k.word && d.word + d.sep == d.word;
    assert [x, y][..1] == [x] && [x][..0] == [];
    assert SideText([x], OLD) == "" + k.word == k.word;
  }

  lemma OneWord()
    ensures |WordsOf("ab")| == 1
  {
    assert "ab" == "ab" + "";
    WordsOfWord("ab", "");
    WordsOfBlank("");
  }
}
