/** The word diff itself: the tokenizer, the table, the walk, and the trimming
    around them. */
module WordDiff {
  import opened Lcs
  import opened DiffScript
  import opened DiffOps

  newtype uint32 = x: int | 0 <= x < 0x1_0000_0000

  /** A stretch of tokens with one fate. */
  datatype Run = Run(kind: Kind, toks: seq<Token>)

  const MAX_CELLS: nat := 1048576

  // ---------------------------------------------------------------------
  // Tokenizer
  // ---------------------------------------------------------------------

  /** The end of the whitespace that starts at i. */
  method SkipSpaces(s: string, i: nat) returns (end: nat)
    requires i <= |s|
    ensures i <= end <= |s| && Blank(s[i..end])
    ensures end < |s| ==> !IsSpace(s[end])
  {
    end := i;
    while end < |s| && IsSpace(s[end])
      invariant i <= end <= |s|
      invariant forall k :: i <= k < end ==> IsSpace(s[k])
    {
      end := end + 1;
    }
  }

  /** The end of the word that starts at i. */
  method SkipWord(s: string, i: nat) returns (end: nat)
    requires i < |s| && !IsSpace(s[i])
    ensures i < end <= |s| && Solid(s[i..end])
    ensures end < |s| ==> IsSpace(s[end])
  {
    end := i + 1;
    while end < |s| && !IsSpace(s[end])
      invariant i < end <= |s|
      invariant forall k :: i <= k < end ==> !IsSpace(s[k])
    {
      end := end + 1;
    }
  }

  /** Splits s into leading whitespace and words with their separators. */
  method Tokenize(s: string) returns (prefix: string, toks: seq<Token>)
    ensures prefix + Text(toks) == s
    ensures Blank(prefix) && GoodTokens(toks)
    ensures Words(toks) == WordsOf(s)
  {
    hide Text, WordsOf;
    var i := SkipSpaces(s, 0);
    prefix := s[..i];
    assert s[0..i] == prefix;
    toks := [];
    NoTokens(prefix);
    while i < |s|
      invariant 0 <= i <= |s|
      invariant prefix + Text(toks) == s[..i]
      invariant i < |s| ==> !IsSpace(s[i])
      invariant GoodTokens(toks)
      invariant i < |s| && toks != [] ==> toks[|toks| - 1].sep != ""
    {
      var start := i;
      var gap := SkipWord(s, start);
      i := SkipSpaces(s, gap);
      TokenAdded(s, prefix, toks, start, gap, i);
      toks := toks + [Token(s[start..gap], s[gap..i])];
    }
    assert s[..i] == s;
    PrefixHasNoWords(prefix, toks);
  }

  lemma NoTokens(prefix: string)
    ensures prefix + Text([]) == prefix
  {
  }

  lemma TokenAdded(s: string, prefix: string, toks: seq<Token>, start: nat, gap: nat, end: nat)
    requires start <= gap <= end <= |s|
    requires prefix + Text(toks) == s[..start]
    ensures prefix + Text(toks + [Token(s[start..gap], s[gap..end])]) == s[..end]
  {
    var t := Token(s[start..gap], s[gap..end]);
    TextSnoc(toks, t);
    hide Text;
    assert s[..end] == s[..start] + (t.word + t.sep);
    assert prefix + (Text(toks) + (t.word + t.sep)) == (prefix + Text(toks)) + (t.word + t.sep);
  }

  lemma PrefixHasNoWords(prefix: string, toks: seq<Token>)
    requires Blank(prefix) && GoodTokens(toks)
    ensures WordsOf(prefix + Text(toks)) == Words(toks)
  {
    WordsOfBlank(prefix);
    TextWords(toks);
    WordsOfConcat(prefix, Text(toks));
  }

  // ---------------------------------------------------------------------
  // The table
  // ---------------------------------------------------------------------

  function Cell(i: nat, j: nat, width: nat): nat {
    i * width + j
  }

  lemma CellInRange(i: nat, j: nat, width: nat, rows: nat)
    requires i < rows && j < width
    ensures Cell(i, j, width) < rows * width
  {
    assert i * width <= (rows - 1) * width;
    assert rows * width == (rows - 1) * width + width;
  }

  lemma CellApart(i: nat, j: nat, width: nat)
    requires j < width
    ensures forall r: nat, c: nat {:trigger Cell(r, c, width)} ::
              c < width && Cell(r, c, width) == Cell(i, j, width) ==> r == i && c == j
  {
    forall r: nat, c: nat | c < width && Cell(r, c, width) == Cell(i, j, width)
      ensures r == i && c == j
    {
      if r < i { RowsApart(r, i, width); } else if i < r { RowsApart(i, r, width); }
    }
  }

  lemma {:induction false} RowsApart(i: nat, r: nat, width: nat)
    requires i < r
    ensures i * width + width <= r * width
    decreases r
  {
    if r > i + 1 { RowsApart(i, r - 1, width); }
    assert r * width == (r - 1) * width + width;
  }

  /** Cell (r, c) of the table holds the longest match of the suffixes at r and c. */
  ghost predicate CellHolds(t: seq<uint32>, a: seq<Word>, b: seq<Word>, r: nat, c: nat)
    requires r <= |a| && c <= |b|
  {
    && Cell(r, c, |b| + 1) < |t|
    && t[Cell(r, c, |b| + 1)] as int == Len(a[r..], b[c..])
  }

  lemma CellKept(t: seq<uint32>, k: nat, v: uint32, a: seq<Word>, b: seq<Word>, i: nat, j: nat, r: nat, c: nat)
    requires i <= |a| && j <= |b| && r <= |a| && c <= |b|
    requires k == Cell(i, j, |b| + 1) < |t|
    requires r != i || c != j
    requires CellHolds(t, a, b, r, c)
    ensures CellHolds(t[k := v], a, b, r, c)
  {
    CellApart(i, j, |b| + 1);
  }

  /** What belongs in cell (i, j), read off its three finished neighbours. */
  method CellValue(a: seq<Token>, b: seq<Token>, lengths: array<uint32>, i: nat, j: nat) returns (value: uint32)
    requires i < |a| <= MAX_CELLS && j < |b| && lengths.Length == (|a| + 1) * (|b| + 1)
    requires CellHolds(lengths[..], Words(a), Words(b), i + 1, j + 1)
    requires CellHolds(lengths[..], Words(a), Words(b), i + 1, j)
    requires CellHolds(lengths[..], Words(a), Words(b), i, j + 1)
    ensures value as int == Len(Words(a)[i..], Words(b)[j..])
  {
    var width := |b| + 1;
    SuffixStep(Words(a), Words(b), i, j);
    LenIsLongest(Words(a)[i + 1..], Words(b)[j + 1..]);
    hide Len;
    if a[i].word == b[j].word {
      value := lengths[Cell(i + 1, j + 1, width)] + 1;
    } else {
      var down, right := lengths[Cell(i + 1, j, width)], lengths[Cell(i, j + 1, width)];
      value := if down >= right then down else right;
    }
  }

  /** Fills row i from its last column backwards. */
  method FillRow(a: seq<Token>, b: seq<Token>, lengths: array<uint32>, i: nat)
    requires i < |a| <= MAX_CELLS && lengths.Length == (|a| + 1) * (|b| + 1)
    requires forall r: nat, c: nat :: i < r <= |a| && c <= |b| ==> CellHolds(lengths[..], Words(a), Words(b), r, c)
    requires forall r: nat :: r <= |a| ==> CellHolds(lengths[..], Words(a), Words(b), r, |b|)
    modifies lengths
    ensures forall r: nat, c: nat :: i <= r <= |a| && c <= |b| ==> CellHolds(lengths[..], Words(a), Words(b), r, c)
    ensures forall r: nat :: r <= |a| ==> CellHolds(lengths[..], Words(a), Words(b), r, |b|)
  {
    hide Len;
    var width := |b| + 1;
    ghost var wa, wb := Words(a), Words(b);
    var j := |b| - 1;
    while j >= 0
      invariant -1 <= j < |b|
      invariant forall r: nat, c: nat :: i < r <= |a| && c <= |b| ==> CellHolds(lengths[..], wa, wb, r, c)
      invariant forall c: nat :: j < c <= |b| ==> CellHolds(lengths[..], wa, wb, i, c)
      invariant forall r: nat :: r <= |a| ==> CellHolds(lengths[..], wa, wb, r, |b|)
    {
      CellInRange(i, j, width, |a| + 1);
      ghost var before, k := lengths[..], Cell(i, j, width);
      var value := CellValue(a, b, lengths, i, j);
      lengths[Cell(i, j, width)] := value;
      assert lengths[..] == before[k := value];
      forall r: nat, c: nat | r <= |a| && c <= |b| && (r != i || c != j) && CellHolds(before, wa, wb, r, c)
        ensures CellHolds(lengths[..], wa, wb, r, c)
      {
        CellKept(before, k, value, wa, wb, i, j, r, c);
      }
      j := j - 1;
    }
  }

  /** Fills the whole table from its last corner backwards. */
  method FillTable(a: seq<Token>, b: seq<Token>) returns (lengths: array<uint32>)
    requires a != [] && b != []
    requires |a| * |b| <= MAX_CELLS
    ensures fresh(lengths) && lengths.Length == (|a| + 1) * (|b| + 1)
    ensures forall r: nat, c: nat :: r <= |a| && c <= |b| ==> CellHolds(lengths[..], Words(a), Words(b), r, c)
  {
    var width := |b| + 1;
    ghost var wa, wb := Words(a), Words(b);
    lengths := new uint32[(|a| + 1) * width](_ => 0);
    assert |a| <= MAX_CELLS by {
      assert |a| * |b| >= |a| * 1;
    }
    forall r: nat, c: nat | r <= |a| && c <= |b| && (r == |a| || c == |b|)
      ensures CellHolds(lengths[..], wa, wb, r, c)
    {
      CellInRange(r, c, width, |a| + 1);
    }
    hide CellHolds, Len;
    var i := |a| - 1;
    while i >= 0
      invariant -1 <= i < |a|
      invariant forall r: nat, c: nat :: i < r <= |a| && c <= |b| ==> CellHolds(lengths[..], wa, wb, r, c)
      invariant forall r: nat :: r <= |a| ==> CellHolds(lengths[..], wa, wb, r, |b|)
    {
      FillRow(a, b, lengths, i);
      i := i - 1;
    }
  }

  lemma SuffixStep(a: seq<Word>, b: seq<Word>, i: nat, j: nat)
    requires i < |a| && j < |b|
    ensures Len(a[i..], b[j..]) ==
            if a[i] == b[j] then Len(a[i + 1..], b[j + 1..]) + 1
            else if Len(a[i + 1..], b[j..]) >= Len(a[i..], b[j + 1..]) then Len(a[i + 1..], b[j..])
            else Len(a[i..], b[j + 1..])
  {
    assert a[i..][1..] == a[i + 1..] && b[j..][1..] == b[j + 1..];
  }

  // ---------------------------------------------------------------------
  // The walk
  // ---------------------------------------------------------------------

  function Flatten(runs: seq<Run>): seq<Piece> {
    if runs == [] then []
    else Flatten(runs[..|runs| - 1]) + Pieces(runs[|runs| - 1].kind, runs[|runs| - 1].toks)
  }

  /** Adds a token to the last run when the kinds match, else starts a run. */
  method AddRun(runs: seq<Run>, kind: Kind, t: Token, ghost f: seq<Piece>)
    returns (more: seq<Run>, ghost g: seq<Piece>)
    requires f == Flatten(runs)
    ensures g == f + [Piece(kind, t)]
    ensures Flatten(more) == Flatten(runs) + [Piece(kind, t)]
  {
    var n := |runs|;
    g := f + [Piece(kind, t)];
    if n > 0 && runs[n - 1].kind == kind {
      more := runs[n - 1 := Run(kind, runs[n - 1].toks + [t])];
      assert more[..n - 1] == runs[..n - 1];
      assert Pieces(kind, runs[n - 1].toks + [t]) == Pieces(kind, runs[n - 1].toks) + [Piece(kind, t)];
    } else {
      more := runs + [Run(kind, [t])];
      assert more[..n] == runs;
      assert Pieces(kind, [t]) == [Piece(kind, t)];
    }
  }

  /** What a script from a to b promises, before it is shown as ops. */
  ghost predicate Faithful(f: seq<Piece>, a: seq<Token>, b: seq<Token>) {
    && Pick(f, NEW) == b
    && Words(Pick(f, OLD)) == Words(a)
    && Gappy(Pick(f, {Delete}))
    && (forall t :: t in Pick(f, {Delete}) ==> t in a)
    && DeletesFirst(f)
  }

  /** Everything in f came from a[..i] and b[..j], and all of it did. */
  ghost predicate SidesSoFar(f: seq<Piece>, a: seq<Token>, b: seq<Token>, i: nat, j: nat)
    requires i <= |a| && j <= |b|
  {
    && Pick(f, NEW) == b[..j]
    && Words(Pick(f, OLD)) == Words(a)[..i]
    && Gappy(Pick(f, {Delete}))
    && (forall t :: t in Pick(f, {Delete}) ==> t in a && (i < |a| ==> t.sep != ""))
  }

  /** No insertion stands before a deletion, and after an insertion the match is
      strictly better than deleting instead would have left it. */
  ghost predicate OrderSoFar(f: seq<Piece>, a: seq<Word>, b: seq<Word>, i: nat, j: nat)
    requires i <= |a| && j <= |b|
  {
    && DeletesFirst(f)
    && (f != [] && f[|f| - 1].kind == Insert ==>
          j > 0 && (i < |a| ==> Len(a[i + 1..], b[j - 1..]) < Len(a[i..], b[j..])))
  }

  /** How far the walk has got, and that it has lost nothing on the way. */
  ghost predicate Walked(f: seq<Piece>, a: seq<Token>, b: seq<Token>, i: nat, j: nat)
    requires i <= |a| && j <= |b|
  {
    && SidesSoFar(f, a, b, i, j)
    && OrderSoFar(f, Words(a), Words(b), i, j)
    && |Pick(f, {Equal})| + Len(Words(a)[i..], Words(b)[j..]) == Len(Words(a), Words(b))
  }

  lemma PicksSnoc(f: seq<Piece>, p: Piece)
    ensures Pick(f + [p], NEW) == Pick(f, NEW) + (if p.kind != Delete then [p.tok] else [])
    ensures Pick(f + [p], OLD) == Pick(f, OLD) + (if p.kind != Insert then [p.tok] else [])
    ensures Pick(f + [p], {Delete}) == Pick(f, {Delete}) + (if p.kind == Delete then [p.tok] else [])
    ensures Pick(f + [p], {Equal}) == Pick(f, {Equal}) + (if p.kind == Equal then [p.tok] else [])
  {
    hide Pick;
    PickSnoc(f, p, NEW);
    PickSnoc(f, p, OLD);
    PickSnoc(f, p, {Delete});
    PickSnoc(f, p, {Equal});
  }

  /** How many tokens of one side a piece uses up. */
  function Ahead(kind: Kind, side: Kind): nat {
    if kind == Equal || kind == side then 1 else 0
  }

  lemma SidesAdvance(f: seq<Piece>, p: Piece, a: seq<Token>, b: seq<Token>, i: nat, j: nat)
    requires i + Ahead(p.kind, Delete) <= |a| && j + Ahead(p.kind, Insert) <= |b| && Gappy(a)
    requires SidesSoFar(f, a, b, i, j)
    requires p.kind != Delete ==> p.tok == b[j]
    requires p.kind != Insert ==> p.tok.word == a[i].word
    requires p.kind == Delete ==> p.tok == a[i]
    ensures SidesSoFar(f + [p], a, b, i + Ahead(p.kind, Delete), j + Ahead(p.kind, Insert))
  {
    hide Pick;
    PicksSnoc(f, p);
    var kept, dropped := Pick(f, OLD), Pick(f, {Delete});
    assert Words(kept + [p.tok]) == Words(kept) + [p.tok.word];
    assert kept + [] == kept && dropped + [] == dropped && Pick(f, NEW) + [] == Pick(f, NEW);
    if i < |a| { assert Words(a)[..i + 1] == Words(a)[..i] + [Words(a)[i]]; }
    if j < |b| { assert b[..j + 1] == b[..j] + [b[j]]; }
  }

  lemma WalkEqual(f: seq<Piece>, a: seq<Token>, b: seq<Token>, i: nat, j: nat)
    requires i < |a| && j < |b| && Gappy(a)
    requires Walked(f, a, b, i, j) && a[i].word == b[j].word
    ensures Walked(f + [Piece(Equal, b[j])], a, b, i + 1, j + 1)
  {
    SuffixStep(Words(a), Words(b), i, j);
    hide SidesSoFar, Pick, Len;
    SidesAdvance(f, Piece(Equal, b[j]), a, b, i, j);
    PicksSnoc(f, Piece(Equal, b[j]));
  }

  lemma WalkDelete(f: seq<Piece>, a: seq<Token>, b: seq<Token>, i: nat, j: nat)
    requires i < |a| && j <= |b| && Gappy(a)
    requires Walked(f, a, b, i, j)
    requires j < |b| ==> a[i].word != b[j].word
    requires j < |b| ==> Len(Words(a)[i + 1..], Words(b)[j..]) >= Len(Words(a)[i..], Words(b)[j + 1..])
    ensures Walked(f + [Piece(Delete, a[i])], a, b, i + 1, j)
  {
    var wa, wb := Words(a), Words(b);
    if j < |b| { SuffixStep(wa, wb, i, j); } else { NothingMatches(wa[i..]); NothingMatches(wa[i + 1..]); }
    hide SidesSoFar, Pick, Len;
    OrderDelete(f, a[i], wa, wb, i, j);
    hide OrderSoFar;
    SidesAdvance(f, Piece(Delete, a[i]), a, b, i, j);
    PicksSnoc(f, Piece(Delete, a[i]));
    assert Pick(f, {Equal}) + [] == Pick(f, {Equal});
  }

  /** A deletion is only chosen where it leaves as long a match, which never happens after an insertion. */
  lemma OrderDelete(f: seq<Piece>, t: Token, a: seq<Word>, b: seq<Word>, i: nat, j: nat)
    requires i < |a| && j <= |b|
    requires OrderSoFar(f, a, b, i, j) && Len(a[i..], b[j..]) == Len(a[i + 1..], b[j..])
    ensures OrderSoFar(f + [Piece(Delete, t)], a, b, i + 1, j)
  {
    hide Len;
    if j > 0 {
      LenMonotone(a[i + 1..], b[j - 1..]);
      assert b[j - 1..][1..] == b[j..];
    }
    assert !(f != [] && f[|f| - 1].kind == Insert);
  }

  lemma WalkInsert(f: seq<Piece>, a: seq<Token>, b: seq<Token>, i: nat, j: nat)
    requires i <= |a| && j < |b| && Gappy(a)
    requires Walked(f, a, b, i, j)
    requires i < |a| ==> a[i].word != b[j].word
    requires i < |a| ==> Len(Words(a)[i + 1..], Words(b)[j..]) < Len(Words(a)[i..], Words(b)[j + 1..])
    ensures Walked(f + [Piece(Insert, b[j])], a, b, i, j + 1)
  {
    var wa, wb := Words(a), Words(b);
    if i < |a| { SuffixStep(wa, wb, i, j); } else { NothingMatches(wb[j..]); NothingMatches(wb[j + 1..]); }
    hide SidesSoFar, OrderSoFar, Pick, Len;
    OrderInsert(f, b[j], wa, wb, i, j);
    SidesAdvance(f, Piece(Insert, b[j]), a, b, i, j);
    PicksSnoc(f, Piece(Insert, b[j]));
    assert Pick(f, {Equal}) + [] == Pick(f, {Equal});
  }

  lemma OrderInsert(f: seq<Piece>, t: Token, a: seq<Word>, b: seq<Word>, i: nat, j: nat)
    requires i <= |a| && j < |b| && OrderSoFar(f, a, b, i, j)
    requires i < |a| ==> Len(a[i + 1..], b[j..]) < Len(a[i..], b[j + 1..])
    ensures OrderSoFar(f + [Piece(Insert, t)], a, b, i, j + 1)
  {
    hide Len;
  }

  lemma WalkEnds(f: seq<Piece>, a: seq<Token>, b: seq<Token>)
    requires Walked(f, a, b, |a|, |b|)
    ensures Faithful(f, a, b) && |Pick(f, {Equal})| == Len(Words(a), Words(b))
  {
    assert b[..|b|] == b && Words(a)[..|a|] == Words(a);
  }

  /** The script the walk makes. */
  function WalkOf(a: seq<Token>, b: seq<Token>): seq<Piece>
    decreases |a| + |b|
  {
    if a == [] then Pieces(Insert, b)
    else if b == [] then Pieces(Delete, a)
    else if a[0].word == b[0].word then [Piece(Equal, b[0])] + WalkOf(a[1..], b[1..])
    else if Len(Words(a[1..]), Words(b)) >= Len(Words(a), Words(b[1..])) then [Piece(Delete, a[0])] + WalkOf(a[1..], b)
    else [Piece(Insert, b[0])] + WalkOf(a, b[1..])
  }

  /** What the walk has emitted and what it will. */
  ghost predicate OnTheWay(f: seq<Piece>, a: seq<Token>, b: seq<Token>, i: nat, j: nat)
    requires i <= |a| && j <= |b|
  {
    f + WalkOf(a[i..], b[j..]) == WalkOf(a, b)
  }

  lemma TakeFirst<T>(f: seq<T>, p: T, rest: seq<T>)
    ensures f + ([p] + rest) == (f + [p]) + rest
  {
  }

  lemma WaySplits(a: seq<Token>, i: nat)
    requires i < |a|
    ensures a[i..] != [] && a[i..][0] == a[i] && a[i..][1..] == a[i + 1..]
    ensures Words(a[i..]) == Words(a)[i..] && Words(a[i + 1..]) == Words(a)[i + 1..]
  {
  }

  lemma WayEqual(f: seq<Piece>, a: seq<Token>, b: seq<Token>, i: nat, j: nat)
    requires i < |a| && j < |b| && a[i].word == b[j].word && OnTheWay(f, a, b, i, j)
    ensures OnTheWay(f + [Piece(Equal, b[j])], a, b, i + 1, j + 1)
  {
    WaySplits(a, i);
    WaySplits(b, j);
    TakeFirst(f, Piece(Equal, b[j]), WalkOf(a[i + 1..], b[j + 1..]));
  }

  lemma WayDelete(f: seq<Piece>, a: seq<Token>, b: seq<Token>, i: nat, j: nat)
    requires i < |a| && j <= |b| && OnTheWay(f, a, b, i, j)
    requires j < |b| ==> a[i].word != b[j].word
                         && Len(Words(a)[i + 1..], Words(b)[j..]) >= Len(Words(a)[i..], Words(b)[j + 1..])
    ensures OnTheWay(f + [Piece(Delete, a[i])], a, b, i + 1, j)
  {
    WaySplits(a, i);
    if j < |b| {
      WaySplits(b, j);
    } else {
      assert Pieces(Delete, a[i..]) == [Piece(Delete, a[i])] + Pieces(Delete, a[i + 1..]);
    }
    TakeFirst(f, Piece(Delete, a[i]), WalkOf(a[i + 1..], b[j..]));
  }

  lemma WayInsert(f: seq<Piece>, a: seq<Token>, b: seq<Token>, i: nat, j: nat)
    requires i <= |a| && j < |b| && OnTheWay(f, a, b, i, j)
    requires i < |a| ==> a[i].word != b[j].word
                         && Len(Words(a)[i + 1..], Words(b)[j..]) < Len(Words(a)[i..], Words(b)[j + 1..])
    ensures OnTheWay(f + [Piece(Insert, b[j])], a, b, i, j + 1)
  {
    WaySplits(b, j);
    if i < |a| {
      WaySplits(a, i);
    } else {
      assert Pieces(Insert, b[j..]) == [Piece(Insert, b[j])] + Pieces(Insert, b[j + 1..]);
    }
    TakeFirst(f, Piece(Insert, b[j]), WalkOf(a[i..], b[j + 1..]));
  }

  lemma WayEnds(f: seq<Piece>, a: seq<Token>, b: seq<Token>)
    requires OnTheWay(f, a, b, |a|, |b|)
    ensures f == WalkOf(a, b)
  {
    assert WalkOf(a[|a|..], b[|b|..]) == [];
  }

  lemma WayStarts(a: seq<Token>, b: seq<Token>)
    ensures OnTheWay([], a, b, 0, 0)
  {
    assert a[0..] == a && b[0..] == b;
  }

  lemma {:induction false} WayGoesThrough(f: seq<Piece>, a: seq<Token>, b: seq<Token>, i: nat, j: nat)
    requires Gappy(a) && i <= |a| && j <= |b| && Walked(f, a, b, i, j) && OnTheWay(f, a, b, i, j)
    ensures Faithful(WalkOf(a, b), a, b) && |Pick(WalkOf(a, b), {Equal})| == Len(Words(a), Words(b))
    decreases |a| - i + |b| - j
  {
    hide Walked, OnTheWay, WalkOf, Faithful, Pick, Len;
    if i == |a| && j == |b| {
      WalkEnds(f, a, b);
      WayEnds(f, a, b);
    } else if i < |a| && j < |b| && a[i].word == b[j].word {
      WalkEqual(f, a, b, i, j);
      WayEqual(f, a, b, i, j);
      WayGoesThrough(f + [Piece(Equal, b[j])], a, b, i + 1, j + 1);
    } else if i < |a| && (j < |b| ==> Len(Words(a)[i + 1..], Words(b)[j..]) >= Len(Words(a)[i..], Words(b)[j + 1..])) {
      WalkDelete(f, a, b, i, j);
      WayDelete(f, a, b, i, j);
      WayGoesThrough(f + [Piece(Delete, a[i])], a, b, i + 1, j);
    } else {
      WalkInsert(f, a, b, i, j);
      WayInsert(f, a, b, i, j);
      WayGoesThrough(f + [Piece(Insert, b[j])], a, b, i, j + 1);
    }
  }

  /** The walk loses nothing of either side and keeps as much as can be kept. */
  lemma WalkIsFaithful(a: seq<Token>, b: seq<Token>)
    requires Gappy(a)
    ensures Faithful(WalkOf(a, b), a, b) && |Pick(WalkOf(a, b), {Equal})| == Len(Words(a), Words(b))
  {
    WalkStarts(a, b);
    WayStarts(a, b);
    WayGoesThrough([], a, b, 0, 0);
  }

  /** The longest-common-subsequence diff of two token lists. */
  method LcsDiff(a: seq<Token>, b: seq<Token>) returns (runs: seq<Run>)
    requires Gappy(a) && |a| * |b| <= MAX_CELLS
    ensures Flatten(runs) == WalkOf(a, b)
    ensures Faithful(Flatten(runs), a, b)
    ensures |Pick(Flatten(runs), {Equal})| == Len(Words(a), Words(b))
  {
    hide Faithful, Pick, Len;
    WalkIsFaithful(a, b);
    OneRun(Insert, b);
    OneRun(Delete, a);
    if |a| == 0 && |b| == 0 {
      return [];
    } else if |a| == 0 {
      return [Run(Insert, b)];
    } else if |b| == 0 {
      return [Run(Delete, a)];
    }
    hide Flatten, WalkOf;
    var lengths := FillTable(a, b);
    runs := Walk(a, b, lengths);
  }

  /** The greedy forward walk over a filled table. */
  method Walk(a: seq<Token>, b: seq<Token>, lengths: array<uint32>) returns (runs: seq<Run>)
    requires Gappy(a)
    requires lengths.Length == (|a| + 1) * (|b| + 1)
    requires forall r: nat, c: nat :: r <= |a| && c <= |b| ==> CellHolds(lengths[..], Words(a), Words(b), r, c)
    ensures Flatten(runs) == WalkOf(a, b)
    ensures Faithful(Flatten(runs), a, b)
    ensures |Pick(Flatten(runs), {Equal})| == Len(Words(a), Words(b))
  {
    hide Len, Pick, Faithful, OnTheWay, WalkOf;
    var width := |b| + 1;
    ghost var wa, wb := Words(a), Words(b);
    runs := [];
    ghost var f: seq<Piece> := [];
    var i, j := 0, 0;
    WalkIsFaithful(a, b);
    WayStarts(a, b);
    while i < |a| && j < |b|
      invariant 0 <= i <= |a| && 0 <= j <= |b|
      invariant f == Flatten(runs) && OnTheWay(f, a, b, i, j)
      decreases |a| - i + |b| - j
    {
      assert CellHolds(lengths[..], wa, wb, i + 1, j);
      assert CellHolds(lengths[..], wa, wb, i, j + 1);
      if a[i].word == b[j].word {
        WayEqual(f, a, b, i, j);
        runs, f := AddRun(runs, Equal, b[j], f);
        i, j := i + 1, j + 1;
      } else if lengths[Cell(i + 1, j, width)] >= lengths[Cell(i, j + 1, width)] {
        WayDelete(f, a, b, i, j);
        runs, f := AddRun(runs, Delete, a[i], f);
        i := i + 1;
      } else {
        WayInsert(f, a, b, i, j);
        runs, f := AddRun(runs, Insert, b[j], f);
        j := j + 1;
      }
    }
    while i < |a|
      invariant 0 <= i <= |a| && 0 <= j <= |b|
      invariant i < |a| ==> j == |b|
      invariant f == Flatten(runs) && OnTheWay(f, a, b, i, j)
    {
      WayDelete(f, a, b, i, j);
      runs, f := AddRun(runs, Delete, a[i], f);
      i := i + 1;
    }
    while j < |b|
      invariant 0 <= j <= |b| && i == |a|
      invariant f == Flatten(runs) && OnTheWay(f, a, b, i, j)
    {
      WayInsert(f, a, b, i, j);
      runs, f := AddRun(runs, Insert, b[j], f);
      j := j + 1;
    }
    WayEnds(f, a, b);
  }

  lemma NothingMatches(a: seq<Word>)
    ensures Len(a, []) == 0 && Len([], a) == 0
  {
  }

  lemma WalkStarts(a: seq<Token>, b: seq<Token>)
    ensures Walked([], a, b, 0, 0)
  {
    assert Words(a)[0..] == Words(a) && Words(b)[0..] == Words(b);
  }

  lemma OneRun(kind: Kind, toks: seq<Token>)
    ensures Flatten([Run(kind, toks)]) == Pieces(kind, toks)
  {
    assert [Run(kind, toks)][..0] == [];
    assert [] + Pieces(kind, toks) == Pieces(kind, toks);
  }

  lemma InsertedSides(b: seq<Token>)
    ensures Pick(Pieces(Insert, b), NEW) == b && Pick(Pieces(Insert, b), OLD) == []
    ensures Pick(Pieces(Insert, b), {Delete}) == [] && Pick(Pieces(Insert, b), {Equal}) == []
  {
    hide Pick;
    PickPieces(Insert, b, NEW);
    PickPieces(Insert, b, OLD);
    PickPieces(Insert, b, {Delete});
    PickPieces(Insert, b, {Equal});
  }

  lemma DeletedSides(a: seq<Token>)
    ensures Pick(Pieces(Delete, a), NEW) == [] && Pick(Pieces(Delete, a), OLD) == a
    ensures Pick(Pieces(Delete, a), {Delete}) == a && Pick(Pieces(Delete, a), {Equal}) == []
  {
    hide Pick;
    PickPieces(Delete, a, NEW);
    PickPieces(Delete, a, OLD);
    PickPieces(Delete, a, {Delete});
    PickPieces(Delete, a, {Equal});
  }


  // ---------------------------------------------------------------------
  // The diff of two texts
  // ---------------------------------------------------------------------

  /** Where the longest common head ends, once the first k words are known to agree. */
  function HeadFrom(a: seq<Word>, b: seq<Word>, k: nat): (n: nat)
    requires k <= |a| && k <= |b|
    ensures k <= n <= |a| && n <= |b|
    ensures forall i :: k <= i < n ==> a[i] == b[i]
    decreases |a| - k
  {
    if k < |a| && k < |b| && a[k] == b[k] then HeadFrom(a, b, k + 1) else k
  }

  /** How long the longest common tail after the first h words is, once k words are known to agree. */
  function TailFrom(a: seq<Word>, b: seq<Word>, h: nat, k: nat): (n: nat)
    requires h + k <= |a| && h + k <= |b|
    ensures k <= n && h + n <= |a| && h + n <= |b|
    ensures forall p :: |a| - n <= p < |a| - k ==> a[p] == b[p + |b| - |a|]
    decreases |a| - k
  {
    if k < |a| - h && k < |b| - h && a[|a| - 1 - k] == b[|b| - 1 - k] then TailFrom(a, b, h, k + 1) else k
  }

  /** The parts of two word lists left once their common head, then tail, are trimmed. */
  function Middles(a: seq<Word>, b: seq<Word>): (seq<Word>, seq<Word>) {
    var h := HeadFrom(a, b, 0);
    var t := TailFrom(a, b, h, 0);
    (a[h..|a| - t], b[h..|b| - t])
  }

  /** The first h words are shared, and no more than those. */
  ghost predicate LongestHead(a: seq<Word>, b: seq<Word>, h: nat) {
    && h <= |a| && h <= |b| && a[..h] == b[..h]
    && (h < |a| && h < |b| ==> a[h] != b[h])
  }

  /** After the first h, the last t words are shared, and no more than those. */
  ghost predicate LongestTail(a: seq<Word>, b: seq<Word>, h: nat, t: nat) {
    && h + t <= |a| && h + t <= |b| && a[|a| - t..] == b[|b| - t..]
    && (h + t < |a| && h + t < |b| ==> a[|a| - 1 - t] != b[|b| - 1 - t])
  }

  lemma {:induction false} HeadStops(a: seq<Word>, b: seq<Word>, k: nat)
    requires k <= |a| && k <= |b|
    ensures var n := HeadFrom(a, b, k); n < |a| && n < |b| ==> a[n] != b[n]
    decreases |a| - k
  {
    if k < |a| && k < |b| && a[k] == b[k] { HeadStops(a, b, k + 1); }
  }

  lemma {:induction false} TailStops(a: seq<Word>, b: seq<Word>, h: nat, k: nat)
    requires h + k <= |a| && h + k <= |b|
    ensures var n := TailFrom(a, b, h, k); h + n < |a| && h + n < |b| ==> a[|a| - 1 - n] != b[|b| - 1 - n]
    decreases |a| - k
  {
    if k < |a| - h && k < |b| - h && a[|a| - 1 - k] == b[|b| - 1 - k] { TailStops(a, b, h, k + 1); }
  }

  lemma SameInHead<T>(a: seq<T>, b: seq<T>, h: nat, i: nat)
    requires i < h <= |a| && h <= |b| && a[..h] == b[..h]
    ensures a[i] == b[i]
  {
    assert a[..h][i] == b[..h][i];
  }

  lemma SameInTail<T>(a: seq<T>, b: seq<T>, t: nat, i: nat)
    requires i < t <= |a| && t <= |b| && a[|a| - t..] == b[|b| - t..]
    ensures a[|a| - 1 - i] == b[|b| - 1 - i]
  {
    assert a[|a| - t..][t - 1 - i] == b[|b| - t..][t - 1 - i];
  }

  lemma TailMeets<T>(a: seq<T>, b: seq<T>, t: nat)
    requires 0 < t <= |a| && t <= |b| && a[|a| - t..] == b[|b| - t..]
    ensures a[|a| - t] == b[|b| - t]
  {
    SameInTail(a, b, t, t - 1);
  }

  lemma LongestHeadIsOne(a: seq<Word>, b: seq<Word>, h: nat, n: nat)
    requires LongestHead(a, b, h) && LongestHead(a, b, n)
    ensures h <= n
  {
    if n < h { SameInHead(a, b, h, n); }
  }

  lemma LongestTailIsOne(a: seq<Word>, b: seq<Word>, h: nat, t: nat, n: nat)
    requires LongestTail(a, b, h, t) && LongestTail(a, b, h, n)
    ensures t <= n
  {
    if n < t { SameInTail(a, b, t, n); }
  }

  /** The count of the head is the longest one's, and so the only one that is. */
  lemma HeadIsLongest(a: seq<Word>, b: seq<Word>, h: nat)
    ensures LongestHead(a, b, h) <==> h == HeadFrom(a, b, 0)
  {
    var n := HeadFrom(a, b, 0);
    HeadStops(a, b, 0);
    hide HeadFrom;
    assert a[..n] == b[..n];
    assert LongestHead(a, b, n);
    if LongestHead(a, b, h) {
      LongestHeadIsOne(a, b, h, n);
      LongestHeadIsOne(a, b, n, h);
    }
  }

  lemma TailIsLongest(a: seq<Word>, b: seq<Word>, h: nat, t: nat)
    requires h <= |a| && h <= |b|
    ensures LongestTail(a, b, h, t) <==> t == TailFrom(a, b, h, 0)
  {
    hide TailFrom;
    var n := TailFrom(a, b, h, 0);
    TailStops(a, b, h, 0);
    SameTails(a, b, n);
    assert LongestTail(a, b, h, n);
    if LongestTail(a, b, h, t) {
      LongestTailIsOne(a, b, h, t, n);
      LongestTailIsOne(a, b, h, n, t);
    }
  }

  lemma SameTails(a: seq<Word>, b: seq<Word>, n: nat)
    requires n <= |a| && n <= |b| && forall p :: |a| - n <= p < |a| ==> a[p] == b[p + |b| - |a|]
    ensures a[|a| - n..] == b[|b| - n..]
  {
    var x, y := a[|a| - n..], b[|b| - n..];
    forall i | 0 <= i < n ensures x[i] == y[i] {
      var p := |a| - n + i;
      assert a[p] == b[p + |b| - |a|];
    }
  }

  /** What is left between the longest head and the longest tail. */
  lemma MiddlesAre(a: seq<Word>, b: seq<Word>, h: nat, t: nat)
    requires LongestHead(a, b, h) && LongestTail(a, b, h, t)
    ensures Middles(a, b) == (a[h..|a| - t], b[h..|b| - t])
    ensures MiddleFits(a, b) <==> (|a| - h - t) * (|b| - h - t) <= MAX_CELLS
    ensures MiddlesDisjoint(a, b) <==> Unlike(a[h..|a| - t], b[h..|b| - t])
  {
    hide HeadFrom, TailFrom, LongestHead, LongestTail, Unlike;
    BoundsOf(a, b, h, t);
    HeadIsLongest(a, b, h);
    TailIsLongest(a, b, h, t);
    assert Middles(a, b) == (a[h..|a| - t], b[h..|b| - t]);
    hide Middles;
    SameProduct(|a[h..|a| - t]|, |a| - h - t, |b[h..|b| - t]|, |b| - h - t);
  }

  lemma SameProduct(m: int, n: int, p: int, q: int)
    requires m == n && p == q
    ensures m * p == n * q
  {
  }

  lemma MiddlesSplit(a: seq<Word>, b: seq<Word>) returns (head: seq<Word>, tail: seq<Word>)
    ensures a == head + (Middles(a, b).0 + tail) && b == head + (Middles(a, b).1 + tail)
  {
    hide HeadFrom, TailFrom;
    var h := HeadFrom(a, b, 0);
    var t := TailFrom(a, b, h, 0);
    head, tail := a[..h], a[|a| - t..];
    assert head == b[..h];
    assert tail == b[|b| - t..];
  }

  /** Whether the middles are small enough for the table. */
  ghost predicate MiddleFits(a: seq<Word>, b: seq<Word>) {
    |Middles(a, b).0| * |Middles(a, b).1| <= MAX_CELLS
  }

  ghost predicate Unlike(x: seq<Word>, y: seq<Word>) {
    forall w :: w in x ==> w !in y
  }

  /** Whether the middles have no word in common. */
  ghost predicate MiddlesDisjoint(a: seq<Word>, b: seq<Word>) {
    Unlike(Middles(a, b).0, Middles(a, b).1)
  }

  lemma MiddleIsWhatIsLeft(a: seq<Word>, b: seq<Word>)
    ensures Len(a, b) == |a| - |Middles(a, b).0| + Len(Middles(a, b).0, Middles(a, b).1)
  {
    hide Len, Middles;
    var head, tail := MiddlesSplit(a, b);
    var (x, y) := Middles(a, b);
    LenHead(head, x + tail, y + tail);
    LenTail(x, y, tail);
  }

  lemma ReplacedMiddle(a: seq<Token>, b: seq<Token>)
    requires Gappy(a)
    ensures Faithful(Pieces(Delete, a) + Pieces(Insert, b), a, b)
    ensures Pick(Pieces(Delete, a) + Pieces(Insert, b), {Equal}) == []
  {
    hide Pick;
    var d, i := Pieces(Delete, a), Pieces(Insert, b);
    DeletedSides(a);
    PickConcat(d, i, NEW);
    PickConcat(d, i, OLD);
    PickConcat(d, i, {Delete});
    PickConcat(d, i, {Equal});
    InsertedSides(b);
    assert a + [] == a && [] + b == b;
  }

  /** The script around a faithful middle: the shared head and tail come from the newer side. */
  function Framed(b: seq<Token>, h: nat, t: nat, g: seq<Piece>): seq<Piece>
    requires h + t <= |b|
  {
    Pieces(Equal, b[..h]) + g + Pieces(Equal, b[|b| - t..])
  }

  /** The script of a whole diff: the middle walked where it fits the table, else replaced. */
  function ScriptOf(a: seq<Token>, b: seq<Token>): seq<Piece> {
    var h := HeadFrom(Words(a), Words(b), 0);
    var t := TailFrom(Words(a), Words(b), h, 0);
    Framed(b, h, t, MiddleOf(a[h..|a| - t], b[h..|b| - t]))
  }

  function MiddleOf(a: seq<Token>, b: seq<Token>): seq<Piece> {
    if |a| * |b| <= MAX_CELLS then WalkOf(a, b) else Pieces(Delete, a) + Pieces(Insert, b)
  }

  /** A text as leading white space and tokens. */
  ghost predicate Tokenized(s: string, prefix: string, toks: seq<Token>) {
    Blank(prefix) && GoodTokens(toks) && s == prefix + Text(toks)
  }

  /** The ops are the two texts' script, after the newer text's leading white space. */
  ghost predicate IsDiff(from: string, to: string, ops: seq<Op>) {
    exists p, a, q, b :: Tokenized(from, p, a) && Tokenized(to, q, b) && ops == Render(q, ScriptOf(a, b))
  }

  lemma FramedIs(b: seq<Token>, h: nat, t: nat, g: seq<Piece>)
    requires h + t <= |b|
    ensures Framed(b, h, t, g) == [] + Pieces(Equal, b[..h]) + g + Pieces(Equal, b[|b| - t..])
  {
  }

  lemma FramedSide(b: seq<Token>, h: nat, t: nat, g: seq<Piece>, ks: set<Kind>)
    requires h + t <= |b|
    ensures Equal in ks ==> Pick(Framed(b, h, t, g), ks) == b[..h] + Pick(g, ks) + b[|b| - t..]
    ensures Equal !in ks ==> Pick(Framed(b, h, t, g), ks) == Pick(g, ks)
  {
    hide Pick;
    var x, y := Pieces(Equal, b[..h]), Pieces(Equal, b[|b| - t..]);
    PickConcat(x + g, y, ks);
    PickConcat(x, g, ks);
    PickPieces(Equal, b[..h], ks);
    PickPieces(Equal, b[|b| - t..], ks);
  }

  lemma FramedFaithful(a: seq<Token>, b: seq<Token>, h: nat, t: nat, g: seq<Piece>)
    requires h + t <= |a| && h + t <= |b|
    requires Words(a)[..h] == Words(b)[..h]
    requires Words(a)[|a| - t..] == Words(b)[|b| - t..]
    requires Faithful(g, a[h..|a| - t], b[h..|b| - t])
    ensures Faithful(Framed(b, h, t, g), a, b)
    ensures |Pick(Framed(b, h, t, g), {Equal})| == h + |Pick(g, {Equal})| + t
  {
    hide Pick;
    FramedSide(b, h, t, g, NEW);
    FramedSide(b, h, t, g, OLD);
    FramedSide(b, h, t, g, {Delete});
    FramedSide(b, h, t, g, {Equal});
    FramedSplit(b, h, t);
    FramedOld(a, b, h, t, Pick(g, OLD));
  }

  lemma FramedSplit(b: seq<Token>, h: nat, t: nat)
    requires h + t <= |b|
    ensures b[..h] + b[h..|b| - t] + b[|b| - t..] == b
  {
  }

  lemma FramedOld(a: seq<Token>, b: seq<Token>, h: nat, t: nat, m: seq<Token>)
    requires h + t <= |a| && h + t <= |b|
    requires Words(a)[..h] == Words(b)[..h]
    requires Words(a)[|a| - t..] == Words(b)[|b| - t..]
    requires Words(m) == Words(a[h..|a| - t])
    ensures Words(b[..h] + m + b[|b| - t..]) == Words(a)
  {
    assert Words(b[..h]) == Words(b)[..h] && Words(b[|b| - t..]) == Words(b)[|b| - t..];
    assert Words(a[h..|a| - t]) == Words(a)[h..|a| - t];
    hide Words;
    ThreeParts(b[..h], m, b[|b| - t..]);
    ThreeSlices(Words(a), h, |a| - t);
  }

  lemma ThreeParts(x: seq<Token>, y: seq<Token>, z: seq<Token>)
    ensures Words(x + y + z) == Words(x) + Words(y) + Words(z)
  {
  }

  lemma ThreeSlices<T>(s: seq<T>, i: nat, j: nat)
    requires i <= j <= |s|
    ensures s == s[..i] + s[i..j] + s[j..]
  {
  }

  /** Everything a faithful script promises about the ops that show it. */
  lemma FaithfulRendering(prefix: string, f: seq<Piece>, a: seq<Token>, b: seq<Token>)
    requires Blank(prefix) && GoodTokens(a) && GoodTokens(b) && Faithful(f, a, b)
    ensures var ops := Render(prefix, f);
            && SideText(ops, NEW) == prefix + Text(b)
            && SideWords(ops, OLD) == Words(a)
            && CanonicalOrder(ops)
            && |SideWords(ops, {Delete})| + |SideWords(ops, {Insert})| == Cost(Edits(f))
            && Transforms(Edits(f), Words(a), Words(b))
            && |Kept(Edits(f))| == |Pick(f, {Equal})|
  {
    hide Pick, Render, SideText, SideWords, Edits, Cost, Kept, Before, After, Text;
    ScriptIsGood(f, a, b);
    SpacedFromSides(f);
    RenderText(prefix, f, NEW);
    RenderCanonical(prefix, f);
    RenderWords(prefix, f, OLD);
    RenderWords(prefix, f, {Delete});
    RenderWords(prefix, f, {Insert});
    EditsOfScript(f);
  }

  lemma ScriptIsGood(f: seq<Piece>, a: seq<Token>, b: seq<Token>)
    requires GoodTokens(a) && GoodTokens(b) && Faithful(f, a, b)
    ensures GoodScript(f)
  {
    hide Pick;
    forall k | 0 <= k < |f| ensures GoodToken(f[k].tok) {
      if f[k].kind == Delete {
        PieceIsPicked(f, {Delete}, k);
      } else {
        PieceIsPicked(f, NEW, k);
      }
    }
  }

  /** Emits one run: nothing for no tokens, otherwise their text as an op. */
  method Emit(ops: seq<Op>, kind: Kind, toks: seq<Token>, ghost prefix: string, ghost f: seq<Piece>)
    returns (more: seq<Op>)
    requires ops == Render(prefix, f)
    ensures more == Render(prefix, f + Pieces(kind, toks))
  {
    RenderRun(prefix, f, kind, toks);
    if |toks| == 0 {
      return ops;
    }
    var text := "";
    for k := 0 to |toks|
      invariant text == Text(toks[..k])
    {
      assert toks[..k + 1][..k] == toks[..k];
      text := text + toks[k].word + toks[k].sep;
    }
    assert toks[..|toks|] == toks;
    more := AppendOp(ops, Op(kind, text));
  }

  /** Emits every run of a diff in order. */
  method EmitRuns(ops: seq<Op>, runs: seq<Run>, ghost prefix: string, ghost f: seq<Piece>)
    returns (more: seq<Op>)
    requires ops == Render(prefix, f)
    ensures more == Render(prefix, f + Flatten(runs))
  {
    hide Render;
    more := ops;
    assert f + Flatten([]) == f;
    for r := 0 to |runs|
      invariant more == Render(prefix, f + Flatten(runs[..r]))
    {
      assert runs[..r + 1][..r] == runs[..r];
      assert (f + Flatten(runs[..r])) + Pieces(runs[r].kind, runs[r].toks) == f + Flatten(runs[..r + 1]);
      more := Emit(more, runs[r].kind, runs[r].toks, prefix, f + Flatten(runs[..r]));
    }
    assert runs[..|runs|] == runs;
  }

  lemma HeadNext(a: seq<Token>, b: seq<Token>, k: nat)
    requires k < |a| && k < |b| && a[k].word == b[k].word
    ensures HeadFrom(Words(a), Words(b), k + 1) == HeadFrom(Words(a), Words(b), k)
  {
  }

  lemma HeadEnds(a: seq<Token>, b: seq<Token>, k: nat)
    requires k <= |a| && k <= |b| && (k < |a| && k < |b| ==> a[k].word != b[k].word)
    ensures HeadFrom(Words(a), Words(b), k) == k
  {
  }

  lemma TailNext(a: seq<Token>, b: seq<Token>, h: nat, k: nat)
    requires h + k < |a| && h + k < |b| && a[|a| - 1 - k].word == b[|b| - 1 - k].word
    ensures TailFrom(Words(a), Words(b), h, k + 1) == TailFrom(Words(a), Words(b), h, k)
  {
  }

  lemma TailEnds(a: seq<Token>, b: seq<Token>, h: nat, k: nat)
    requires h + k <= |a| && h + k <= |b|
    requires h + k < |a| && h + k < |b| ==> a[|a| - 1 - k].word != b[|b| - 1 - k].word
    ensures TailFrom(Words(a), Words(b), h, k) == k
  {
  }

  /** Counts the common head. */
  method CountHead(a: seq<Token>, b: seq<Token>) returns (head: nat)
    ensures LongestHead(Words(a), Words(b), head)
    ensures head <= |a| && head <= |b| && head == HeadFrom(Words(a), Words(b), 0)
  {
    hide LongestHead, HeadFrom, Words;
    ghost var wa, wb := Words(a), Words(b);
    HeadIsLongest(wa, wb, HeadFrom(wa, wb, 0));
    head := 0;
    while head < |a| && head < |b| && a[head].word == b[head].word
      invariant head <= |a| && head <= |b|
      invariant HeadFrom(wa, wb, head) == HeadFrom(wa, wb, 0)
      decreases |a| - head
    {
      HeadNext(a, b, head);
      head := head + 1;
    }
    HeadEnds(a, b, head);
  }

  /** Counts the common tail of what the head leaves. */
  method CountTail(a: seq<Token>, b: seq<Token>, head: nat) returns (tail: nat)
    requires head <= |a| && head <= |b|
    ensures LongestTail(Words(a), Words(b), head, tail)
    ensures head + tail <= |a| && head + tail <= |b| && tail == TailFrom(Words(a), Words(b), head, 0)
  {
    hide LongestTail, TailFrom, Words;
    ghost var wa, wb := Words(a), Words(b);
    TailIsLongest(wa, wb, head, TailFrom(wa, wb, head, 0));
    tail := 0;
    while tail < |a| - head && tail < |b| - head && a[|a| - 1 - tail].word == b[|b| - 1 - tail].word
      invariant head + tail <= |a| && head + tail <= |b|
      invariant TailFrom(wa, wb, head, tail) == TailFrom(wa, wb, head, 0)
      decreases |a| - tail
    {
      TailNext(a, b, head, tail);
      tail := tail + 1;
    }
    TailEnds(a, b, head, tail);
  }

  lemma PrefixOnly(prefix: string)
    ensures Render(prefix, []) == if prefix != "" then AppendOp([], Op(Equal, prefix)) else []
  {
  }

  lemma MidGappy(a: seq<Token>, h: nat, t: nat)
    requires GoodTokens(a) && h + t <= |a|
    ensures Gappy(a[h..|a| - t])
  {
  }

  lemma SmallProduct(n: nat, m: nat)
    requires n == 0 || m == 0 || n * m <= MAX_CELLS
    ensures n * m <= MAX_CELLS
  {
  }

  lemma EmptyScript(g: seq<Piece>)
    requires Pick(g, NEW) == [] && Pick(g, OLD) == []
    ensures g == []
  {
    if g != [] {
      PieceIsPicked(g, if g[0].kind == Delete then OLD else NEW, 0);
    }
  }

  lemma {:induction false} SameHead(a: seq<Word>, k: nat)
    requires k <= |a|
    ensures HeadFrom(a, a, k) == |a|
    decreases |a| - k
  {
    if k < |a| { SameHead(a, k + 1); }
  }

  /** Words(a) and Words(b) cut where the head and tail end. */
  lemma TrimmedWords(a: seq<Token>, b: seq<Token>, head: nat, tail: nat)
    requires head + tail <= |a| && head + tail <= |b|
    requires head == HeadFrom(Words(a), Words(b), 0) && tail == TailFrom(Words(a), Words(b), head, 0)
    ensures Words(a)[..head] == Words(b)[..head]
    ensures Words(a)[|a| - tail..] == Words(b)[|b| - tail..]
    ensures Middles(Words(a), Words(b)) == (Words(a[head..|a| - tail]), Words(b[head..|b| - tail]))
  {
    hide HeadFrom, TailFrom;
    assert Words(a)[head..|a| - tail] == Words(a[head..|a| - tail]);
    assert Words(b)[head..|b| - tail] == Words(b[head..|b| - tail]);
  }

  /** Equal words leave nothing but kept text. */
  lemma SameWordsAllEqual(prefix: string, a: seq<Token>, b: seq<Token>, head: nat, tail: nat, g: seq<Piece>)
    requires head + tail <= |a| && head + tail <= |b|
    requires Words(a) == Words(b) && head == HeadFrom(Words(a), Words(b), 0)
    requires Faithful(g, a[head..|a| - tail], b[head..|b| - tail])
    ensures forall k :: 0 <= k < |Render(prefix, Framed(b, head, tail, g))| ==>
              Render(prefix, Framed(b, head, tail, g))[k].kind == Equal
  {
    hide Pick, Render;
    SameHead(Words(a), 0);
    assert |a| == |Words(a)| == |b|;
    assert a[head..|a| - tail] == [] && b[head..|b| - tail] == [];
    assert |Words(Pick(g, OLD))| == 0;
    EmptyScript(g);
    RenderAllEqual(prefix, Framed(b, head, tail, g));
  }

  /** Whether what the middle keeps is as much as can be kept. */
  lemma KeepsMost(a: seq<Word>, b: seq<Word>, kept: nat)
    requires kept == if MiddleFits(a, b) then Len(Middles(a, b).0, Middles(a, b).1) else 0
    ensures |a| - |Middles(a, b).0| + kept == Len(a, b) <==> MiddleFits(a, b) || MiddlesDisjoint(a, b)
  {
    hide Len, Middles;
    MiddleIsWhatIsLeft(a, b);
    LenZero(Middles(a, b).0, Middles(a, b).1);
  }

  lemma FewestWhenMostKept(prefix: string, f: seq<Piece>, a: seq<Token>, b: seq<Token>, wa: seq<Word>, wb: seq<Word>)
    requires Blank(prefix) && GoodTokens(a) && GoodTokens(b) && Faithful(f, a, b)
    requires wa == Words(a) && wb == Words(b)
    ensures FewestEdits(|SideWords(Render(prefix, f), {Delete})| + |SideWords(Render(prefix, f), {Insert})|, wa, wb)
            <==> |Pick(f, {Equal})| == Len(wa, wb)
  {
    hide *;
    FaithfulRendering(prefix, f, a, b);
    CheapestScript(Edits(f), wa, wb);
  }

  lemma DiffWordsMeaning(from: string, to: string, prefix: string, a: seq<Token>, b: seq<Token>,
                         head: nat, tail: nat, g: seq<Piece>, ops: seq<Op>)
    requires Blank(prefix) && GoodTokens(a) && GoodTokens(b)
    requires prefix + Text(b) == to && Words(a) == WordsOf(from) && Words(b) == WordsOf(to)
    requires head + tail <= |a| && head + tail <= |b|
    requires head == HeadFrom(Words(a), Words(b), 0) && tail == TailFrom(Words(a), Words(b), head, 0)
    requires Faithful(g, a[head..|a| - tail], b[head..|b| - tail])
    requires var midA, midB := a[head..|a| - tail], b[head..|b| - tail];
             if |midA| * |midB| <= MAX_CELLS then |Pick(g, {Equal})| == Len(Words(midA), Words(midB))
             else Pick(g, {Equal}) == []
    requires ops == Render(prefix, Framed(b, head, tail, g))
    ensures SideText(ops, NEW) == to
    ensures SideWords(ops, OLD) == WordsOf(from)
    ensures CanonicalOrder(ops)
    ensures WordsOf(from) == WordsOf(to) ==> forall k :: 0 <= k < |ops| ==> ops[k].kind == Equal
    ensures FewestEdits(|SideWords(ops, {Delete})| + |SideWords(ops, {Insert})|, WordsOf(from), WordsOf(to))
            <==> MiddleFits(WordsOf(from), WordsOf(to)) || MiddlesDisjoint(WordsOf(from), WordsOf(to))
  {
    hide *;
    var f, wa, wb := Framed(b, head, tail, g), Words(a), Words(b);
    TrimmedWords(a, b, head, tail);
    FramedFaithful(a, b, head, tail, g);
    FaithfulRendering(prefix, f, a, b);
    FewestWhenMostKept(prefix, f, a, b, wa, wb);
    MiddleSize(a, b, head, tail);
    KeepsMost(wa, wb, |Pick(g, {Equal})|);
    if wa == wb { SameWordsAllEqual(prefix, a, b, head, tail, g); }
  }

  lemma MiddleSize(a: seq<Token>, b: seq<Token>, head: nat, tail: nat)
    requires head + tail <= |a| && head + tail <= |b|
    requires Middles(Words(a), Words(b)) == (Words(a[head..|a| - tail]), Words(b[head..|b| - tail]))
    ensures MiddleFits(Words(a), Words(b)) <==> |a[head..|a| - tail]| * |b[head..|b| - tail]| <= MAX_CELLS
    ensures |Middles(Words(a), Words(b)).0| == |a| - head - tail
  {
    hide Middles;
  }

  ghost predicate Trimmed(from: string, to: string, h: nat, t: nat) {
    LongestHead(WordsOf(from), WordsOf(to), h) && LongestTail(WordsOf(from), WordsOf(to), h, t)
  }

  /** The words kept before anything is deleted or inserted. */
  function FirstKept(ops: seq<Op>): seq<Word> {
    if ops != [] && ops[0].kind == Equal then WordsOf(ops[0].text) else []
  }

  /** The words kept after everything has been. */
  function LastKept(ops: seq<Op>): seq<Word> {
    if ops != [] && ops[|ops| - 1].kind == Equal then WordsOf(ops[|ops| - 1].text) else []
  }

  /** What the ops show of a head of h words and a tail of t. */
  ghost predicate ShowsTrim(from: string, to: string, ops: seq<Op>, h: nat, t: nat)
    requires Trimmed(from, to, h, t)
  {
    var a, b := WordsOf(from), WordsOf(to);
    && FirstKept(ops) == b[..h]
    && (|ops| > 1 ==> LastKept(ops) == b[|b| - t..])
    && (FewestEdits(|SideWords(ops, {Delete})| + |SideWords(ops, {Insert})|, a, b) <==>
          || (|a| - h - t) * (|b| - h - t) <= MAX_CELLS
          || Unlike(a[h..|a| - t], b[h..|b| - t]))
  }

  /** Later pieces leave the ops before them alone, once the kind changes. */
  lemma {:induction false} RenderAfter(prefix: string, f: seq<Piece>, rest: seq<Piece>)
    requires rest != [] && GoodScript(rest)
    requires var ops := Render(prefix, f); ops != [] ==> ops[|ops| - 1].kind != rest[0].kind
    ensures var ops, all := Render(prefix, f), Render(prefix, f + rest);
            |all| > |ops| && all[..|ops|] == ops && all[|ops|].kind == rest[0].kind
    decreases |rest|
  {
    hide *;
    var n := |rest| - 1;
    var init, p := rest[..n], rest[n];
    assert f + rest == (f + init) + [p];
    LastGood(rest);
    RenderSnoc(prefix, f + init, p);
    if n == 0 {
      assert f + init == f;
    } else {
      assert init[0] == rest[0];
      RenderAfter(prefix, f, init);
    }
    AppendKeeps(Render(prefix, f), Render(prefix, f + init), Op(p.kind, p.tok.word + p.tok.sep), rest[0].kind);
  }

  lemma LastGood(f: seq<Piece>)
    requires f != [] && GoodScript(f)
    ensures GoodScript(f[..|f| - 1]) && f[|f| - 1].tok.word + f[|f| - 1].tok.sep != ""
  {
    assert GoodToken(f[|f| - 1].tok);
  }

  lemma AppendKeeps(base: seq<Op>, ops: seq<Op>, op: Op, kind: Kind)
    requires op.text != "" && (base != [] ==> base[|base| - 1].kind != kind)
    requires if ops == base then op.kind == kind
             else |ops| > |base| && ops[..|base|] == base && ops[|base|].kind == kind
    ensures var all := AppendOp(ops, op);
            |all| > |base| && all[..|base|] == base && all[|base|].kind == kind
  {
  }

  /** A walk over sides that begin differently keeps nothing first, and over sides that
      end differently nothing last. */
  lemma {:induction false} MiddleIsDecided(x: seq<Token>, y: seq<Token>)
    requires x != [] || y != []
    requires x != [] && y != [] ==> x[0].word != y[0].word
    ensures MiddleOf(x, y) != [] && MiddleOf(x, y)[0].kind != Equal
  {
    hide Len;
  }

  lemma WalkFirst(x: seq<Token>, y: seq<Token>)
    requires x != [] && y != []
    ensures WalkOf(x, y) ==
            if x[0].word == y[0].word then [Piece(Equal, y[0])] + WalkOf(x[1..], y[1..])
            else if Len(Words(x[1..]), Words(y)) >= Len(Words(x), Words(y[1..])) then [Piece(Delete, x[0])] + WalkOf(x[1..], y)
            else [Piece(Insert, y[0])] + WalkOf(x, y[1..])
  {
  }

  lemma WalkBase(x: seq<Token>)
    ensures WalkOf([], x) == Pieces(Insert, x) && WalkOf(x, []) == if x == [] then [] else Pieces(Delete, x)
  {
  }

  lemma FirstTokenWord(x: seq<Token>)
    requires x != []
    ensures x[1..] != [] ==> x[1..][|x[1..]| - 1] == x[|x| - 1]
  {
  }

  lemma LastOfMore(p: Piece, f: seq<Piece>)
    ensures f != [] ==> ([p] + f)[|[p] + f| - 1] == f[|f| - 1]
  {
  }

  lemma {:induction false} WalkEndsDecided(x: seq<Token>, y: seq<Token>)
    requires x != [] || y != []
    requires x != [] && y != [] ==> x[|x| - 1].word != y[|y| - 1].word
    ensures WalkOf(x, y) != [] && WalkOf(x, y)[|WalkOf(x, y)| - 1].kind != Equal
    decreases |x| + |y|
  {
    hide *;
    if x == [] {
      WalkBase(y);
    } else if y == [] {
      WalkBase(x);
    } else {
      WalkFirst(x, y);
      FirstTokenWord(x);
      FirstTokenWord(y);
      if x[0].word == y[0].word {
        WalkEndsDecided(x[1..], y[1..]);
        LastOfMore(Piece(Equal, y[0]), WalkOf(x[1..], y[1..]));
      } else if Len(Words(x[1..]), Words(y)) >= Len(Words(x), Words(y[1..])) {
        WalkEndsDecided(x[1..], y);
        LastOfMore(Piece(Delete, x[0]), WalkOf(x[1..], y));
      } else {
        WalkEndsDecided(x, y[1..]);
        LastOfMore(Piece(Insert, y[0]), WalkOf(x, y[1..]));
      }
    }
  }

  /** Too many cells means there are words on both sides. */
  lemma ManyCells(x: seq<Token>, y: seq<Token>)
    ensures |x| * |y| > MAX_CELLS ==> x != [] && y != []
  {
    if x == [] || y == [] { assert |x| * |y| == 0; }
  }

  lemma MiddleEndsDecided(x: seq<Token>, y: seq<Token>)
    requires x != [] || y != []
    requires x != [] && y != [] ==> x[|x| - 1].word != y[|y| - 1].word
    ensures MiddleOf(x, y) != [] && MiddleOf(x, y)[|MiddleOf(x, y)| - 1].kind != Equal
  {
    hide *;
    MiddleIs(x, y);
    if |x| * |y| <= MAX_CELLS {
      WalkEndsDecided(x, y);
    } else {
      ManyCells(x, y);
      var f, g := Pieces(Delete, x), Pieces(Insert, y);
      assert (f + g)[|f + g| - 1] == g[|g| - 1];
    }
  }

  /** The middles of two token lists begin, and end, in different words. */
  lemma MiddlesDiffer(a: seq<Token>, b: seq<Token>, h: nat, t: nat)
    requires LongestHead(Words(a), Words(b), h) && LongestTail(Words(a), Words(b), h, t)
    ensures h + t <= |a| && h + t <= |b|
    ensures var x, y := a[h..|a| - t], b[h..|b| - t];
            && (x != [] && y != [] ==> x[0].word != y[0].word && x[|x| - 1].word != y[|y| - 1].word)
            && (x == [] && y == [] ==> t == 0)
  {
    var wa, wb := Words(a), Words(b);
    if h + t == |a| && h + t == |b| && t > 0 { TailMeets(wa, wb, t); }
  }

  /** The ops of a framed script begin with the head and end with the tail. */
  lemma FrameIsShown(prefix: string, b: seq<Token>, h: nat, t: nat, g: seq<Piece>, ops: seq<Op>)
    requires Blank(prefix) && GoodTokens(b) && h + t <= |b| && GoodScript(g)
    requires ops == Render(prefix, Framed(b, h, t, g))
    requires g == [] ==> t == 0
    requires g != [] ==> g[0].kind != Equal && g[|g| - 1].kind != Equal
    ensures FirstKept(ops) == Words(b[..h])
    ensures |ops| > 1 ==> LastKept(ops) == Words(b[|b| - t..])
  {
    hide *;
    var head, tail := b[..h], b[|b| - t..];
    PartsAreGood(b, h, t);
    HeadRendered(prefix, head);
    FramedParts(b, h, t, g);
    if g == [] {
      HeadAlone(prefix, head);
    } else {
      RenderAfter(prefix, Pieces(Equal, head), g);
      StartKept(prefix, head, Render(prefix, Pieces(Equal, head) + g), g[0].kind);
      TailRendered(prefix, head, g, tail);
      TailKept(prefix, head, Render(prefix, Pieces(Equal, head) + g), tail, ops);
    }
  }

  lemma PartsAreGood(b: seq<Token>, h: nat, t: nat)
    requires GoodTokens(b) && h + t <= |b|
    ensures GoodTokens(b[..h]) && GoodTokens(b[|b| - t..])
  {
    hide GoodToken;
  }

  lemma FramedParts(b: seq<Token>, h: nat, t: nat, g: seq<Piece>)
    requires h + t <= |b|
    ensures Framed(b, h, t, g) == (Pieces(Equal, b[..h]) + g) + Pieces(Equal, b[|b| - t..])
    ensures g == [] && t == 0 ==> Framed(b, h, t, g) == Pieces(Equal, b[..h])
    ensures t == 0 ==> b[|b| - t..] == [] && Pieces(Equal, []) == []
  {
  }

  lemma HeadRendered(prefix: string, head: seq<Token>)
    ensures Render(prefix, Pieces(Equal, head))
         == if prefix + Text(head) == "" then [] else [Op(Equal, prefix + Text(head))]
  {
    hide *;
    NoPiecesBefore(Pieces(Equal, head));
    RenderRun(prefix, [], Equal, head);
    RenderNone(prefix);
    AppendTwice([], Equal, prefix, Text(head));
    FirstAppended(prefix + Text(head));
  }

  lemma NoPiecesBefore(f: seq<Piece>)
    ensures [] + f == f
  {
  }

  lemma RenderNone(prefix: string)
    ensures Render(prefix, []) == AppendOp([], Op(Equal, prefix))
  {
  }

  lemma FirstAppended(text: string)
    ensures AppendOp([], Op(Equal, text)) == if text == "" then [] else [Op(Equal, text)]
  {
  }

  lemma HeadAlone(prefix: string, head: seq<Token>)
    requires Blank(prefix) && GoodTokens(head)
    requires Render(prefix, Pieces(Equal, head))
          == if prefix + Text(head) == "" then [] else [Op(Equal, prefix + Text(head))]
    ensures FirstKept(Render(prefix, Pieces(Equal, head))) == Words(head)
    ensures |Render(prefix, Pieces(Equal, head))| <= 1
  {
    hide Render, Text, WordsOf, Words, GoodTokens, Blank;
    PrefixHasNoWords(prefix, head);
    NoTextNoWords();
  }

  lemma NoTextNoWords()
    ensures WordsOf("") == []
  {
  }

  lemma StartKept(prefix: string, head: seq<Token>, all: seq<Op>, kind: Kind)
    requires Blank(prefix) && GoodTokens(head) && kind != Equal
    requires var ops := if prefix + Text(head) == "" then [] else [Op(Equal, prefix + Text(head))];
             |all| > |ops| && all[..|ops|] == ops && all[|ops|].kind == kind
    ensures FirstKept(all) == Words(head)
  {
    hide Text, WordsOf, Words, GoodTokens, Blank;
    PrefixHasNoWords(prefix, head);
    NoTextNoWords();
    if prefix + Text(head) != "" {
      assert all[..1][0] == all[0];
    }
  }

  lemma TailRendered(prefix: string, head: seq<Token>, g: seq<Piece>, tail: seq<Token>)
    requires Blank(prefix) && GoodTokens(head) && GoodScript(g) && g != []
    ensures var f := Pieces(Equal, head) + g;
            var ops := Render(prefix, f);
            && ops != [] && ops[|ops| - 1].kind == g[|g| - 1].kind
            && Render(prefix, f + Pieces(Equal, tail)) == AppendOp(ops, Op(Equal, Text(tail)))
  {
    hide Render, Text, AppendOp;
    var f := Pieces(Equal, head) + g;
    RenderRun(prefix, f, Equal, tail);
    assert f[|f| - 1] == g[|g| - 1];
    forall k | 0 <= k < |f| ensures GoodToken(f[k].tok) {
      if k < |head| { assert head[k] in head; } else { assert f[k] == g[k - |head|]; }
    }
    RenderLast(prefix, f);
  }

  lemma TailKept(prefix: string, head: seq<Token>, ops: seq<Op>, tail: seq<Token>, all: seq<Op>)
    requires GoodTokens(tail) && ops != [] && ops[|ops| - 1].kind != Equal
    requires all == AppendOp(ops, Op(Equal, Text(tail)))
    ensures LastKept(all) == Words(tail)
    ensures FirstKept(all) == FirstKept(ops)
  {
    hide Text, WordsOf, GoodTokens;
    TextWords(tail);
    NoTextNoWords();
  }

  lemma TrimIsShown(from: string, to: string, prefix: string, a: seq<Token>, b: seq<Token>,
                    head: nat, tail: nat, g: seq<Piece>, ops: seq<Op>)
    requires Blank(prefix) && GoodTokens(a) && GoodTokens(b)
    requires Words(a) == WordsOf(from) && Words(b) == WordsOf(to)
    requires head + tail <= |a| && head + tail <= |b|
    requires LongestHead(Words(a), Words(b), head) && LongestTail(Words(a), Words(b), head, tail)
    requires g == MiddleOf(a[head..|a| - tail], b[head..|b| - tail])
    requires ops == Render(prefix, Framed(b, head, tail, g))
    requires FewestEdits(|SideWords(ops, {Delete})| + |SideWords(ops, {Insert})|, WordsOf(from), WordsOf(to))
             <==> MiddleFits(WordsOf(from), WordsOf(to)) || MiddlesDisjoint(WordsOf(from), WordsOf(to))
    ensures forall h: nat, t: nat :: Trimmed(from, to, h, t) ==> ShowsTrim(from, to, ops, h, t)
  {
    hide *;
    var x, y := a[head..|a| - tail], b[head..|b| - tail];
    MiddlesDiffer(a, b, head, tail);
    MiddleGood(a, b, head, tail);
    if x != [] || y != [] {
      MiddleIsDecided(x, y);
      MiddleEndsDecided(x, y);
    } else {
      NothingBetween();
    }
    FrameIsShown(prefix, b, head, tail, g, ops);
    SliceWords(b, head, tail);
    TrimmedOnce(from, to, head, tail);
    MiddlesAre(Words(a), Words(b), head, tail);
    ShownOnce(from, to, ops, head, tail);
  }

  /** There is one head and one tail to show. */
  lemma TrimmedOnce(from: string, to: string, head: nat, tail: nat)
    requires LongestHead(WordsOf(from), WordsOf(to), head) && LongestTail(WordsOf(from), WordsOf(to), head, tail)
    ensures Trimmed(from, to, head, tail)
    ensures forall h: nat, t: nat :: Trimmed(from, to, h, t) ==> h == head && t == tail
  {
    var a, b := WordsOf(from), WordsOf(to);
    hide WordsOf, LongestHead, LongestTail, HeadFrom, TailFrom;
    BoundsOf(a, b, head, tail);
    HeadIsLongest(a, b, head);
    TailIsLongest(a, b, head, tail);
    forall h: nat, t: nat | Trimmed(from, to, h, t) ensures h == head && t == tail {
      HeadIsLongest(a, b, h);
      TailIsLongest(a, b, head, t);
    }
  }

  lemma ShownOnce(from: string, to: string, ops: seq<Op>, head: nat, tail: nat)
    requires Trimmed(from, to, head, tail)
    requires forall h: nat, t: nat :: Trimmed(from, to, h, t) ==> h == head && t == tail
    requires head + tail <= |WordsOf(from)| && head + tail <= |WordsOf(to)|
    requires FirstKept(ops) == WordsOf(to)[..head]
    requires |ops| > 1 ==> LastKept(ops) == WordsOf(to)[|WordsOf(to)| - tail..]
    requires FewestEdits(|SideWords(ops, {Delete})| + |SideWords(ops, {Insert})|, WordsOf(from), WordsOf(to))
             <==> MiddleFits(WordsOf(from), WordsOf(to)) || MiddlesDisjoint(WordsOf(from), WordsOf(to))
    requires var a, b := WordsOf(from), WordsOf(to);
             && (MiddleFits(a, b) <==> (|a| - head - tail) * (|b| - head - tail) <= MAX_CELLS)
             && (MiddlesDisjoint(a, b) <==> Unlike(a[head..|a| - tail], b[head..|b| - tail]))
    ensures forall h: nat, t: nat :: Trimmed(from, to, h, t) ==> ShowsTrim(from, to, ops, h, t)
  {
    hide Trimmed, FirstKept, LastKept, WordsOf, FewestEdits, SideWords, MiddleFits, MiddlesDisjoint, Unlike;
    assert ShowsTrim(from, to, ops, head, tail);
  }

  lemma BoundsOf(a: seq<Word>, b: seq<Word>, h: nat, t: nat)
    requires LongestTail(a, b, h, t)
    ensures h + t <= |a| && h + t <= |b|
  {
  }

  lemma NothingBetween()
    ensures MiddleOf([], []) == []
  {
  }

  lemma SliceWords(b: seq<Token>, h: nat, t: nat)
    requires h + t <= |b|
    ensures |Words(b)| == |b| && Words(b[..h]) == Words(b)[..h] && Words(b[|b| - t..]) == Words(b)[|b| - t..]
  {
  }

  /** Every piece of a middle holds one of the texts' tokens. */
  lemma MiddleGood(a: seq<Token>, b: seq<Token>, h: nat, t: nat)
    requires GoodTokens(a) && GoodTokens(b) && h + t <= |a| && h + t <= |b|
    ensures GoodScript(MiddleOf(a[h..|a| - t], b[h..|b| - t]))
  {
    hide *;
    var x, y := a[h..|a| - t], b[h..|b| - t];
    SliceGood(a, h, |a| - t);
    SliceGood(b, h, |b| - t);
    MiddleIs(x, y);
    WalkGood(x, y);
    PiecesGood(Delete, x);
    PiecesGood(Insert, y);
    BothGood(Pieces(Delete, x), Pieces(Insert, y));
  }

  ghost predicate AllGood(x: seq<Token>) {
    forall u :: u in x ==> GoodToken(u)
  }

  lemma SliceGood(a: seq<Token>, lo: nat, hi: nat)
    requires GoodTokens(a) && lo <= hi <= |a|
    ensures AllGood(a[lo..hi])
  {
    hide GoodToken, Gappy;
  }

  lemma RestGood(x: seq<Token>)
    requires AllGood(x) && x != []
    ensures GoodToken(x[0]) && AllGood(x[1..])
  {
    hide GoodToken;
    assert x[0] in x;
  }

  lemma PiecesGood(kind: Kind, x: seq<Token>)
    requires AllGood(x)
    ensures GoodScript(Pieces(kind, x))
  {
    hide GoodToken;
    forall k | 0 <= k < |x| ensures GoodToken(Pieces(kind, x)[k].tok) {
      assert x[k] in x;
    }
  }

  lemma BothGood(f: seq<Piece>, g: seq<Piece>)
    requires GoodScript(f) && GoodScript(g)
    ensures GoodScript(f + g)
  {
    hide GoodToken;
  }

  lemma MoreGood(p: Piece, f: seq<Piece>)
    requires GoodToken(p.tok) && GoodScript(f)
    ensures GoodScript([p] + f)
  {
    hide GoodToken;
  }

  lemma NoneGood()
    ensures GoodScript([])
  {
  }

  lemma {:induction false} WalkGood(x: seq<Token>, y: seq<Token>)
    requires AllGood(x) && AllGood(y)
    ensures GoodScript(WalkOf(x, y))
    decreases |x| + |y|
  {
    hide *;
    PiecesGood(Insert, y);
    PiecesGood(Delete, x);
    NoneGood();
    if x == [] {
      WalkBase(y);
    } else if y == [] {
      WalkBase(x);
    } else {
      WalkFirst(x, y);
      RestGood(x);
      RestGood(y);
      if x[0].word == y[0].word {
        WalkGood(x[1..], y[1..]);
        MoreGood(Piece(Equal, y[0]), WalkOf(x[1..], y[1..]));
      } else if Len(Words(x[1..]), Words(y)) >= Len(Words(x), Words(y[1..])) {
        WalkGood(x[1..], y);
        MoreGood(Piece(Delete, x[0]), WalkOf(x[1..], y));
      } else {
        WalkGood(x, y[1..]);
        MoreGood(Piece(Insert, y[0]), WalkOf(x, y[1..]));
      }
    }
  }

  /** The word-level difference between two texts. */
  method DiffWords(from: string, to: string) returns (ops: seq<Op>)
    // Kept and inserted text is the newer text, byte for byte; kept and deleted words are the older words.
    ensures SideText(ops, NEW) == to
    ensures SideWords(ops, OLD) == WordsOf(from)
    ensures CanonicalOrder(ops)
    ensures WordsOf(from) == WordsOf(to) ==> forall k :: 0 <= k < |ops| ==> ops[k].kind == Equal
    // As few deleted and inserted words as any edit script, exactly when the table was used or had nothing to find.
    ensures FewestEdits(|SideWords(ops, {Delete})| + |SideWords(ops, {Insert})|, WordsOf(from), WordsOf(to))
            <==> MiddleFits(WordsOf(from), WordsOf(to)) || MiddlesDisjoint(WordsOf(from), WordsOf(to))
    // The longest shared head is kept first, the longest shared tail after it is kept last, and
    // what is between them is what must fit the table or share no word.
    ensures forall h: nat, t: nat :: Trimmed(from, to, h, t) ==> ShowsTrim(from, to, ops, h, t)
    // And which ops, of all those, they are.
    ensures IsDiff(from, to, ops)
  {
    hide *;
    var fromPrefix, a := Tokenize(from);
    var toPrefix, b := Tokenize(to);
    var head := CountHead(a, b);
    var tail := CountTail(a, b, head);

    ops := [];
    if toPrefix != "" {
      ops := AppendOp(ops, Op(Equal, toPrefix));
    }
    PrefixOnly(toPrefix);
    ops := Emit(ops, Equal, b[..head], toPrefix, []);

    var midA, midB := a[head..|a| - tail], b[head..|b| - tail];
    MidGappy(a, head, tail);
    MiddleIs(midA, midB);
    ghost var g: seq<Piece>;
    ghost var f := [] + Pieces(Equal, b[..head]);
    if |midA| > 0 && |midB| > 0 && |midA| * |midB| > MAX_CELLS {
      ReplacedMiddle(midA, midB);
      ops := Emit(ops, Delete, midA, toPrefix, f);
      ops := Emit(ops, Insert, midB, toPrefix, f + Pieces(Delete, midA));
      g := Pieces(Delete, midA) + Pieces(Insert, midB);
      assert f + Pieces(Delete, midA) + Pieces(Insert, midB) == f + g;
    } else {
      SmallProduct(|midA|, |midB|);
      var runs := LcsDiff(midA, midB);
      ops := EmitRuns(ops, runs, toPrefix, f);
      g := Flatten(runs);
    }
    ops := Emit(ops, Equal, b[|b| - tail..], toPrefix, f + g);
    FramedIs(b, head, tail, g);
    DiffWordsMeaning(from, to, toPrefix, a, b, head, tail, g, ops);
    ScriptIs(from, to, fromPrefix, a, toPrefix, b, head, tail, g, ops);
    TrimIsShown(from, to, toPrefix, a, b, head, tail, g, ops);
  }

  lemma ScriptIs(from: string, to: string, p: string, a: seq<Token>, q: string, b: seq<Token>,
                 head: nat, tail: nat, g: seq<Piece>, ops: seq<Op>)
    requires p + Text(a) == from && Blank(p) && GoodTokens(a)
    requires q + Text(b) == to && Blank(q) && GoodTokens(b)
    requires head + tail <= |a| && head + tail <= |b|
    requires head == HeadFrom(Words(a), Words(b), 0) && tail == TailFrom(Words(a), Words(b), head, 0)
    requires g == MiddleOf(a[head..|a| - tail], b[head..|b| - tail])
    requires ops == Render(q, Framed(b, head, tail, g))
    ensures IsDiff(from, to, ops)
  {
    hide HeadFrom, TailFrom, MiddleOf, Framed, Render, GoodTokens, Blank, Text;
    assert Tokenized(from, p, a) && Tokenized(to, q, b);
    assert ops == Render(q, ScriptOf(a, b));
  }

  /** Whether the middle fits decides which script it gets. */
  lemma MiddleIs(a: seq<Token>, b: seq<Token>)
    ensures |a| * |b| <= MAX_CELLS ==> MiddleOf(a, b) == WalkOf(a, b)
    ensures |a| * |b| > MAX_CELLS ==> MiddleOf(a, b) == Pieces(Delete, a) + Pieces(Insert, b)
  {
  }
}
