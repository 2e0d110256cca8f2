/** The vocabulary of the word diff: tokens, ops, and the flat script of kept,
    deleted and inserted tokens that a list of ops renders. */
module DiffScript {
  import opened Lcs

  datatype Kind = Equal | Delete | Insert

  /** A run of text with one fate. */
  datatype Op = Op(kind: Kind, text: string)

  /** A word and the whitespace that follows it. */
  datatype Token = Token(word: string, sep: string)

  /** One token and its fate. */
  datatype Piece = Piece(kind: Kind, tok: Token)

  const OLD: set<Kind> := {Equal, Delete}
  const NEW: set<Kind> := {Equal, Insert}

  predicate IsSpace(c: char) {
    c == ' ' || c == '\t' || c == '\n' || c == '\r' || c == '\U{B}' || c == '\U{C}'
  }

  ghost predicate Blank(s: string) {
    forall k :: 0 <= k < |s| ==> IsSpace(s[k])
  }

  ghost predicate Solid(s: string) {
    s != "" && forall k :: 0 <= k < |s| ==> !IsSpace(s[k])
  }

  ghost predicate GoodToken(t: Token) {
    Solid(t.word) && Blank(t.sep)
  }

  /** Only the last separator may be empty. */
  ghost predicate Gappy(toks: seq<Token>) {
    forall k :: 0 <= k < |toks| - 1 ==> toks[k].sep != ""
  }

  ghost predicate GoodTokens(toks: seq<Token>) {
    Gappy(toks) && forall t :: t in toks ==> GoodToken(t)
  }

  // ---------------------------------------------------------------------
  // What a text's words are
  // ---------------------------------------------------------------------

  /** How many characters of s come before its first whitespace. */
  function WordEnd(s: string): (n: nat)
    ensures n <= |s|
  {
    if s == "" || IsSpace(s[0]) then 0 else 1 + WordEnd(s[1..])
  }

  /** The maximal whitespace-free stretches of s, in order. */
  function WordsOf(s: string): seq<Word>
    decreases |s|
  {
    if s == "" then []
    else if IsSpace(s[0]) then WordsOf(s[1..])
    else [s[..WordEnd(s)]] + WordsOf(s[WordEnd(s)..])
  }

  lemma {:induction false} WordEndAt(w: string, rest: string)
    requires forall k :: 0 <= k < |w| ==> !IsSpace(w[k])
    requires rest == "" || IsSpace(rest[0])
    ensures WordEnd(w + rest) == |w|
    decreases |w|
  {
    if w == "" {
      assert w + rest == rest;
    } else {
      assert (w + rest)[1..] == w[1..] + rest;
      WordEndAt(w[1..], rest);
    }
  }

  lemma {:induction false} WordEndSolid(s: string)
    ensures forall k :: 0 <= k < WordEnd(s) ==> !IsSpace(s[k])
    ensures WordEnd(s) < |s| ==> IsSpace(s[WordEnd(s)])
    decreases |s|
  {
    if s != "" && !IsSpace(s[0]) {
      WordEndSolid(s[1..]);
      forall k | 0 <= k < WordEnd(s) ensures !IsSpace(s[k]) {
        assert k > 0 ==> s[k] == s[1..][k - 1];
      }
    }
  }

  lemma {:induction false} WordsOfBlank(s: string)
    requires Blank(s)
    ensures WordsOf(s) == []
    decreases |s|
  {
    if s != "" { WordsOfBlank(s[1..]); }
  }

  lemma WordsOfSpace(c: char, rest: string)
    requires IsSpace(c)
    ensures WordsOf([c] + rest) == WordsOf(rest)
  {
    assert ([c] + rest)[1..] == rest;
  }

  lemma WordsOfWord(w: string, rest: string)
    requires Solid(w) && (rest == "" || IsSpace(rest[0]))
    ensures WordsOf(w + rest) == [w] + WordsOf(rest)
  {
    WordEndAt(w, rest);
    assert (w + rest)[..|w|] == w && (w + rest)[|w|..] == rest;
  }

  /** Cutting a text where whitespace is on either side cuts its words. */
  lemma {:induction false} WordsOfConcat(x: string, y: string)
    requires x == "" || IsSpace(x[|x| - 1]) || y == "" || IsSpace(y[0])
    ensures WordsOf(x + y) == WordsOf(x) + WordsOf(y)
    decreases |x|
  {
    if x == "" {
      assert x + y == y && WordsOf(x) == [];
      return;
    }
    hide WordsOf, WordEnd;
    if IsSpace(x[0]) {
      assert x == [x[0]] + x[1..] && x + y == [x[0]] + (x[1..] + y);
      WordsOfConcat(x[1..], y);
      WordsOfSpace(x[0], x[1..]);
      WordsOfSpace(x[0], x[1..] + y);
    } else {
      var n := WordEnd(x);
      WordEndSolid(x);
      WordEndPositive(x);
      assert x == x[..n] + x[n..];
      WordsOfConcat(x[n..], y);
      WordThenWords(x[..n], x[n..], y);
    }
  }

  lemma WordThenWords(w: string, rest: string, y: string)
    requires Solid(w) && (rest == "" || IsSpace(rest[0])) && (rest + y == "" || IsSpace((rest + y)[0]))
    requires WordsOf(rest + y) == WordsOf(rest) + WordsOf(y)
    ensures WordsOf((w + rest) + y) == WordsOf(w + rest) + WordsOf(y)
  {
    hide WordsOf;
    assert (w + rest) + y == w + (rest + y);
    WordsOfWord(w, rest);
    WordsOfWord(w, rest + y);
    assert ([w] + WordsOf(rest)) + WordsOf(y) == [w] + (WordsOf(rest) + WordsOf(y));
  }

  lemma WordEndPositive(s: string)
    requires s != "" && !IsSpace(s[0])
    ensures WordEnd(s) > 0
  {
  }

  lemma {:induction false} WordsOfToken(t: Token)
    requires GoodToken(t)
    ensures WordsOf(t.word + t.sep) == [t.word]
  {
    WordsOfWord(t.word, t.sep);
    WordsOfBlank(t.sep);
  }

  // ---------------------------------------------------------------------
  // Token lists
  // ---------------------------------------------------------------------

  function Words(toks: seq<Token>): (ws: seq<Word>)
    ensures |ws| == |toks| && forall k :: 0 <= k < |ws| ==> ws[k] == toks[k].word
  {
    seq(|toks|, k requires 0 <= k < |toks| => toks[k].word)
  }

  /** Every word with its separator, end to end. */
  function Text(toks: seq<Token>): string {
    if toks == [] then ""
    else Text(toks[..|toks| - 1]) + toks[|toks| - 1].word + toks[|toks| - 1].sep
  }

  lemma TextSnoc(toks: seq<Token>, t: Token)
    ensures Text(toks + [t]) == Text(toks) + (t.word + t.sep)
  {
    assert (toks + [t])[..|toks|] == toks;
  }

  lemma {:induction false} TextConcat(a: seq<Token>, b: seq<Token>)
    ensures Text(a + b) == Text(a) + Text(b)
    decreases |b|
  {
    if b == [] {
      assert a + b == a;
    } else {
      var n := |b| - 1;
      assert (a + b)[..|a + b| - 1] == a + b[..n];
      TextConcat(a, b[..n]);
    }
  }

  lemma {:induction false} TextWords(toks: seq<Token>)
    requires GoodTokens(toks)
    ensures WordsOf(Text(toks)) == Words(toks)
    decreases |toks|
  {
    if toks != [] {
      var n := |toks| - 1;
      var init, t := toks[..n], toks[n];
      TextWords(init);
      if init != [] {
        assert init[n - 1].sep != "";
        TextEndsBlank(init);
      }
      assert Text(toks) == Text(init) + (t.word + t.sep);
      hide WordsOf, Text;
      WordsOfAppend(Text(init), t);
      assert Words(toks) == Words(init) + [t.word];
    }
  }

  lemma {:induction false} WordsOfAppend(x: string, t: Token)
    requires GoodToken(t)
    requires x == "" || IsSpace(x[|x| - 1])
    ensures WordsOf(x + (t.word + t.sep)) == WordsOf(x) + [t.word]
  {
    hide WordsOf;
    WordsOfToken(t);
    WordsOfConcat(x, t.word + t.sep);
  }

  lemma {:induction false} TextEndsBlank(toks: seq<Token>)
    requires toks != [] && GoodToken(toks[|toks| - 1]) && toks[|toks| - 1].sep != ""
    ensures Text(toks) != "" && IsSpace(Text(toks)[|Text(toks)| - 1])
  {
  }

  // ---------------------------------------------------------------------
  // Scripts
  // ---------------------------------------------------------------------

  function Pieces(kind: Kind, toks: seq<Token>): (ps: seq<Piece>)
    ensures |ps| == |toks| && forall k :: 0 <= k < |ps| ==> ps[k] == Piece(kind, toks[k])
  {
    seq(|toks|, k requires 0 <= k < |toks| => Piece(kind, toks[k]))
  }

  /** The tokens of the pieces whose kind is in ks, in order. */
  function Pick(f: seq<Piece>, ks: set<Kind>): seq<Token> {
    if f == [] then []
    else Pick(f[..|f| - 1], ks) + (if f[|f| - 1].kind in ks then [f[|f| - 1].tok] else [])
  }

  lemma {:induction false} PickSnoc(f: seq<Piece>, p: Piece, ks: set<Kind>)
    ensures Pick(f + [p], ks) == Pick(f, ks) + (if p.kind in ks then [p.tok] else [])
  {
    assert (f + [p])[..|f|] == f;
  }

  lemma {:induction false} PickConcat(f: seq<Piece>, g: seq<Piece>, ks: set<Kind>)
    ensures Pick(f + g, ks) == Pick(f, ks) + Pick(g, ks)
    decreases |g|
  {
    if g == [] {
      assert f + g == f;
    } else {
      assert (f + g)[..|f + g| - 1] == f + g[..|g| - 1];
      PickConcat(f, g[..|g| - 1], ks);
    }
  }

  lemma {:induction false} PickPieces(kind: Kind, toks: seq<Token>, ks: set<Kind>)
    ensures Pick(Pieces(kind, toks), ks) == if kind in ks then toks else []
    decreases |toks|
  {
    if toks != [] {
      var n := |toks| - 1;
      assert Pieces(kind, toks)[..n] == Pieces(kind, toks[..n]);
      PickPieces(kind, toks[..n], ks);
      assert toks == toks[..n] + [toks[n]];
    }
  }

  /** An insertion is never immediately followed by a deletion. */
  ghost predicate DeletesFirst(f: seq<Piece>) {
    forall k :: 0 <= k < |f| - 1 ==> !(f[k].kind == Insert && f[k + 1].kind == Delete)
  }

  /** Neighbours that will be shown as one run are separated by whitespace. */
  ghost predicate Spaced(f: seq<Piece>) {
    forall k :: 0 <= k < |f| - 1 && f[k].kind == f[k + 1].kind ==> f[k].tok.sep != ""
  }

  lemma {:induction false} PickGap(f: seq<Piece>, ks: set<Kind>, k: nat)
    requires k + 1 < |f| && f[k].kind in ks && f[k + 1].kind in ks
    requires Gappy(Pick(f, ks))
    ensures f[k].tok.sep != ""
  {
    var l, r := f[..k], f[k + 2..];
    assert f == ((l + [f[k]]) + [f[k + 1]]) + r;
    PickConcat((l + [f[k]]) + [f[k + 1]], r, ks);
    PickSnoc(l + [f[k]], f[k + 1], ks);
    PickSnoc(l, f[k], ks);
    assert Pick(f, ks)[|Pick(l, ks)|] == f[k].tok;
  }

  lemma {:induction false} SpacedFromSides(f: seq<Piece>)
    requires Gappy(Pick(f, NEW)) && Gappy(Pick(f, {Delete}))
    ensures Spaced(f)
  {
    forall k | 0 <= k < |f| - 1 && f[k].kind == f[k + 1].kind
      ensures f[k].tok.sep != ""
    {
      PickGap(f, if f[k].kind == Delete then {Delete} else NEW, k);
    }
  }

  lemma {:induction false} PieceIsPicked(f: seq<Piece>, ks: set<Kind>, k: nat)
    requires k < |f| && f[k].kind in ks
    ensures f[k].tok in Pick(f, ks)
    decreases |f|
  {
    if k < |f| - 1 { PieceIsPicked(f[..|f| - 1], ks, k); }
  }

  // ---------------------------------------------------------------------
  // Scripts as edit scripts
  // ---------------------------------------------------------------------

  function EditOf(p: Piece): Edit {
    match p.kind
    case Equal => Keep(p.tok.word)
    case Delete => Drop(p.tok.word)
    case Insert => Add(p.tok.word)
  }

  function Edits(f: seq<Piece>): seq<Edit> {
    if f == [] then [] else Edits(f[..|f| - 1]) + [EditOf(f[|f| - 1])]
  }

  lemma {:induction false} BeforeSnoc(es: seq<Edit>, e: Edit)
    ensures Before(es + [e]) == Before(es) + (if e.Add? then [] else [e.w])
    decreases |es|
  {
    if es == [] {
      assert es + [e] == [e];
    } else {
      assert (es + [e])[1..] == es[1..] + [e];
      BeforeSnoc(es[1..], e);
      var first, last := if es[0].Add? then [] else [es[0].w], if e.Add? then [] else [e.w];
      assert Before(es + [e]) == first + (Before(es[1..]) + last);
      assert first + (Before(es[1..]) + last) == (first + Before(es[1..])) + last;
    }
  }

  lemma {:induction false} AfterSnoc(es: seq<Edit>, e: Edit)
    ensures After(es + [e]) == After(es) + (if e.Drop? then [] else [e.w])
    decreases |es|
  {
    if es == [] {
      assert es + [e] == [e];
    } else {
      assert (es + [e])[1..] == es[1..] + [e];
      AfterSnoc(es[1..], e);
      var first, last := if es[0].Drop? then [] else [es[0].w], if e.Drop? then [] else [e.w];
      assert After(es + [e]) == first + (After(es[1..]) + last);
      assert first + (After(es[1..]) + last) == (first + After(es[1..])) + last;
    }
  }

  lemma {:induction false} KeptSnoc(es: seq<Edit>, e: Edit)
    ensures Kept(es + [e]) == Kept(es) + (if e.Keep? then [e.w] else [])
    ensures Cost(es + [e]) == Cost(es) + (if e.Keep? then 0 else 1)
    decreases |es|
  {
    if es == [] {
      assert es + [e] == [e];
    } else {
      assert (es + [e])[1..] == es[1..] + [e];
      KeptSnoc(es[1..], e);
    }
  }

  lemma {:induction false} EditsOfScript(f: seq<Piece>)
    ensures Before(Edits(f)) == Words(Pick(f, OLD))
    ensures After(Edits(f)) == Words(Pick(f, NEW))
    ensures |Kept(Edits(f))| == |Pick(f, {Equal})|
    ensures Cost(Edits(f)) == |Pick(f, {Delete})| + |Pick(f, {Insert})|
    decreases |f|
  {
    if f != [] {
      hide Before, After, Kept, Cost, Pick;
      var init, p := f[..|f| - 1], f[|f| - 1];
      EditsOfScript(init);
      BeforeSnoc(Edits(init), EditOf(p));
      AfterSnoc(Edits(init), EditOf(p));
      KeptSnoc(Edits(init), EditOf(p));
      hide Edits;
      assert f == init + [p];
      PickSnoc(init, p, OLD);
      PickSnoc(init, p, NEW);
      PickSnoc(init, p, {Equal});
      PickSnoc(init, p, {Delete});
      PickSnoc(init, p, {Insert});
    }
  }

  // ---------------------------------------------------------------------
  // A text determines its separators
  // ---------------------------------------------------------------------

  /** The white space a text ends with, after a last word, is fixed by the text. */
  lemma LastGap(p: string, w: string, gap: string, q: string, gap': string)
    requires Solid(w) && Blank(gap) && Blank(gap')
    requires p + w + gap == q + w + gap'
    ensures |gap'| <= |gap|
  {
    var s := p + w + gap;
    assert s[|s| - 1 - |gap|] == w[|w| - 1];
    assert forall k :: |s| - |gap'| <= k < |s| ==> s[k] == gap'[k - (|s| - |gap'|)];
  }

  lemma LastWordPeels(p: string, w: string, gap: string, q: string, gap': string)
    requires Solid(w) && Blank(gap) && Blank(gap')
    requires p + w + gap == q + w + gap'
    ensures p == q && gap == gap'
  {
    LastGap(p, w, gap, q, gap');
    LastGap(q, w, gap', p, gap);
    assert (p + w + gap)[|p + w|..] == gap && (q + w + gap')[|q + w|..] == gap';
    assert (p + w + gap)[..|p|] == p && (q + w + gap')[..|q|] == q;
  }

  lemma LastOf(x: seq<Token>)
    requires x != [] && forall t :: t in x ==> GoodToken(t)
    ensures var n := |x| - 1;
            && x == x[..n] + [x[n]] && GoodToken(x[n]) && (forall t :: t in x[..n] ==> GoodToken(t))
            && Words(x[..n]) == Words(x)[..n] && Words(x)[n] == x[n].word
  {
    assert x[|x| - 1] in x;
  }

  /** Tokens with the same words spell the same text only if they are the same tokens. */
  lemma {:induction false} TextTellsTokens(p: string, x: seq<Token>, q: string, y: seq<Token>)
    requires (forall t :: t in x ==> GoodToken(t)) && (forall t :: t in y ==> GoodToken(t))
    requires Words(x) == Words(y) && p + Text(x) == q + Text(y)
    ensures p == q && x == y
    decreases |x|
  {
    assert |x| == |Words(x)| == |Words(y)| == |y|;
    if x == [] {
      assert p + "" == p && q + "" == q;
    } else {
      hide *;
      var n := |x| - 1;
      LastOf(x);
      LastOf(y);
      LastTokenPeels(p, x[..n], x[n], q, y[..n], y[n]);
      TextTellsTokens(p, x[..n], q, y[..n]);
    }
  }

  lemma Regrouped(p: string, text: string, w: string, gap: string)
    ensures p + (text + (w + gap)) == (p + text) + w + gap
  {
  }

  lemma LastTokenPeels(p: string, x: seq<Token>, s: Token, q: string, y: seq<Token>, t: Token)
    requires GoodToken(s) && GoodToken(t) && s.word == t.word
    requires p + Text(x + [s]) == q + Text(y + [t])
    ensures s == t && p + Text(x) == q + Text(y)
  {
    hide Text;
    TextSnoc(x, s);
    TextSnoc(y, t);
    hide *;
    Regrouped(p, Text(x), s.word, s.sep);
    Regrouped(q, Text(y), t.word, t.sep);
    Peels(p + Text(x), s, q + Text(y), t);
  }

  lemma Peels(p: string, s: Token, q: string, t: Token)
    requires GoodToken(s) && GoodToken(t) && s.word == t.word && p + s.word + s.sep == q + t.word + t.sep
    ensures s == t && p == q
  {
    hide Solid, Blank;
    LastWordPeels(p, s.word, s.sep, q, t.sep);
  }

  /** A word set directly after another makes one word of the two. */
  lemma {:induction false} WordsOfJoin(x: string, w: string, gap: string)
    requires x != "" && !IsSpace(x[|x| - 1]) && Solid(w) && Blank(gap)
    ensures |WordsOf(x + (w + gap))| == |WordsOf(x)|
    decreases |x|
  {
    var y := w + gap;
    hide WordsOf, WordEnd;
    if IsSpace(x[0]) {
      assert x == [x[0]] + x[1..] && x + y == [x[0]] + (x[1..] + y);
      WordsOfJoin(x[1..], w, gap);
      WordsOfSpace(x[0], x[1..]);
      WordsOfSpace(x[0], x[1..] + y);
    } else {
      var n := WordEnd(x);
      WordEndSolid(x);
      WordEndPositive(x);
      if n < |x| {
        assert x == x[..n] + x[n..] && x + y == x[..n] + (x[n..] + y);
        WordsOfJoin(x[n..], w, gap);
        WordsOfWord(x[..n], x[n..]);
        WordsOfWord(x[..n], x[n..] + y);
      } else {
        assert x + y == (x + w) + gap && x == x + "";
        WordsOfWord(x, "");
        WordsOfWord(x + w, gap);
        WordsOfBlank(gap);
        WordsOfBlank("");
      }
    }
  }

  /** A text has a word for each of its tokens only if every separator but the last is there. */
  lemma {:induction false} WordPerToken(toks: seq<Token>)
    requires forall t :: t in toks ==> GoodToken(t)
    ensures |WordsOf(Text(toks))| <= |toks|
    ensures |WordsOf(Text(toks))| == |toks| ==> Gappy(toks)
    decreases |toks|
  {
    if toks != [] {
      var n := |toks| - 1;
      var init, t := toks[..n], toks[n];
      assert t in toks && forall u :: u in init ==> u in toks;
      hide WordsOf, Text, GoodToken;
      WordPerToken(init);
      assert toks == init + [t];
      TextSnoc(init, t);
      OneMoreToken(init, t);
    }
  }

  lemma OneMoreToken(init: seq<Token>, t: Token)
    requires (forall u :: u in init ==> GoodToken(u)) && GoodToken(t)
    requires |WordsOf(Text(init))| <= |init| && (|WordsOf(Text(init))| == |init| ==> Gappy(init))
    ensures var n := |WordsOf(Text(init) + (t.word + t.sep))|;
            n <= |init| + 1 && (n == |init| + 1 ==> Gappy(init + [t]))
  {
    if init == [] {
      hide WordsOf;
      WordsOfAppend("", t);
    } else if init[|init| - 1].sep != "" {
      TextEndsBlank(init);
      hide WordsOf, Text;
      WordsOfAppend(Text(init), t);
    } else {
      TextEndsSolid(init);
      hide WordsOf, Text;
      WordsOfJoin(Text(init), t.word, t.sep);
    }
  }

  lemma TextEndsSolid(toks: seq<Token>)
    requires toks != [] && GoodToken(toks[|toks| - 1]) && toks[|toks| - 1].sep == ""
    ensures Text(toks) != "" && !IsSpace(Text(toks)[|Text(toks)| - 1])
  {
    var t := toks[|toks| - 1];
    assert Text(toks) == Text(toks[..|toks| - 1]) + t.word;
  }

  /** A text's words are its tokens' words exactly when every separator but the last is there. */
  lemma TextWordsExactly(prefix: string, toks: seq<Token>)
    requires Blank(prefix) && forall t :: t in toks ==> GoodToken(t)
    ensures WordsOf(prefix + Text(toks)) == Words(toks) <==> Gappy(toks)
  {
    hide WordsOf, Text;
    WordsOfBlank(prefix);
    WordsOfConcat(prefix, Text(toks));
    WordPerToken(toks);
    if Gappy(toks) { TextWords(toks); }
  }

  lemma {:induction false} PickedAreGood(f: seq<Piece>, ks: set<Kind>)
    requires forall k :: 0 <= k < |f| ==> GoodToken(f[k].tok)
    ensures forall t :: t in Pick(f, ks) ==> GoodToken(t)
    decreases |f|
  {
    if f != [] { PickedAreGood(f[..|f| - 1], ks); }
  }
}

/** Ops as the rendering of a script. */
module DiffOps {
  import opened Lcs
  import opened DiffScript

  /** Adds an op, merging it into the previous one when the kinds match. */
  function AppendOp(ops: seq<Op>, op: Op): seq<Op> {
    if op.text == "" then ops
    else if ops != [] && ops[|ops| - 1].kind == op.kind then
      ops[|ops| - 1 := Op(op.kind, ops[|ops| - 1].text + op.text)]
    else ops + [op]
  }

  /** The ops that show a script after a leading run of whitespace. */
  function Render(prefix: string, f: seq<Piece>): seq<Op> {
    if f == [] then AppendOp([], Op(Equal, prefix))
    else
      var p := f[|f| - 1];
      AppendOp(Render(prefix, f[..|f| - 1]), Op(p.kind, p.tok.word + p.tok.sep))
  }

  /** The text of the ops whose kind is in ks. */
  function SideText(ops: seq<Op>, ks: set<Kind>): string {
    if ops == [] then ""
    else SideText(ops[..|ops| - 1], ks) + (if ops[|ops| - 1].kind in ks then ops[|ops| - 1].text else "")
  }

  /** The words of the ops whose kind is in ks, run by run. */
  function SideWords(ops: seq<Op>, ks: set<Kind>): seq<Word> {
    if ops == [] then []
    else SideWords(ops[..|ops| - 1], ks) + (if ops[|ops| - 1].kind in ks then WordsOf(ops[|ops| - 1].text) else [])
  }

  ghost predicate CanonicalOrder(ops: seq<Op>) {
    && (forall k :: 0 <= k < |ops| ==> ops[k].text != "")
    && (forall k :: 0 <= k < |ops| - 1 ==> ops[k].kind != ops[k + 1].kind)
    && (forall k :: 0 <= k < |ops| - 1 ==> !(ops[k].kind == Insert && ops[k + 1].kind == Delete))
  }

  ghost predicate GoodScript(f: seq<Piece>) {
    forall k :: 0 <= k < |f| ==> GoodToken(f[k].tok)
  }

  /** Emitting a whole run at once is emitting its tokens one at a time. */
  lemma {:induction false} RenderRun(prefix: string, f: seq<Piece>, kind: Kind, toks: seq<Token>)
    ensures Render(prefix, f + Pieces(kind, toks)) == AppendOp(Render(prefix, f), Op(kind, Text(toks)))
    decreases |toks|
  {
    var g := f + Pieces(kind, toks);
    if toks == [] {
      assert g == f;
    } else {
      var n := |toks| - 1;
      var t := toks[n];
      assert g[..|g| - 1] == f + Pieces(kind, toks[..n]);
      assert g[|g| - 1] == Piece(kind, t);
      assert Text(toks) == Text(toks[..n]) + (t.word + t.sep);
      assert Render(prefix, g) == AppendOp(Render(prefix, g[..|g| - 1]), Op(kind, t.word + t.sep));
      hide Render, Text, AppendOp;
      RenderRun(prefix, f, kind, toks[..n]);
      AppendTwice(Render(prefix, f), kind, Text(toks[..n]), t.word + t.sep);
    }
  }

  lemma {:induction false} AppendTwice(ops: seq<Op>, kind: Kind, x: string, y: string)
    ensures AppendOp(AppendOp(ops, Op(kind, x)), Op(kind, y)) == AppendOp(ops, Op(kind, x + y))
  {
    if x == "" {
      assert x + y == y;
    } else if y == "" {
      assert x + y == x;
    } else if ops != [] && ops[|ops| - 1].kind == kind {
      assert (ops[|ops| - 1].text + x) + y == ops[|ops| - 1].text + (x + y);
    }
  }

  /** What Render says about its last op. */
  lemma {:induction false} RenderLast(prefix: string, f: seq<Piece>)
    requires Blank(prefix) && GoodScript(f)
    ensures f == [] ==> Render(prefix, f) == (if prefix == "" then [] else [Op(Equal, prefix)])
    ensures f != [] ==>
      var ops, p := Render(prefix, f), f[|f| - 1];
      && ops != [] && ops[|ops| - 1].kind == p.kind
      && |ops[|ops| - 1].text| >= |p.tok.word + p.tok.sep|
      && ops[|ops| - 1].text[|ops[|ops| - 1].text| - |p.tok.word + p.tok.sep|..] == p.tok.word + p.tok.sep
  {
  }

  lemma {:induction false} RenderCanonical(prefix: string, f: seq<Piece>)
    requires Blank(prefix) && GoodScript(f) && DeletesFirst(f)
    ensures CanonicalOrder(Render(prefix, f))
    decreases |f|
  {
    if f != [] {
      var init, p := f[..|f| - 1], f[|f| - 1];
      assert Render(prefix, f) == AppendOp(Render(prefix, init), Op(p.kind, p.tok.word + p.tok.sep));
      hide Render;
      RenderCanonical(prefix, init);
      RenderLast(prefix, init);
      if |f| > 1 { assert init[|init| - 1] == f[|f| - 2]; }
      AppendCanonical(Render(prefix, init), Op(p.kind, p.tok.word + p.tok.sep));
    }
  }

  lemma AppendCanonical(ops: seq<Op>, op: Op)
    requires CanonicalOrder(ops)
    requires ops != [] ==> !(ops[|ops| - 1].kind == Insert && op.kind == Delete)
    ensures CanonicalOrder(AppendOp(ops, op))
  {
  }

  lemma {:induction false} RenderText(prefix: string, f: seq<Piece>, ks: set<Kind>)
    requires Equal in ks
    ensures SideText(Render(prefix, f), ks) == prefix + Text(Pick(f, ks))
    decreases |f|
  {
    if f == [] {
      LeadingText(prefix, ks);
      return;
    }
    hide SideText, AppendOp, Text, Render, Pick;
    var init, p := f[..|f| - 1], f[|f| - 1];
    assert f == init + [p];
    RenderText(prefix, init, ks);
    RenderSnoc(prefix, init, p);
    PickSnoc(init, p, ks);
    TextAfter(prefix, Render(prefix, init), Pick(init, ks), p, ks);
  }

  lemma LeadingText(prefix: string, ks: set<Kind>)
    requires Equal in ks
    ensures SideText(Render(prefix, []), ks) == prefix + Text(Pick([], ks))
  {
    var op := Op(Equal, prefix);
    assert [op][..0] == [];
    assert SideText([op], ks) == "" + prefix;
    assert prefix + "" == prefix == "" + prefix;
  }

  lemma TextAfter(prefix: string, ops: seq<Op>, picked: seq<Token>, p: Piece, ks: set<Kind>)
    requires SideText(ops, ks) == prefix + Text(picked)
    ensures SideText(AppendOp(ops, Op(p.kind, p.tok.word + p.tok.sep)), ks)
            == prefix + Text(picked + (if p.kind in ks then [p.tok] else []))
  {
    hide SideText, AppendOp, Text;
    var text := p.tok.word + p.tok.sep;
    AppendText(ops, Op(p.kind, text), ks);
    if p.kind in ks {
      TextSnoc(picked, p.tok);
      assert prefix + (Text(picked) + text) == (prefix + Text(picked)) + text;
    } else {
      assert picked + [] == picked;
      assert (prefix + Text(picked)) + "" == prefix + Text(picked);
    }
  }

  lemma RenderSnoc(prefix: string, f: seq<Piece>, p: Piece)
    ensures Render(prefix, f + [p]) == AppendOp(Render(prefix, f), Op(p.kind, p.tok.word + p.tok.sep))
  {
    assert (f + [p])[..|f|] == f;
  }

  lemma {:induction false} AppendText(ops: seq<Op>, op: Op, ks: set<Kind>)
    ensures SideText(AppendOp(ops, op), ks) == SideText(ops, ks) + (if op.kind in ks then op.text else "")
  {
    var n := |ops|;
    if op.text == "" {
    } else if ops != [] && ops[n - 1].kind == op.kind {
      assert AppendOp(ops, op)[..n - 1] == ops[..n - 1];
    } else {
      assert (ops + [op])[..n] == ops;
    }
  }

  /** The words shown on any side of a rendering are the words of that side of the script. */
  lemma {:induction false} RenderWords(prefix: string, f: seq<Piece>, ks: set<Kind>)
    requires Blank(prefix) && GoodScript(f) && Spaced(f)
    ensures SideWords(Render(prefix, f), ks) == Words(Pick(f, ks))
    decreases |f|
  {
    if f == [] {
      WordsOfBlank(prefix);
      if prefix != "" { assert [Op(Equal, prefix)][..0] == []; }
    } else {
      var init, p := f[..|f| - 1], f[|f| - 1];
      assert p in f;
      RenderWords(prefix, init, ks);
      RenderEndsBlank(prefix, f);
      hide WordsOf;
      WordsOfToken(p.tok);
      AppendWords(Render(prefix, init), Op(p.kind, p.tok.word + p.tok.sep), ks);
      assert f == init + [p];
      PickSnoc(init, p, ks);
    }
  }

  /** Where the last token joins the op before it, that op ends in whitespace. */
  lemma {:induction false} RenderEndsBlank(prefix: string, f: seq<Piece>)
    requires Blank(prefix) && GoodScript(f) && Spaced(f) && f != []
    ensures
      var ops := Render(prefix, f[..|f| - 1]);
      ops != [] && ops[|ops| - 1].kind == f[|f| - 1].kind && ops[|ops| - 1].text != ""
      ==> IsSpace(ops[|ops| - 1].text[|ops[|ops| - 1].text| - 1])
  {
    var init := f[..|f| - 1];
    RenderLast(prefix, init);
    if init != [] {
      var ops, q := Render(prefix, init), init[|init| - 1];
      assert q == f[|f| - 2];
      var text, tail := ops[|ops| - 1].text, q.tok.word + q.tok.sep;
      assert text[|text| - 1] == text[|text| - |tail|..][|tail| - 1];
    }
  }

  lemma SideWordsSnoc(ops: seq<Op>, op: Op, ks: set<Kind>)
    ensures SideWords(ops + [op], ks) == SideWords(ops, ks) + (if op.kind in ks then WordsOf(op.text) else [])
  {
    hide WordsOf;
    assert (ops + [op])[..|ops|] == ops;
  }

  lemma AppendWords(ops: seq<Op>, op: Op, ks: set<Kind>)
    requires op.text != ""
    requires ops != [] && ops[|ops| - 1].kind == op.kind && ops[|ops| - 1].text != ""
             ==> IsSpace(ops[|ops| - 1].text[|ops[|ops| - 1].text| - 1])
    ensures SideWords(AppendOp(ops, op), ks) == SideWords(ops, ks) + (if op.kind in ks then WordsOf(op.text) else [])
  {
    hide WordsOf, SideWords;
    if ops != [] && ops[|ops| - 1].kind == op.kind {
      var init, x := ops[..|ops| - 1], ops[|ops| - 1].text;
      assert AppendOp(ops, op) == init + [Op(op.kind, x + op.text)];
      assert ops == init + [Op(op.kind, x)];
      MergeWords(init, op.kind, x, op.text, ks);
    } else {
      SideWordsSnoc(ops, op, ks);
    }
  }

  lemma MergeWords(init: seq<Op>, kind: Kind, x: string, y: string, ks: set<Kind>)
    requires x == "" || IsSpace(x[|x| - 1])
    ensures SideWords(init + [Op(kind, x + y)], ks)
            == SideWords(init + [Op(kind, x)], ks) + (if kind in ks then WordsOf(y) else [])
  {
    hide WordsOf, SideWords;
    WordsOfConcat(x, y);
    SideWordsSnoc(init, Op(kind, x + y), ks);
    SideWordsSnoc(init, Op(kind, x), ks);
    assert SideWords(init, ks) + (WordsOf(x) + WordsOf(y)) == (SideWords(init, ks) + WordsOf(x)) + WordsOf(y);
  }

  lemma {:induction false} RenderAllEqual(prefix: string, f: seq<Piece>)
    requires forall k :: 0 <= k < |f| ==> f[k].kind == Equal
    ensures forall k :: 0 <= k < |Render(prefix, f)| ==> Render(prefix, f)[k].kind == Equal
    decreases |f|
  {
    if f != [] { RenderAllEqual(prefix, f[..|f| - 1]); }
  }
}
