/** The output tree, and a batch of writes to it that can be undone. */
module OutputTree {
  import opened Wrappers
  import opened Paths

  const TEMP_PREFIX := ".publish-"

  function Base(p: string): string {
    p[LastSlash(p) + 1..]
  }

  /** The temporary file a write to p goes through, beside p. */
  function TempPath(p: string): string {
    p[..LastSlash(p) + 1] + TEMP_PREFIX + Base(p)
  }

  predicate IsTemporary(segment: string) {
    TEMP_PREFIX <= segment
  }

  /** A clean relative path none of whose segments is the name of a temporary file. */
  predicate ValidTreePath(p: string) {
    && p != "" && p == Clean(p) && p[0] != '/'
    && forall k :: 0 <= k < |Split(p)| ==> ProperSegment(Split(p)[k]) && !IsTemporary(Split(p)[k])
  }

  ghost predicate MayStand(segment: string) {
    segment != "" && segment != "." && segment != ".." && !(TEMP_PREFIX <= segment)
  }

  /** A path is taken exactly when none of its segments is empty, ".", ".." or the name of
      a temporary file: cleanness and relativity follow. */
  lemma WhichPathsAreTaken(p: string)
    ensures ValidTreePath(p) <==>
              forall k :: 0 <= k < |Split(p)| ==>
                MayStand(Split(p)[k])
  {
    hide Split, Clean;
    if forall k :: 0 <= k < |Split(p)| ==> MayStand(Split(p)[k]) {
      forall k | 0 <= k < |Split(p)| ensures ProperSegment(Split(p)[k]) && !IsTemporary(Split(p)[k]) {
        assert MayStand(Split(p)[k]);
      }
      ProperIsClean(p);
    } else {
      var k :| 0 <= k < |Split(p)| && !MayStand(Split(p)[k]);
      assert !(ProperSegment(Split(p)[k]) && !IsTemporary(Split(p)[k]));
    }
  }

  lemma BaseReplaced(p: string, b: string)
    requires '/' !in b
    ensures var t := p[..LastSlash(p) + 1] + b; LastSlash(t) == LastSlash(p) && Base(t) == b
  {
    var d := LastSlash(p);
    var t := p[..d + 1] + b;
    hide LastSlash;
    if d >= 0 {
      LastSlashOf(p[..d], b);
      assert p[..d + 1] == p[..d] + "/";
    } else {
      assert t == b;
    }
    assert LastSlash(t) == d;
    assert |p[..d + 1]| == d + 1 && t[d + 1..] == b;
  }

  lemma TempKeepsDirectory(p: string)
    ensures LastSlash(TempPath(p)) == LastSlash(p) && Base(TempPath(p)) == TEMP_PREFIX + Base(p)
  {
    hide LastSlash;
    assert '/' !in TEMP_PREFIX;
    BaseReplaced(p, TEMP_PREFIX + Base(p));
    assert TempPath(p) == p[..LastSlash(p) + 1] + (TEMP_PREFIX + Base(p));
  }

  /** Different destinations write through different temporary files. */
  lemma TempNamesAreDistinct(p: string, q: string)
    requires TempPath(p) == TempPath(q)
    ensures p == q
  {
    TempKeepsDirectory(p);
    TempKeepsDirectory(q);
    hide LastSlash;
    var d := LastSlash(p) + 1;
    assert p[..d] == TempPath(p)[..d] == q[..d];
    assert (TEMP_PREFIX + Base(p))[|TEMP_PREFIX|..] == Base(p);
    assert (TEMP_PREFIX + Base(q))[|TEMP_PREFIX|..] == Base(q);
    assert p == p[..d] + Base(p) && q == q[..d] + Base(q);
  }

  /** No page can be put where a temporary file is written. */
  lemma TempIsNoPage(p: string)
    ensures !ValidTreePath(TempPath(p))
  {
    var t := TempPath(p);
    TempKeepsDirectory(p);
    LastSegment(t);
    assert IsTemporary(Split(t)[|Split(t)| - 1]);
  }

  /** What came of a write: Blocked is a temporary file that was there already. */
  datatype Outcome = Done | Blocked | Failed

  /** The files below the output root. Any operation of the file system may fail
      without having done anything: works says which ones succeed. */
  class Tree {
    const works: nat -> bool
    var operations: nat
    var files: map<string, string>

    /** Temporary files a failed write could not clean up. */
    ghost var litter: set<string>

    constructor (files: map<string, string>, works: nat -> bool)
      ensures this.files == files && this.works == works && litter == {} && Faults() == 0
    {
      this.files, this.works, operations, litter := files, works, 0, {};
    }

    /** How many operations have failed. */
    ghost function Faults(): nat
      reads this`operations
    {
      FaultsIn(works, operations)
    }

    /** One operation of the file system. */
    method Try() returns (ok: bool)
      modifies this`operations
      ensures Faults() == old(Faults()) + if ok then 0 else 1
    {
      ok := works(operations);
      operations := operations + 1;
    }

    /** Deletes the file at p; a file that is not there is no error. */
    method Remove(p: string) returns (ok: bool)
      modifies this`files, this`operations
      ensures files == if ok then old(files) - {p} else old(files)
      ensures p !in old(files) ==> files == old(files)
      ensures Faults() == old(Faults()) + if ok then 0 else 1
    {
      ok := Try();
      if ok {
        files := files - {p};
      }
    }

    /** Puts body at p through a temporary file, a page at a time or not at all. */
    method Write(p: string, body: string) returns (r: Outcome)
      requires ValidTreePath(p)
      modifies this
      ensures r == Done ==> files == old(files)[p := body]
      ensures r != Done ==> forall q :: q != TempPath(p) || q !in litter ==> Lookup(files, q) == Lookup(old(files), q)
      // It fails for a temporary file in its way or an operation that failed, and for nothing else.
      ensures r == Blocked <==> TempPath(p) in old(files)
      ensures r == Failed <==> Faults() > old(Faults())
      ensures Faults() >= old(Faults())
      ensures r != Failed ==> Faults() == old(Faults()) && litter == old(litter)
      ensures r == Blocked ==> files == old(files)
      ensures litter == old(litter) || litter == old(litter) + {TempPath(p)}
    {
      hide ValidTreePath, TempPath;
      TempIsNoPage(p);
      var tmp := TempPath(p);
      if tmp in files {
        return Blocked;
      }
      var opens := Try();
      if !opens {
        return Failed;
      }
      var part: string := *;
      var written := Try();
      files := files[tmp := if written then body else part];
      if written {
        var renamed := Try();
        if renamed {
          files := (files - {tmp})[p := body];
          assert files == old(files)[p := body];
          return Done;
        }
      }
      var removed := Remove(tmp);
      if removed {
        assert files == old(files);
      } else {
        litter := litter + {tmp};
      }
      r := Failed;
    }
  }

  lemma SameFiles(files: map<string, string>, begun: map<string, string>, litter: set<string>)
    requires forall q :: q !in litter ==> Lookup(files, q) == Lookup(begun, q)
    ensures litter == {} ==> files == begun
  {
    if litter == {} {
      assert forall q :: Lookup(files, q) == Lookup(begun, q);
      assert forall q :: (q in files <==> Lookup(files, q).Some?) && (q in begun <==> Lookup(begun, q).Some?);
      assert files.Keys == begun.Keys;
      assert forall q :: q in files ==> Some(files[q]) == Lookup(files, q) == Lookup(begun, q);
    }
  }

  datatype Error = Invalid | Conflict | Busy | Fault

  datatype Written = Written(path: string, bytes: nat)

  /** What undoing a write to q takes is remembered. */
  ghost predicate Remembered(created: set<string>, replaced: map<string, string>, begun: map<string, string>, q: string) {
    && ValidTreePath(q)
    && (q in created ==> q !in begun && q !in replaced)
    && (q in replaced ==> q in begun && begun[q] == replaced[q])
  }

  /** Whatever has not been written is as it was at Begin, and what it needs to undo
      the rest is remembered. */
  ghost predicate Undoable(order: seq<string>, created: set<string>, replaced: map<string, string>,
                           begun: map<string, string>, files: map<string, string>, litter: set<string>) {
    && (forall i, j :: 0 <= i < j < |order| ==> order[i] != order[j])
    && (forall q :: q in order ==> q in created + replaced.Keys && Lookup(files, TempPath(q)).None?)
    && (forall q :: q in created + replaced.Keys ==> Remembered(created, replaced, begun, q))
    && (forall q :: q in litter ==> !ValidTreePath(q))
    && (forall q :: q !in order && q !in litter ==> Lookup(files, q) == Lookup(begun, q))
  }

  lemma BegunAlready(order: seq<string>, created: set<string>, replaced: map<string, string>,
                     begun: map<string, string>, files: map<string, string>, litter: set<string>, p: string)
    requires Undoable(order, created, replaced, begun, files, litter) && p !in created + replaced.Keys
    ensures p !in order
  {
  }

  /** A page written is a page more to undo. */
  lemma WrittenIsUndoable(order: seq<string>, created: set<string>, replaced: map<string, string>,
                          begun: map<string, string>, files: map<string, string>, litter: set<string>,
                          p: string, body: string)
    requires Undoable(order, created, replaced, begun, files, litter) && ValidTreePath(p)
    requires p in created + replaced.Keys && p !in order && Lookup(files, TempPath(p)).None?
    ensures Undoable(order + [p], created, replaced, begun, files[p := body], litter)
  {
    hide ValidTreePath, TempPath, Remembered;
    TempsApart(p);
    var more, files' := order + [p], files[p := body];
    forall q | q in more ensures q in created + replaced.Keys && Lookup(files', TempPath(q)).None? {
      assert q in order || q == p;
      assert Lookup(files, TempPath(q)).None? && TempPath(q) != p;
    }
    forall q | q !in more && q !in litter ensures Lookup(files', q) == Lookup(begun, q) {
      assert q !in order && q != p;
    }
  }

  /** A write that failed leaves nothing to undo but, at worst, its temporary file. */
  lemma UnwrittenIsUndoable(order: seq<string>, created: set<string>, replaced: map<string, string>,
                            begun: map<string, string>, files: map<string, string>, litter: set<string>,
                            p: string, files': map<string, string>, litter': set<string>)
    requires Undoable(order, created, replaced, begun, files, litter) && p !in order
    requires litter' == litter || litter' == litter + {TempPath(p)}
    requires forall q :: q != TempPath(p) || q !in litter' ==> Lookup(files', q) == Lookup(files, q)
    ensures Undoable(order, created, replaced, begun, files', litter')
  {
    hide ValidTreePath, TempPath, Remembered;
    TempsApart(p);
    forall q | q in order ensures Lookup(files', TempPath(q)).None? {
      assert Lookup(files, TempPath(q)).None? && TempPath(q) != TempPath(p);
    }
  }

  /** A set of writes that succeed or are undone together. */
  class Batch {
    const tree: Tree
    var order: seq<string>
    var created: set<string>
    var replaced: map<string, string>

    /** The tree as it was at Begin. */
    ghost const begun: map<string, string>

    constructor Begin(tree: Tree)
      requires forall q :: q in tree.litter ==> !ValidTreePath(q)
      ensures Valid() && this.tree == tree && begun == tree.files
      ensures order == [] && created == {} && replaced == map[]
    {
      this.tree, order, created, replaced, begun := tree, [], {}, map[], tree.files;
    }

    /** The paths the batch has begun to write. */
    function Begun(): set<string>
      reads this`created, this`replaced
    {
      created + replaced.Keys
    }

    ghost predicate Valid()
      reads this, tree
    {
      Undoable(order, created, replaced, begun, tree.files, tree.litter)
    }

    /** Notes what is at p, so that writing there can be undone. */
    method Remember(p: string) returns (readable: bool)
      requires Valid() && ValidTreePath(p) && p !in Begun()
      modifies this`created, this`replaced, tree`operations
      ensures Valid()
      ensures readable && p in tree.files ==> created == old(created) && replaced == old(replaced)[p := tree.files[p]]
      ensures readable && p !in tree.files ==> created == old(created) + {p} && replaced == old(replaced)
      ensures !readable ==> created == old(created) && replaced == old(replaced)
      ensures tree.Faults() == old(tree.Faults()) + if readable then 0 else 1
    {
      hide ValidTreePath, TempPath;
      readable := tree.Try();
      if readable && p in tree.files {
        replaced := replaced[p := tree.files[p]];
      } else if readable {
        created := created + {p};
      }
    }

    /** Creates the directories above p and writes the file. */
    method MakeAndWrite(p: string, body: string) returns (r: Outcome)
      requires ValidTreePath(p)
      modifies tree
      ensures r == Done ==> tree.files == old(tree.files)[p := body]
      ensures r != Done ==> forall q :: q != TempPath(p) || q !in tree.litter ==>
                              Lookup(tree.files, q) == Lookup(old(tree.files), q)
      ensures r == Failed <==> tree.Faults() > old(tree.Faults())
      ensures r == Blocked <==> tree.Faults() == old(tree.Faults()) && TempPath(p) in old(tree.files)
      ensures r != Failed ==> tree.Faults() == old(tree.Faults()) && tree.litter == old(tree.litter)
      ensures tree.litter == old(tree.litter) || tree.litter == old(tree.litter) + {TempPath(p)}
    {
      hide ValidTreePath, TempPath;
      var directories := tree.Try();
      if !directories {
        return Failed;
      }
      r := tree.Write(p, body);
    }

    method Put(p: string, body: string) returns (r: Result<Written, Error>)
      requires Valid()
      modifies this, tree
      ensures Valid()
      // Which paths are refused, and that nothing else but an operation that failed stops it.
      ensures r == Err(Invalid) <==> !ValidTreePath(p)
      ensures r == Err(Conflict) <==> ValidTreePath(p) && p in old(Begun())
      ensures r == Err(Fault) <==> ValidTreePath(p) && p !in old(Begun()) && tree.Faults() > old(tree.Faults())
      ensures r == Err(Busy) <==>
                ValidTreePath(p) && p !in old(Begun()) && tree.Faults() == old(tree.Faults()) && TempPath(p) in old(tree.files)
      ensures r != Err(Fault) ==> tree.Faults() == old(tree.Faults()) && tree.litter == old(tree.litter)
      // What it writes, and what it leaves alone.
      ensures r.Ok? ==> r.value == Written(p, |body|) && order == old(order) + [p] && Begun() == old(Begun()) + {p}
      ensures r.Ok? ==> tree.files == old(tree.files)[p := body]
      ensures r.Err? ==> order == old(order)
      ensures r.Err? ==> tree.litter == old(tree.litter) || tree.litter == old(tree.litter) + {TempPath(p)}
      ensures r.Err? ==> forall q :: q != TempPath(p) || q !in tree.litter ==>
                           Lookup(tree.files, q) == Lookup(old(tree.files), q)
    {
      hide ValidTreePath, TempPath, Undoable;
      if !ValidTreePath(p) {
        return Err(Invalid);
      }
      if p in created || p in replaced {
        return Err(Conflict);
      }
      var readable := Remember(p);
      if !readable {
        return Err(Fault);
      }
      BegunAlready(old(order), old(created), old(replaced), begun, tree.files, tree.litter, p);
      ghost var files, litter := tree.files, tree.litter;
      var wrote := MakeAndWrite(p, body);
      if wrote != Done {
        UnwrittenIsUndoable(order, created, replaced, begun, files, litter, p, tree.files, tree.litter);
      }
      match wrote
      case Blocked => return Err(Busy);
      case Failed => return Err(Fault);
      case Done =>
        WrittenIsUndoable(order, created, replaced, begun, files, litter, p, body);
        order := order + [p];
        return Ok(Written(p, |body|));
    }

    /** Puts back what was at p, if no operation fails. */
    method Undo(p: string) returns (ok: bool)
      requires p in Begun() && Remembered(created, replaced, begun, p) && Lookup(tree.files, TempPath(p)).None?
      modifies tree
      ensures ok <==> tree.Faults() == old(tree.Faults())
      ensures ok ==> Lookup(tree.files, p) == Lookup(begun, p) && tree.litter == old(tree.litter)
      ensures tree.Faults() >= old(tree.Faults())
      ensures tree.litter == old(tree.litter) || tree.litter == old(tree.litter) + {TempPath(p)}
      ensures forall q :: q != p && (q != TempPath(p) || q !in tree.litter) ==>
                Lookup(tree.files, q) == Lookup(old(tree.files), q)
    {
      hide ValidTreePath, TempPath;
      if p in replaced {
        var wrote := tree.Write(p, replaced[p]);
        ok := wrote == Done;
      } else {
        ok := tree.Remove(p);
      }
    }

    /** Undoes every write, newest first, whatever fails on the way. It reports no more
        writes than operations failed, and has restored every file but those. */
    method Rollback() returns (failed: seq<string>)
      requires Valid()
      modifies this, tree
      ensures order == [] && (failed == [] ==> Valid())
      ensures forall p :: p in failed ==> p in old(order)
      ensures |failed| <= tree.Faults() - old(tree.Faults())
      ensures tree.Faults() == old(tree.Faults()) ==> tree.litter == old(tree.litter)
      ensures old(tree.litter) <= tree.litter
      ensures forall q :: q !in failed && q !in tree.litter ==> Lookup(tree.files, q) == Lookup(begun, q)
      ensures failed == [] && tree.litter == {} ==> tree.files == begun
    {
      hide ValidTreePath, TempPath;
      failed := [];
      var i := |order|;
      while i > 0
        invariant 0 <= i <= |order|
        invariant order == old(order) && created == old(created) && replaced == old(replaced)
        invariant forall q :: q in Begun() ==> Remembered(created, replaced, begun, q)
        invariant forall p :: p in order[..i] ==> Lookup(tree.files, TempPath(p)).None?
        invariant forall p :: p in failed ==> p in order
        invariant |failed| <= tree.Faults() - old(tree.Faults())
        invariant tree.Faults() == old(tree.Faults()) ==> tree.litter == old(tree.litter)
        invariant old(tree.litter) <= tree.litter && forall q :: q in tree.litter ==> !ValidTreePath(q)
        invariant forall q :: q !in order[..i] && q !in failed && q !in tree.litter ==>
                    Lookup(tree.files, q) == Lookup(begun, q)
      {
        i := i - 1;
        var p := order[i];
        TempIsNoPage(p);
        TempsApart(p);
        var ok := Undo(p);
        if !ok {
          failed := failed + [p];
        }
      }
      order := [];
      if failed == [] { SameFiles(tree.files, begun, tree.litter); }
    }
  }

  /** No temporary file is a page or another page's temporary file. */
  lemma TempsApart(p: string)
    ensures forall q :: !ValidTreePath(TempPath(q))
    ensures forall q :: TempPath(q) == TempPath(p) ==> q == p
  {
    hide ValidTreePath, TempPath;
    forall q ensures !ValidTreePath(TempPath(q)) {
      TempIsNoPage(q);
    }
    forall q | TempPath(q) == TempPath(p) ensures q == p {
      TempNamesAreDistinct(p, q);
    }
  }
}
