/** Publishing: rows and files that change together or not at all. */
module Publishing {
  import opened Wrappers
  import opened OutputTree

  datatype Address = Address(channel: int, uri: string)

  datatype Row = Row(document: int, version: int, path: string, bytes: nat)

  /** A rendered page, and the row that will claim its address. */
  datatype Page = Page(address: Address, path: string, body: string)

  /** The job that will delete a file nobody claims any more. */
  datatype Expiry = Expiry(document: int, address: Address, path: string)

  function Produced(pages: seq<Page>): set<Address> {
    set p | p in pages :: p.address
  }

  /** The document's addresses in these channels that this publish does not produce. */
  function Stale(rows: map<Address, Row>, document: int, channels: seq<int>, keep: set<Address>): set<Address> {
    set a | a in rows && rows[a].document == document && a.channel in channels && a !in keep
  }

  function Expiries(rows: map<Address, Row>, stale: set<Address>): set<Expiry>
    requires stale <= rows.Keys
  {
    set a | a in stale :: Expiry(rows[a].document, a, rows[a].path)
  }

  /** No later page of the list has the same address. */
  predicate LastOf(pages: seq<Page>, i: nat)
    requires i < |pages|
  {
    forall j :: i < j < |pages| ==> pages[j].address != pages[i].address
  }

  ghost predicate Recorded(rows: map<Address, Row>, document: int, version: int, pages: seq<Page>) {
    forall i: nat :: i < |pages| && LastOf(pages, i) ==>
      Lookup(rows, pages[i].address) == Some(Row(document, version, pages[i].path, |pages[i].body|))
  }

  lemma EmptyRecord(rows: map<Address, Row>, document: int, version: int)
    ensures Recorded(rows, document, version, []) && Produced([]) == {}
  {
  }

  lemma RecordedSnoc(rows: map<Address, Row>, document: int, version: int, pages: seq<Page>, p: Page)
    requires Recorded(rows, document, version, pages)
    ensures Recorded(rows[p.address := Row(document, version, p.path, |p.body|)], document, version, pages + [p])
  {
    var more := pages + [p];
    forall i: nat | i < |more| && LastOf(more, i)
      ensures Lookup(rows[p.address := Row(document, version, p.path, |p.body|)], more[i].address)
           == Some(Row(document, version, more[i].path, |more[i].body|))
    {
      if i < |pages| {
        assert more[|pages|].address != more[i].address;
        assert forall j :: i < j < |pages| ==> pages[j] == more[j];
        assert LastOf(pages, i);
      }
    }
  }

  lemma ProducedHolds(pages: seq<Page>)
    ensures forall i :: 0 <= i < |pages| ==> pages[i].address in Produced(pages)
  {
  }

  lemma ProducedSnoc(pages: seq<Page>, p: Page)
    ensures Produced(pages + [p]) == Produced(pages) + {p.address}
  {
    assert forall q :: q in pages + [p] <==> q in pages || q == p;
  }

  /** Why a publish fails: a request that names nothing, another document's address, no
      such document, a page the tree will not take, or a statement or a file operation
      that failed. */
  datatype Failure = Rejected | Taken | Missing | Unwritable | Faulted

  class Database {
    var rows: map<Address, Row>

    /** Every document, and the version of it that is live. */
    var live: map<int, int>
    var jobs: multiset<Expiry>
    var published: seq<(int, int)>

    /** Which statements succeed, and how many there have been. */
    const works: nat -> bool
    var statements: nat

    /** How many statements have failed. */
    ghost function Faults(): nat
      reads this`statements
    {
      FaultsIn(works, statements)
    }

    /** A statement that changes nothing this model follows. */
    method Try() returns (ok: bool)
      modifies this`statements
      ensures Faults() == old(Faults()) + if ok then 0 else 1
    {
      ok := works(statements);
      statements := statements + 1;
    }

    /** Deletes the rows of one channel that are no longer produced. */
    method DeleteStale(document: int, channel: int, keep: set<Address>) returns (expired: set<Expiry>)
      modifies this`rows
      ensures rows == old(rows) - Stale(old(rows), document, [channel], keep)
      ensures expired == Expiries(old(rows), Stale(old(rows), document, [channel], keep))
    {
      var stale := Stale(rows, document, [channel], keep);
      expired := Expiries(rows, stale);
      rows := rows - stale;
    }

    method DeleteAllStale(document: int, channels: seq<int>, keep: set<Address>) returns (expired: set<Expiry>)
      modifies this`rows
      ensures rows == old(rows) - Stale(old(rows), document, channels, keep)
      ensures expired == Expiries(old(rows), Stale(old(rows), document, channels, keep))
    {
      expired := {};
      ghost var before := rows;
      for k := 0 to |channels|
        invariant rows == before - Stale(before, document, channels[..k], keep)
        invariant expired == Expiries(before, Stale(before, document, channels[..k], keep))
      {
        var more := DeleteStale(document, channels[k], keep);
        StaleSnoc(before, document, channels[..k], channels[k], keep);
        assert channels[..k + 1] == channels[..k] + [channels[k]];
        expired := expired + more;
      }
      assert channels[..|channels|] == channels;
    }

    /** Claims an address, unless another document has it. */
    method Upsert(document: int, version: int, p: Page) returns (ok: bool)
      modifies this`rows
      ensures ok <==> !(p.address in old(rows) && old(rows)[p.address].document != document)
      ensures rows == if ok then old(rows)[p.address := Row(document, version, p.path, |p.body|)] else old(rows)
    {
      ok := !(p.address in rows && rows[p.address].document != document);
      if ok {
        rows := rows[p.address := Row(document, version, p.path, |p.body|)];
      }
    }

    method UpsertAll(document: int, version: int, pages: seq<Page>) returns (ok: bool)
      modifies this`rows
      ensures ok <==> forall a :: a in Produced(pages) && a in old(rows) ==> old(rows)[a].document == document
      ensures ok ==> Recorded(rows, document, version, pages)
      ensures ok ==> forall a :: a !in Produced(pages) ==> Lookup(rows, a) == Lookup(old(rows), a)
    {
      hide Recorded, Produced;
      EmptyRecord(rows, document, version);
      assert pages[..0] == [];
      for k := 0 to |pages|
        invariant forall a :: a in Produced(pages[..k]) && a in old(rows) ==> old(rows)[a].document == document
        invariant forall a :: a in Produced(pages[..k]) ==> a in rows && rows[a].document == document
        invariant Recorded(rows, document, version, pages[..k])
        invariant forall a :: a !in Produced(pages[..k]) ==> Lookup(rows, a) == Lookup(old(rows), a)
      {
        RecordedSnoc(rows, document, version, pages[..k], pages[k]);
        ProducedSnoc(pages[..k], pages[k]);
        assert pages[..k + 1] == pages[..k] + [pages[k]];
        var claimed := Upsert(document, version, pages[k]);
        if !claimed {
          ProducedHolds(pages);
          return false;
        }
      }
      assert pages[..|pages|] == pages;
      ok := true;
    }
  }

  lemma StaleSnoc(rows: map<Address, Row>, document: int, channels: seq<int>, channel: int, keep: set<Address>)
    ensures var first := Stale(rows, document, channels, keep);
            var second := Stale(rows - first, document, [channel], keep);
            var both := Stale(rows, document, channels + [channel], keep);
            && both == first + second && (rows - first) - second == rows - both
            && Expiries(rows, both) == Expiries(rows, first) + Expiries(rows - first, second)
  {
  }

  /** Each page is at its own path, and every other file is as it was. */
  ghost predicate FilesPublished(before: map<string, string>, files: map<string, string>, pages: seq<Page>) {
    && (forall i, j :: 0 <= i < j < |pages| ==> pages[i].path != pages[j].path)
    && (forall i :: 0 <= i < |pages| ==>
          ValidTreePath(pages[i].path) && Lookup(files, pages[i].path) == Some(pages[i].body))
    && forall q :: (forall i :: 0 <= i < |pages| ==> pages[i].path != q) ==> Lookup(files, q) == Lookup(before, q)
  }

  lemma FilesSnoc(before: map<string, string>, files: map<string, string>, pages: seq<Page>, p: Page)
    requires FilesPublished(before, files, pages) && ValidTreePath(p.path)
    requires forall i :: 0 <= i < |pages| ==> pages[i].path != p.path
    ensures FilesPublished(before, files[p.path := p.body], pages + [p])
  {
    hide ValidTreePath;
    var more := pages + [p];
    assert forall i :: 0 <= i < |pages| ==> more[i] == pages[i];
    forall q | forall i :: 0 <= i < |more| ==> more[i].path != q
      ensures Lookup(files[p.path := p.body], q) == Lookup(before, q)
    {
      assert more[|pages|].path != q;
      assert forall i :: 0 <= i < |pages| ==> more[i].path != q;
    }
  }

  /** The tree takes these pages: their paths are pages', different, not begun before,
      and no temporary file is in their way. */
  ghost predicate Writable(files: map<string, string>, begun: set<string>, pages: seq<Page>) {
    && (forall i :: 0 <= i < |pages| ==>
          && ValidTreePath(pages[i].path) && pages[i].path !in begun
          && Lookup(files, TempPath(pages[i].path)).None?)
    && forall i, j :: 0 <= i < j < |pages| ==> pages[i].path != pages[j].path
  }

  /** Writing a page changes for the next one only that this one is begun. */
  lemma WritableSnoc(before: map<string, string>, begun: set<string>, pages: seq<Page>, p: Page,
                     files: map<string, string>, all: set<string>)
    requires Writable(before, begun, pages)
    requires FilesPublished(before, files, pages) && all == begun + Paths(pages)
    ensures Writable(before, begun, pages + [p]) <==>
            ValidTreePath(p.path) && p.path !in all && Lookup(files, TempPath(p.path)).None?
    ensures all + {p.path} == begun + Paths(pages + [p])
  {
    hide ValidTreePath, TempPath;
    TempsApart(p.path);
    var more := pages + [p];
    assert forall i :: 0 <= i < |pages| ==> more[i] == pages[i];
    assert more[|pages|] == p;
    forall i | 0 <= i < |pages| ensures pages[i].path != TempPath(p.path) {
      assert ValidTreePath(pages[i].path);
    }
    assert Lookup(files, TempPath(p.path)) == Lookup(before, TempPath(p.path));
    PathsSnoc(pages, p);
    if Writable(before, begun, more) {
      forall i | 0 <= i < |pages| ensures pages[i].path != p.path {
        assert more[i].path != more[|pages|].path;
      }
    }
  }

  function Paths(pages: seq<Page>): set<string> {
    set i | 0 <= i < |pages| :: pages[i].path
  }

  lemma PathsSnoc(pages: seq<Page>, p: Page)
    ensures Paths(pages + [p]) == Paths(pages) + {p.path}
    ensures forall i :: 0 <= i < |pages| ==> pages[i].path in Paths(pages)
  {
    var more := pages + [p];
    forall x | x in Paths(pages) + {p.path} ensures x in Paths(more) {
      if x == p.path {
        assert more[|pages|].path == x;
      } else {
        var i :| 0 <= i < |pages| && pages[i].path == x;
        assert more[i].path == x;
      }
    }
    forall x | x in Paths(more) ensures x in Paths(pages) + {p.path} {
      var i :| 0 <= i < |more| && more[i].path == x;
      if i < |pages| { assert pages[i].path == x; }
    }
  }

  /** Some of the pages are writable if all are. */
  lemma WritablePrefix(files: map<string, string>, begun: set<string>, pages: seq<Page>, k: nat)
    requires k <= |pages| && Writable(files, begun, pages)
    ensures Writable(files, begun, pages[..k])
  {
    hide ValidTreePath, TempPath;
  }

  lemma NothingWritten(files: map<string, string>, begun: set<string>)
    ensures Writable(files, begun, []) && Paths([]) == {} && begun + Paths([]) == begun
  {
  }

  /** Writes every page, or stops at the first that cannot be written: one the tree does
      not take, or one an operation failed on. */
  method WritePages(batch: Batch, pages: seq<Page>) returns (r: Result<(), Error>)
    requires batch.Valid()
    modifies batch, batch.tree
    ensures batch.Valid()
    ensures r == Err(Fault) <==> batch.tree.Faults() > old(batch.tree.Faults())
    ensures r != Err(Fault) ==>
              && (r.Ok? <==> Writable(old(batch.tree.files), old(batch.Begun()), pages))
              && batch.tree.litter == old(batch.tree.litter)
    ensures r.Ok? ==> FilesPublished(old(batch.tree.files), batch.tree.files, pages)
    ensures batch.tree.Faults() >= old(batch.tree.Faults())
  {
    hide ValidTreePath, TempPath, FilesPublished, Writable, Undoable, Paths;
    ghost var before, begun := batch.tree.files, batch.Begun();
    NothingPublished(before);
    NothingWritten(before, begun);
    assert pages[..0] == [];
    for k := 0 to |pages|
      invariant batch.Valid()
      invariant batch.Begun() == begun + Paths(pages[..k])
      invariant Writable(before, begun, pages[..k])
      invariant FilesPublished(before, batch.tree.files, pages[..k])
      invariant batch.tree.litter == old(batch.tree.litter) && batch.tree.Faults() == old(batch.tree.Faults())
    {
      ghost var files := batch.tree.files;
      assert pages[..k + 1] == pages[..k] + [pages[k]];
      WritableSnoc(before, begun, pages[..k], pages[k], files, batch.Begun());
      var put := batch.Put(pages[k].path, pages[k].body);
      if put.Err? {
        if put.error != Fault && Writable(before, begun, pages) {
          WritablePrefix(before, begun, pages, k + 1);
          TempThere(files, pages[k].path);
        }
        return Err(put.error);
      }
      TempThere(files, pages[k].path);
      WrittenIsDistinct(before, begun, pages[..k], pages[k]);
      FilesSnoc(before, files, pages[..k], pages[k]);
    }
    assert pages[..|pages|] == pages;
    r := Ok(());
  }

  lemma TempThere(files: map<string, string>, p: string)
    ensures TempPath(p) in files <==> Lookup(files, TempPath(p)).Some?
  {
    hide TempPath;
  }

  lemma WrittenIsDistinct(files: map<string, string>, begun: set<string>, pages: seq<Page>, p: Page)
    requires Writable(files, begun, pages + [p])
    ensures ValidTreePath(p.path) && forall i :: 0 <= i < |pages| ==> pages[i].path != p.path
  {
    hide ValidTreePath, TempPath;
    var more := pages + [p];
    assert more[|pages|] == p;
    forall i | 0 <= i < |pages| ensures pages[i].path != p.path {
      assert more[i].path != more[|pages|].path;
    }
  }

  lemma NothingPublished(files: map<string, string>)
    ensures FilesPublished(files, files, [])
  {
  }

  /** Nothing among the pages is for this address. */
  ghost predicate Unproduced(pages: seq<Page>, a: Address) {
    forall i :: 0 <= i < |pages| ==> pages[i].address != a
  }

  /** An address of the document in one of the channels that no page is for any more. */
  ghost predicate Dropped(rows: map<Address, Row>, document: int, channels: seq<int>, pages: seq<Page>, a: Address) {
    a in rows && rows[a].document == document && a.channel in channels && Unproduced(pages, a)
  }

  /** Another document has the address of one of the pages. */
  ghost predicate Contested(rows: map<Address, Row>, document: int, pages: seq<Page>) {
    exists i :: 0 <= i < |pages| && pages[i].address in rows && rows[pages[i].address].document != document
  }

  /** The rows' side of a publish: no address was another document's, the last page of
      each address is on record, and of the rest exactly the dropped addresses are gone. */
  ghost predicate RowsPublished(before: map<Address, Row>, rows: map<Address, Row>, document: int, version: int,
                                channels: seq<int>, pages: seq<Page>) {
    && !Contested(before, document, pages)
    && Recorded(rows, document, version, pages)
    && forall a :: Unproduced(pages, a) ==>
         Lookup(rows, a) == if Dropped(before, document, channels, pages, a) then None else Lookup(before, a)
  }

  /** What another document has on record stays as it is. */
  lemma OthersKeepTheirRows(before: map<Address, Row>, rows: map<Address, Row>, document: int, version: int,
                            channels: seq<int>, pages: seq<Page>, a: Address)
    requires RowsPublished(before, rows, document, version, channels, pages)
    requires a in before && before[a].document != document
    ensures Lookup(rows, a) == Some(before[a])
  {
    hide Recorded;
    assert Unproduced(pages, a);
  }

  lemma ProducedMeans(pages: seq<Page>, a: Address)
    ensures a !in Produced(pages) <==> Unproduced(pages, a)
  {
    if a in Produced(pages) {
      var p :| p in pages && p.address == a;
      var i :| 0 <= i < |pages| && pages[i] == p;
      assert pages[i].address == a;
    } else {
      ProducedHolds(pages);
    }
  }

  lemma StaleMeans(rows: map<Address, Row>, document: int, channels: seq<int>, pages: seq<Page>)
    ensures forall a :: a in Stale(rows, document, channels, Produced(pages)) <==>
                        Dropped(rows, document, channels, pages, a)
  {
    hide Produced, Unproduced;
    forall a ensures a !in Produced(pages) <==> Unproduced(pages, a) {
      ProducedMeans(pages, a);
    }
  }

  /** Whether the claims of the pages fail does not depend on the dropped rows. */
  lemma ContestedMeans(before: map<Address, Row>, document: int, channels: seq<int>, pages: seq<Page>)
    ensures var kept := before - Stale(before, document, channels, Produced(pages));
            (forall a :: a in Produced(pages) && a in kept ==> kept[a].document == document)
            <==> !Contested(before, document, pages)
  {
    var kept := before - Stale(before, document, channels, Produced(pages));
    ProducedHolds(pages);
    if forall a :: a in Produced(pages) && a in kept ==> kept[a].document == document {
      forall i | 0 <= i < |pages| && pages[i].address in before
        ensures before[pages[i].address].document == document
      {
        assert pages[i].address in Produced(pages);
      }
    } else {
      var a :| a in Produced(pages) && a in kept && kept[a].document != document;
      ProducedMeans(pages, a);
      var i :| 0 <= i < |pages| && pages[i].address == a;
    }
  }

  /** Removing the stale rows and claiming the produced ones, as one change. */
  lemma StaleThenRecorded(before: map<Address, Row>, rows: map<Address, Row>, document: int, version: int,
                          channels: seq<int>, pages: seq<Page>)
    requires !Contested(before, document, pages) && Recorded(rows, document, version, pages)
    requires var kept := before - Stale(before, document, channels, Produced(pages));
             forall a :: a !in Produced(pages) ==> Lookup(rows, a) == Lookup(kept, a)
    ensures RowsPublished(before, rows, document, version, channels, pages)
  {
    hide Recorded, Produced, Unproduced, Contested;
    StaleMeans(before, document, channels, pages);
    forall a | Unproduced(pages, a)
      ensures Lookup(rows, a) == if Dropped(before, document, channels, pages, a) then None else Lookup(before, a)
    {
      ProducedMeans(pages, a);
    }
  }

  /** One job for each dropped address, naming the file that was there. */
  ghost predicate ExpiresDropped(before: map<Address, Row>, document: int, channels: seq<int>, pages: seq<Page>,
                                 jobs: set<Expiry>) {
    forall e :: e in jobs <==> && Dropped(before, document, channels, pages, e.address)
                               && e == Expiry(document, e.address, before[e.address].path)
  }

  lemma ExpiriesMean(before: map<Address, Row>, document: int, channels: seq<int>, pages: seq<Page>)
    ensures var stale := Stale(before, document, channels, Produced(pages));
            ExpiresDropped(before, document, channels, pages, Expiries(before, stale))
  {
    hide Produced, Unproduced;
    StaleMeans(before, document, channels, pages);
    hide Stale;
  }

  /** One publish: rows, live version, expiry jobs and event in one transaction, the
      files written last inside it, and the files put back when it fails. */
  method Publish(db: Database, tree: Tree, document: int, version: int, channels: seq<int>, pages: seq<Page>)
    returns (r: Result<set<Expiry>, Failure>, stuck: seq<string>)
    requires forall q :: q in tree.litter ==> !ValidTreePath(q)
    modifies db, tree
    // Why it fails: each refusal has its reason, the earlier ones first, and a fault its fault.
    ensures r == Err(Rejected) <==> document <= 0 || version <= 0 || channels == []
    ensures r == Err(Taken) ==> Contested(old(db.rows), document, pages)
    ensures r == Err(Missing) ==> !Contested(old(db.rows), document, pages) && document !in old(db.live)
    ensures r == Err(Unwritable) ==>
              && !Contested(old(db.rows), document, pages) && document in old(db.live)
              && !Writable(old(tree.files), {}, pages)
    ensures r == Err(Faulted) ==> db.Faults() > old(db.Faults()) || tree.Faults() > old(tree.Faults())
    ensures r.Ok? ==> db.Faults() == old(db.Faults()) && tree.Faults() == old(tree.Faults())
    // What a failed one leaves.
    ensures r.Err? ==> db.rows == old(db.rows) && db.live == old(db.live)
                       && db.jobs == old(db.jobs) && db.published == old(db.published)
    ensures r.Err? ==> forall q :: q !in stuck && q !in tree.litter ==>
                         Lookup(tree.files, q) == Lookup(old(tree.files), q)
    ensures |stuck| <= tree.Faults() - old(tree.Faults())
    ensures tree.Faults() == old(tree.Faults()) ==> tree.litter == old(tree.litter)
    ensures r.Err? && stuck == [] && tree.litter == {} ==> tree.files == old(tree.files)
    // What a successful one changes.
    ensures r.Ok? ==> RowsPublished(old(db.rows), db.rows, document, version, channels, pages)
    ensures r.Ok? ==> document in old(db.live) && db.live == old(db.live)[document := version]
    ensures r.Ok? ==> ExpiresDropped(old(db.rows), document, channels, pages, r.value)
    ensures r.Ok? ==> db.jobs == old(db.jobs) + multiset(r.value)
    ensures r.Ok? ==> db.published == old(db.published) + [(document, version)]
    ensures r.Ok? ==> Writable(old(tree.files), {}, pages) && FilesPublished(old(tree.files), tree.files, pages)
  {
    hide RowsPublished, FilesPublished, Contested, ExpiresDropped, Writable, Undoable, ValidTreePath;
    stuck := [];
    if document <= 0 || version <= 0 || channels == [] {
      return Err(Rejected), stuck;
    }
    var batch := new Batch.Begin(tree);
    var rows, live, jobs, published := db.rows, db.live, db.jobs, db.published;
    assert batch.Begun() == {};
    r := Transact(db, batch, document, version, channels, pages);
    if r.Err? {
      db.rows, db.live, db.jobs, db.published := rows, live, jobs, published;
      stuck := batch.Rollback();
    }
  }

  /** The statements of the transaction, any of which may fail, and the files. */
  method Transact(db: Database, batch: Batch, document: int, version: int, channels: seq<int>, pages: seq<Page>)
    returns (r: Result<set<Expiry>, Failure>)
    requires batch.Valid()
    modifies db, batch, batch.tree
    ensures batch.Valid()
    ensures r != Err(Rejected)
    ensures r == Err(Taken) ==> Contested(old(db.rows), document, pages)
    ensures r == Err(Missing) ==> !Contested(old(db.rows), document, pages) && document !in old(db.live)
    ensures r == Err(Unwritable) ==>
              && !Contested(old(db.rows), document, pages) && document in old(db.live)
              && !Writable(old(batch.tree.files), old(batch.Begun()), pages)
    ensures r == Err(Faulted) ==> db.Faults() > old(db.Faults()) || batch.tree.Faults() > old(batch.tree.Faults())
    ensures batch.tree.Faults() >= old(batch.tree.Faults())
    ensures batch.tree.Faults() == old(batch.tree.Faults()) ==> batch.tree.litter == old(batch.tree.litter)
    ensures r.Ok? ==> db.Faults() == old(db.Faults()) && batch.tree.Faults() == old(batch.tree.Faults())
    ensures r.Ok? ==> RowsPublished(old(db.rows), db.rows, document, version, channels, pages)
    ensures r.Ok? ==> document in old(db.live) && db.live == old(db.live)[document := version]
    ensures r.Ok? ==> ExpiresDropped(old(db.rows), document, channels, pages, r.value)
    ensures r.Ok? ==> db.jobs == old(db.jobs) + multiset(r.value)
    ensures r.Ok? ==> db.published == old(db.published) + [(document, version)]
    ensures r.Ok? ==> Writable(old(batch.tree.files), old(batch.Begun()), pages)
                      && FilesPublished(old(batch.tree.files), batch.tree.files, pages)
  {
    hide ValidTreePath, Recorded, Stale, Expiries, Produced, RowsPublished, FilesPublished, Contested, ExpiresDropped,
         Writable, Undoable;
    var begins := db.Try();
    if !begins {
      return Err(Faulted);
    }
    var expired := db.DeleteAllStale(document, channels, Produced(pages));
    ExpiriesMean(old(db.rows), document, channels, pages);
    ContestedMeans(old(db.rows), document, channels, pages);
    var claimed := db.UpsertAll(document, version, pages);
    if !claimed {
      return Err(Taken);
    }
    StaleThenRecorded(old(db.rows), db.rows, document, version, channels, pages);
    if document !in db.live {
      return Err(Missing);
    }
    db.live := db.live[document := version];
    db.published := db.published + [(document, version)];
    db.jobs := db.jobs + multiset(expired);
    var written := WritePages(batch, pages);
    if written.Err? {
      return Err(if written.error == Fault then Faulted else Unwritable);
    }
    var commits := db.Try();
    if !commits {
      return Err(Faulted);
    }
    r := Ok(expired);
  }
}
