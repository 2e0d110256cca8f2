/** Competing dispatchers over one event stream, one cursor and one inbox. */
module Dispatch {
  import opened Wrappers
  import opened Alerts

  // ---------------------------------------------------------------------
  // The inbox and the cursor
  // ---------------------------------------------------------------------

  /** INSERT OR IGNORE: one row per user, event and rule. */
  function Insert(rows: seq<Note>, n: Note): seq<Note> {
    if n in rows then rows else rows + [n]
  }

  function InsertAll(rows: seq<Note>, notes: seq<Note>): seq<Note> {
    if notes == [] then rows else Insert(InsertAll(rows, notes[..|notes| - 1]), notes[|notes| - 1])
  }

  lemma {:induction false} InsertAllConcat(rows: seq<Note>, a: seq<Note>, b: seq<Note>)
    ensures InsertAll(rows, a + b) == InsertAll(InsertAll(rows, a), b)
    decreases |b|
  {
    if b == [] {
      assert a + b == a;
    } else {
      assert (a + b)[..|a + b| - 1] == a + b[..|b| - 1];
      InsertAllConcat(rows, a, b[..|b| - 1]);
    }
  }

  lemma InsertMeans(rows: seq<Note>, n: Note)
    requires forall i, j :: 0 <= i < j < |rows| ==> rows[i] != rows[j]
    ensures var all := Insert(rows, n);
            && (forall i, j :: 0 <= i < j < |all| ==> all[i] != all[j])
            && (forall m :: m in all <==> m in rows || m == n)
  {
  }

  /** The rows are the notes without repetition. */
  lemma {:induction false} InsertAllMeans(rows: seq<Note>, notes: seq<Note>)
    requires forall i, j :: 0 <= i < j < |rows| ==> rows[i] != rows[j]
    ensures var all := InsertAll(rows, notes);
            && (forall i, j :: 0 <= i < j < |all| ==> all[i] != all[j])
            && (forall n :: n in all <==> n in rows || n in notes)
    decreases |notes|
  {
    if notes != [] {
      var before, last := notes[..|notes| - 1], notes[|notes| - 1];
      InsertAllMeans(rows, before);
      assert notes == before + [last];
      assert forall n :: n in notes <==> n in before || n == last;
      InsertMeans(InsertAll(rows, before), last);
    }
  }

  /** Event ids increase in commit order. */
  ghost predicate Ordered(events: seq<Event>) {
    && (forall k :: 0 <= k < |events| ==> events[k].id > 0)
    && (forall j, k :: 0 <= j < k < |events| ==> events[j].id < events[k].id)
  }

  /** Where the cursor stands once n events are behind it. */
  function CursorAt(events: seq<Event>, n: nat): int
    requires n <= |events|
  {
    if n == 0 then 0 else events[n - 1].id
  }

  /** The events from the n-th up to the k-th. */
  function Taken(events: seq<Event>, n: nat, k: nat): (taken: seq<Event>)
    requires n <= |events| && k <= |events|
    ensures |taken| == if k <= n then 0 else k - n
  {
    if k <= n then [] else events[n..k]
  }

  /** An event is past the cursor exactly when it is not among those behind it. */
  lemma PastTheCursor(events: seq<Event>, n: nat, k: nat)
    requires Ordered(events) && n <= |events| && k < |events|
    ensures events[k].id > CursorAt(events, n) <==> n <= k
    ensures Taken(events, n, k + 1) == Taken(events, n, k) + (if n <= k then [events[k]] else [])
  {
    hide Ordered;
    PastById(events, n, k);
  }

  lemma PastById(events: seq<Event>, n: nat, k: nat)
    requires Ordered(events) && n <= |events| && k < |events|
    ensures events[k].id > CursorAt(events, n) <==> n <= k
  {
    if 0 < n {
      var m := n - 1;
      assert k < m ==> events[k].id < events[m].id;
      assert m < k ==> events[m].id < events[k].id;
    }
  }

  datatype AlertBatch = AlertBatch(cursor: int, events: seq<Event>)

  /** The cursor position after a batch: the id of its last event. */
  function AfterBatch(b: AlertBatch): int {
    if b.events == [] then b.cursor else b.events[|b.events| - 1].id
  }

  class Database {
    var events: seq<Event>
    var cursor: int
    var inbox: seq<Note>

    constructor (events: seq<Event>)
      ensures this.events == events && cursor == CursorAt(events, |events|) && inbox == []
    {
      this.events := events;
      this.cursor := if events == [] then 0 else events[|events| - 1].id;
      inbox := [];
    }

    /** The events past the cursor, oldest first, at most limit of them; a hundred
        where no limit is given. */
    method Pending(limit: int, ghost n: nat) returns (b: AlertBatch)
      requires Ordered(events) && n <= |events| && cursor == CursorAt(events, n)
      ensures b == AlertBatch(cursor, events[n..n + Min(if limit <= 0 then 100 else limit, |events| - n)])
    {
      hide Ordered, CursorAt;
      var most := if limit <= 0 then 100 else limit;
      var batch := [];
      var k := 0;
      while k < |events| && |batch| < most
        invariant 0 <= k <= |events|
        invariant batch == Taken(events, n, k) && |batch| <= most
      {
        PastTheCursor(events, n, k);
        if events[k].id > cursor {
          batch := batch + [events[k]];
        }
        k := k + 1;
      }
      b := AlertBatch(cursor, batch);
    }

    /** Records a batch's notes and moves the cursor past it, or does neither. */
    method Deliver(cursor: int, next: int, notes: seq<Note>) returns (written: nat, moved: bool)
      modifies this`inbox, this`cursor
      ensures moved <==> old(this.cursor) == cursor
      ensures moved ==> this.cursor == next && inbox == InsertAll(old(inbox), notes)
      ensures moved ==> written == |inbox| - |old(inbox)|
      ensures !moved ==> this.cursor == old(this.cursor) && inbox == old(inbox) && written == 0
    {
      var saved := inbox;
      written := 0;
      for k := 0 to |notes|
        invariant inbox == InsertAll(saved, notes[..k])
        invariant written == |inbox| - |saved|
        invariant this.cursor == old(this.cursor) && saved == old(inbox)
      {
        assert notes[..k + 1][..k] == notes[..k];
        if notes[k] !in inbox {
          inbox := inbox + [notes[k]];
          written := written + 1;
        }
      }
      assert notes[..|notes|] == notes;
      moved := this.cursor == cursor;
      if moved {
        this.cursor := next;
      } else {
        inbox := saved;
        written := 0;
      }
    }
  }

  // ---------------------------------------------------------------------
  // A pass
  // ---------------------------------------------------------------------

  lemma {:induction false} NoRulesNoOutput(sem: Semantics, store: Store, events: seq<Event>)
    ensures Evaluation(sem, store, [], events) == NOTHING
    decreases |events|
  {
    if events != [] { NoRulesNoOutput(sem, store, events[..|events| - 1]); }
  }

  /** What a pass did. */
  datatype Summary = Summary(events: nat, notified: nat, delivered: nat, failed: nat)

  /** Another dispatcher's transaction between this pass's read and its own. */
  datatype Rival = Rival(next: int, notes: seq<Note>)

  /** What a pass does not decide: which of its reads and writes work, which channels are
      served, and which attempts to send are accepted. */
  datatype Outside = Outside(events: bool, rules: bool, facts: bool, write: bool,
                             deliverers: set<string>, accepts: nat -> bool)

  /** One pass: None when a read or the transaction failed. Deliveries go out one by one
      after the commit, each of which may fail; one whose channel nobody serves does. */
  method Once(db: Database, sem: Semantics, store: Store, rules: seq<Rule>, limit: int, rival: Option<Rival>,
              outside: Outside, ghost n: nat)
    returns (r: Option<Summary>, sent: seq<Delivery>, arrived: seq<bool>)
    requires Ordered(db.events) && n <= |db.events| && db.cursor == CursorAt(db.events, n)
    requires Integrity(store)
    modifies db`inbox, db`cursor
    ensures var batch := db.events[n..n + Min(if limit <= 0 then 100 else limit, |db.events| - n)];
            var out := Evaluation(sem, store, rules, batch);
            var (cursor, inbox) := Beaten(old(db.cursor), old(db.inbox), rival);
            // It fails exactly when something it needs does.
            && (r.None? <==>
                  || !outside.events
                  || (batch != [] && (!outside.rules || (rules != [] && !outside.facts) || !outside.write)))
            && if r.Some? && batch != [] && cursor == old(db.cursor) then
                 // The pass won the swap.
                 && db.cursor == CursorAt(db.events, n + |batch|)
                 && db.inbox == InsertAll(inbox, out.notes)
                 && sent == out.deliveries && |arrived| == |sent|
                 && (forall k :: 0 <= k < |sent| ==>
                       (arrived[k] <==> sent[k].rule.channel in outside.deliverers && outside.accepts(k)))
                 && r.value.events == |batch| && |inbox| + r.value.notified == |db.inbox|
                 && r.value.delivered == |sent| && r.value.failed == Failed(arrived)
               else
                 // It had nothing to do, failed, or lost: it wrote and sent nothing.
                 && (db.cursor, db.inbox) == (cursor, inbox)
                 && sent == [] && arrived == [] && (r.Some? ==> r.value == Summary(0, 0, 0, 0))
  {
    hide InsertAll, Evaluation, Integrity, Ordered, Failed, Beaten;
    sent, arrived := [], [];
    var batch := db.Pending(limit, n);
    ghost var before, rows := db.cursor, db.inbox;
    ByRival(db.cursor, db.inbox, rival);
    if rival.Some? {
      var _, _ := db.Deliver(db.cursor, rival.value.next, rival.value.notes);
    }
    assert (db.cursor, db.inbox) == Beaten(before, rows, rival);
    if !outside.events {
      return None, sent, arrived;
    }
    if |batch.events| == 0 {
      return Some(Summary(0, 0, 0, 0)), sent, arrived;
    }
    if !outside.rules {
      return None, sent, arrived;
    }
    NoRulesNoOutput(sem, store, batch.events);
    var out := NOTHING;
    if |rules| > 0 {
      if !outside.facts {
        return None, sent, arrived;
      }
      out := Evaluate(sem, store, batch.events, rules);
    }
    if !outside.write {
      return None, sent, arrived;
    }
    var did;
    did, sent, arrived := RecordAndSend(db, batch, out, outside);
    r := Some(did);
  }

  /** The transaction, and if it moved the cursor everything that leaves the process. */
  method RecordAndSend(db: Database, batch: AlertBatch, out: Output, outside: Outside)
    returns (did: Summary, sent: seq<Delivery>, arrived: seq<bool>)
    modifies db`inbox, db`cursor
    ensures if batch.cursor == old(db.cursor) then
              && db.cursor == AfterBatch(batch) && db.inbox == InsertAll(old(db.inbox), out.notes)
              && sent == out.deliveries && |arrived| == |sent|
              && (forall k :: 0 <= k < |sent| ==>
                    (arrived[k] <==> sent[k].rule.channel in outside.deliverers && outside.accepts(k)))
              && did.events == |batch.events| && |old(db.inbox)| + did.notified == |db.inbox|
              && did.delivered == |sent| && did.failed == Failed(arrived)
            else
              && db.cursor == old(db.cursor) && db.inbox == old(db.inbox)
              && sent == [] && arrived == [] && did == Summary(0, 0, 0, 0)
  {
    hide InsertAll, Failed;
    sent, arrived := [], [];
    var written, moved := db.Deliver(batch.cursor, AfterBatch(batch), out.notes);
    if !moved {
      return Summary(0, 0, 0, 0), sent, arrived;
    }
    var lost;
    sent, arrived, lost := SendAll(out.deliveries, outside.deliverers, outside.accepts);
    did := Summary(|batch.events|, written, |sent|, lost);
  }

  /** Cursor and inbox after a rival's transaction, if there was one. */
  ghost function Beaten(cursor: int, inbox: seq<Note>, rival: Option<Rival>): (int, seq<Note>) {
    if rival.None? then (cursor, inbox) else (rival.value.next, InsertAll(inbox, rival.value.notes))
  }

  lemma ByRival(cursor: int, inbox: seq<Note>, rival: Option<Rival>)
    ensures rival.None? ==> Beaten(cursor, inbox, rival) == (cursor, inbox)
    ensures rival.Some? ==> Beaten(cursor, inbox, rival) == (rival.value.next, InsertAll(inbox, rival.value.notes))
  {
  }

  /** How many did not arrive. */
  function Failed(arrived: seq<bool>): nat {
    if arrived == [] then 0 else Failed(arrived[..|arrived| - 1]) + if arrived[|arrived| - 1] then 0 else 1
  }

  /** Failures are the attempts that did not arrive, neither more nor fewer. */
  lemma {:induction false} FailedCounts(arrived: seq<bool>)
    ensures Failed(arrived) == multiset(arrived)[false]
    decreases |arrived|
  {
    if arrived != [] {
      var init, last := arrived[..|arrived| - 1], arrived[|arrived| - 1];
      FailedCounts(init);
      assert arrived == init + [last];
    }
  }

  method SendAll(deliveries: seq<Delivery>, deliverers: set<string>, accepts: nat -> bool)
    returns (sent: seq<Delivery>, arrived: seq<bool>, failed: nat)
    ensures sent == deliveries && |arrived| == |sent| && failed == Failed(arrived)
    ensures forall k :: 0 <= k < |sent| ==> (arrived[k] <==> sent[k].rule.channel in deliverers && accepts(k))
  {
    sent, arrived, failed := [], [], 0;
    for k := 0 to |deliveries|
      invariant sent == deliveries[..k] && |arrived| == k && failed == Failed(arrived)
      invariant forall i :: 0 <= i < k ==> (arrived[i] <==> sent[i].rule.channel in deliverers && accepts(i))
    {
      var ok := deliveries[k].rule.channel in deliverers && accepts(k);
      assert (arrived + [ok])[..k] == arrived;
      sent, arrived := sent + [deliveries[k]], arrived + [ok];
      if !ok {
        failed := failed + 1;
      }
    }
  }
}
