/** Competing dispatchers over one event stream: every interleaving of their passes. */
module DispatchRuns {
  import opened Wrappers
  import opened Alerts
  import opened Dispatch

  // ---------------------------------------------------------------------
  // The protocol
  // ---------------------------------------------------------------------

  /** A dispatcher waits, holds a batch it read, sends what its winning pass said to
      send, or is gone. A batch remembers how many events were behind the cursor. */
  datatype Dispatcher =
    | Idle
    | Holding(behind: nat, batch: AlertBatch)
    | Sending(pass: nat, next: nat)
    | Dead

  /** A pass that won the swap: the rules it read, the store as it was for each of its
      events, what it said to send, and where its events stop. */
  datatype Pass = Pass(rules: seq<Rule>, stores: seq<Store>, deliveries: seq<Delivery>, upTo: nat)

  /** An attempt to send: the pass, and which of its deliveries. */
  datatype Attempt = Attempt(pass: nat, index: nat)

  /** outs holds, for every event a winning pass evaluated, what that pass said about it. */
  datatype System = System(
    sem: Semantics, base: nat, events: seq<Event>, cursor: int, inbox: seq<Note>,
    dispatchers: map<string, Dispatcher>,
    outs: seq<Output>, passes: seq<Pass>, attempts: seq<Attempt>)

  datatype Step =
    | Commit(event: Event)
    | Start(name: string)
    | Die(name: string)
    | Read(name: string, limit: nat)
    | Fail(name: string)
    | Deliver(name: string, rules: seq<Rule>, stores: seq<Store>)
    | Send(name: string)

  /** What a pass with these rules says about each event, the store being as given for it. */
  function OutputsOf(sem: Semantics, rules: seq<Rule>, stores: seq<Store>, events: seq<Event>): (outs: seq<Output>)
    requires |stores| == |events|
    ensures |outs| == |events|
    ensures forall k :: 0 <= k < |outs| ==> outs[k] == EventOutput(sem, stores[k], rules, events[k])
  {
    seq(|events|, k requires 0 <= k < |events| => EventOutput(sem, stores[k], rules, events[k]))
  }

  /** A pass over a store that does not change says what Evaluate computes. */
  lemma StableStoreEvaluation(sem: Semantics, store: Store, rules: seq<Rule>, events: seq<Event>)
    ensures Joined(OutputsOf(sem, rules, seq(|events|, _ => store), events)) == Evaluation(sem, store, rules, events)
  {
    EvaluationIsPerEvent(sem, store, rules, events);
    assert OutputsOf(sem, rules, seq(|events|, _ => store), events) == PerEvent(sem, store, rules, events);
  }

  ghost predicate AllSound(stores: seq<Store>) {
    forall k :: 0 <= k < |stores| ==> Integrity(stores[k])
  }

  ghost predicate Next(s: System, s': System, step: Step) {
    match step
    case Commit(e) =>
      && e.id > 0 && (s.events != [] ==> s.events[|s.events| - 1].id < e.id)
      && s' == s.(events := s.events + [e])
    case Start(d) => d !in s.dispatchers && s' == s.(dispatchers := s.dispatchers[d := Idle])
    case Die(d) => d in s.dispatchers && s' == s.(dispatchers := s.dispatchers[d := Dead])
    case Read(d, limit) =>
      && limit > 0 && d in s.dispatchers && s.dispatchers[d] == Idle
      && exists n: nat :: ReadAt(s, s', d, limit, n)
    case Fail(d) =>
      d in s.dispatchers && s.dispatchers[d].Holding? && s' == s.(dispatchers := s.dispatchers[d := Idle])
    case Deliver(d, rules, stores) =>
      && d in s.dispatchers && s.dispatchers[d].Holding?
      && |stores| == |s.dispatchers[d].batch.events| && AllSound(stores)
      && if s.cursor == s.dispatchers[d].batch.cursor then Wins(s, s', d, rules, stores)
         else s' == s.(dispatchers := s.dispatchers[d := Idle])
    case Send(d) =>
      && d in s.dispatchers && s.dispatchers[d].Sending?
      && var Sending(p, i) := s.dispatchers[d];
         p < |s.passes| &&
         if i < |s.passes[p].deliveries|
         then s' == s.(attempts := s.attempts + [Attempt(p, i)], dispatchers := s.dispatchers[d := Sending(p, i + 1)])
         else s' == s.(dispatchers := s.dispatchers[d := Idle])
  }

  /** Reading past the cursor; an empty batch is nothing to hold. */
  ghost predicate ReadAt(s: System, s': System, d: string, limit: nat, n: nat) {
    && n <= |s.events| && s.cursor == CursorAt(s.events, n)
    && var batch := AlertBatch(s.cursor, s.events[n..n + Min(limit, |s.events| - n)]);
       s' == s.(dispatchers := s.dispatchers[d := if batch.events == [] then Idle else Holding(n, batch)])
  }

  /** The transaction that records a batch and moves the cursor. */
  ghost predicate Wins(s: System, s': System, d: string, rules: seq<Rule>, stores: seq<Store>)
    requires d in s.dispatchers && s.dispatchers[d].Holding?
    requires |stores| == |s.dispatchers[d].batch.events|
  {
    var batch := s.dispatchers[d].batch;
    var outs := OutputsOf(s.sem, rules, stores, batch.events);
    s' == s.(cursor := AfterBatch(batch), inbox := InsertAll(s.inbox, Joined(outs).notes),
             outs := s.outs + outs,
             passes := s.passes + [Pass(rules, stores, Joined(outs).deliveries, |s.outs| + |outs|)],
             dispatchers := s.dispatchers[d := Sending(|s.passes|, 0)])
  }

  ghost predicate Initial(s: System) {
    && Ordered(s.events) && s.base == |s.events| && s.cursor == CursorAt(s.events, s.base)
    && s.inbox == [] && s.dispatchers == map[] && s.outs == [] && s.passes == [] && s.attempts == []
  }

  ghost predicate Steps(s: System, s': System) {
    exists step :: Next(s, s', step)
  }

  ghost predicate Stepped(run: seq<System>, k: nat)
    requires k + 1 < |run|
  {
    Steps(run[k], run[k + 1])
  }

  ghost predicate IsRun(run: seq<System>) {
    && run != [] && Initial(run[0])
    && forall k: nat :: k + 1 < |run| ==> Stepped(run, k)
  }

  // ---------------------------------------------------------------------
  // The invariant
  // ---------------------------------------------------------------------

  /** What some rules and some store say about an event. */
  ghost predicate SaidOf(sem: Semantics, e: Event, out: Output) {
    exists store, rules :: Integrity(store) && out == EventOutput(sem, store, rules, e)
  }

  /** One evaluation of each event, in order. */
  ghost predicate Evaluated(sem: Semantics, events: seq<Event>, outs: seq<Output>) {
    && |outs| == |events|
    && forall k :: 0 <= k < |outs| ==> SaidOf(sem, events[k], outs[k])
  }

  /** The cursor stands just past the evaluated events, none skipped and none twice,
      and the inbox is what their evaluations said, once each. */
  ghost predicate ExactAt(sem: Semantics, base: nat, events: seq<Event>, cursor: int, inbox: seq<Note>,
                          outs: seq<Output>) {
    && Ordered(events)
    && base + |outs| <= |events|
    && cursor == CursorAt(events, base + |outs|)
    && Evaluated(sem, events[base..base + |outs|], outs)
    && inbox == InsertAll([], Joined(outs).notes)
  }

  ghost predicate Exact(s: System) {
    ExactAt(s.sem, s.base, s.events, s.cursor, s.inbox, s.outs)
  }

  /** Where a pass took up: where the one before it stopped. */
  function StartOf(passes: seq<Pass>, p: nat): nat
    requires p <= |passes|
  {
    if p == 0 then 0 else passes[p - 1].upTo
  }

  /** A pass said, of the events from where the one before it stopped to where it
      stops, what its rules say, and is to send what it said. */
  ghost predicate PassOK(sem: Semantics, events: seq<Event>, outs: seq<Output>, passes: seq<Pass>, p: nat)
    requires p < |passes|
  {
    var lo, hi := StartOf(passes, p), passes[p].upTo;
    && lo < hi <= |outs| && hi <= |events|
    && |passes[p].stores| == hi - lo && AllSound(passes[p].stores)
    && outs[lo..hi] == OutputsOf(sem, passes[p].rules, passes[p].stores, events[lo..hi])
    && passes[p].deliveries == Joined(outs[lo..hi]).deliveries
  }

  /** What every pass is to send, pass by pass. */
  function AllDeliveries(passes: seq<Pass>): seq<Delivery> {
    if passes == [] then [] else AllDeliveries(passes[..|passes| - 1]) + passes[|passes| - 1].deliveries
  }

  /** The passes account for every evaluated event and every delivery, in order.
      The events are those after the base. */
  ghost predicate ContiguousAt(sem: Semantics, events: seq<Event>, outs: seq<Output>, passes: seq<Pass>) {
    && (forall p: nat :: p < |passes| ==> PassOK(sem, events, outs, passes, p))
    && StartOf(passes, |passes|) == |outs|
    && AllDeliveries(passes) == Joined(outs).deliveries
  }

  ghost predicate Contiguous(s: System) {
    s.base <= |s.events| && ContiguousAt(s.sem, s.events[s.base..], s.outs, s.passes)
  }

  ghost predicate BatchIsReal(s: System, d: Dispatcher) {
    d.Holding? ==>
      && d.batch.events != []
      && d.behind + |d.batch.events| <= |s.events|
      && d.batch.cursor == CursorAt(s.events, d.behind)
      && d.batch.events == s.events[d.behind..d.behind + |d.batch.events|]
  }

  /** Nothing this dispatcher has yet to send has been sent, and nobody else sends for its pass. */
  ghost predicate SenderOK(s: System, name: string)
    requires name in s.dispatchers
  {
    var d := s.dispatchers[name];
    d.Sending? ==>
      && d.pass < |s.passes|
      && (forall k :: 0 <= k < |s.attempts| && s.attempts[k].pass == d.pass ==> s.attempts[k].index < d.next)
      && (forall e :: e in s.dispatchers && e != name && s.dispatchers[e].Sending? ==> s.dispatchers[e].pass != d.pass)
  }

  ghost predicate IsAttempt(passes: seq<Pass>, a: Attempt) {
    a.pass < |passes| && a.index < |passes[a.pass].deliveries|
  }

  ghost predicate AttemptsReal(s: System) {
    && (forall i, j :: 0 <= i < j < |s.attempts| ==> s.attempts[i] != s.attempts[j])
    && (forall i :: 0 <= i < |s.attempts| ==> IsAttempt(s.passes, s.attempts[i]))
  }

  /** No slot of a pass is attempted twice. */
  ghost predicate SentOnce(s: System) {
    && AttemptsReal(s)
    && forall d :: d in s.dispatchers ==> SenderOK(s, d)
  }

  ghost predicate Inv(s: System) {
    && Exact(s) && Contiguous(s) && SentOnce(s)
    && forall d :: d in s.dispatchers ==> BatchIsReal(s, s.dispatchers[d])
  }

  lemma CursorTells(events: seq<Event>, m: nat, n: nat)
    requires Ordered(events) && m <= |events| && n <= |events|
    requires CursorAt(events, m) == CursorAt(events, n)
    ensures m == n
  {
  }

  lemma {:induction false} JoinedConcat(a: seq<Output>, b: seq<Output>)
    ensures Joined(a + b) == Both(Joined(a), Joined(b))
    decreases |b|
  {
    if b == [] {
      assert a + b == a;
    } else {
      assert (a + b)[..|a + b| - 1] == a + b[..|b| - 1];
      JoinedConcat(a, b[..|b| - 1]);
    }
  }

  /** Steps that leave the senders, the passes and the attempts alone, or stop a sender. */
  lemma SendersUndisturbed(s: System, s': System)
    requires SentOnce(s) && s'.passes == s.passes && s'.attempts == s.attempts
    requires forall d :: d in s'.dispatchers && s'.dispatchers[d].Sending? ==>
               d in s.dispatchers && s.dispatchers[d] == s'.dispatchers[d]
    ensures SentOnce(s')
  {
    forall d | d in s'.dispatchers ensures SenderOK(s', d) {
      if s'.dispatchers[d].Sending? { assert SenderOK(s, d); }
    }
  }

  /** Batches stay real as events are appended. */
  lemma BatchesStayReal(s: System, s': System)
    requires forall d :: d in s.dispatchers ==> BatchIsReal(s, s.dispatchers[d])
    requires s.events <= s'.events
    requires forall d :: d in s'.dispatchers && s'.dispatchers[d].Holding? ==>
               d in s.dispatchers && s.dispatchers[d] == s'.dispatchers[d]
    ensures forall d :: d in s'.dispatchers ==> BatchIsReal(s', s'.dispatchers[d])
  {
    forall d | d in s'.dispatchers ensures BatchIsReal(s', s'.dispatchers[d]) {
      if s'.dispatchers[d].Holding? { assert BatchIsReal(s, s.dispatchers[d]); }
    }
  }

  // ---------------------------------------------------------------------
  // Every step keeps it
  // ---------------------------------------------------------------------

  lemma CommitKeeps(s: System, s': System, e: Event)
    requires Inv(s) && Next(s, s', Commit(e))
    ensures Inv(s')
  {
    CommitIsExact(s, s', e);
    CommitIsContiguous(s, s', e);
    hide ExactAt, ContiguousAt;
    BatchesStayReal(s, s');
    hide BatchIsReal;
    SendersUndisturbed(s, s');
  }

  lemma CommitIsExact(s: System, s': System, e: Event)
    requires Exact(s) && Next(s, s', Commit(e))
    ensures Exact(s')
  {
    var n := s.base + |s.outs|;
    assert s'.events[s.base..n] == s.events[s.base..n];
    hide Joined, InsertAll, SaidOf;
  }

  lemma CommitIsContiguous(s: System, s': System, e: Event)
    requires Contiguous(s) && Next(s, s', Commit(e))
    ensures Contiguous(s')
  {
    var before, after := s.events[s.base..], s'.events[s.base..];
    assert after == before + [e];
    hide OutputsOf, Joined, AllDeliveries, AllSound;
    forall p: nat | p < |s.passes| ensures PassOK(s.sem, after, s.outs, s.passes, p) {
      assert PassOK(s.sem, before, s.outs, s.passes, p);
      var lo, hi := StartOf(s.passes, p), s.passes[p].upTo;
      assert after[lo..hi] == before[lo..hi];
    }
  }

  lemma ReadKeeps(s: System, s': System, name: string, limit: nat)
    requires Inv(s) && Next(s, s', Read(name, limit))
    ensures Inv(s')
  {
    var n: nat :| ReadAt(s, s', name, limit, n);
    hide ExactAt, ContiguousAt;
    SendersUndisturbed(s, s');
    hide SentOnce;
    ReadIsReal(s, s', name, limit, n);
    hide BatchIsReal, ReadAt;
  }

  lemma ReadIsReal(s: System, s': System, name: string, limit: nat, n: nat)
    requires forall d :: d in s.dispatchers ==> BatchIsReal(s, s.dispatchers[d])
    requires limit > 0 && name in s.dispatchers && ReadAt(s, s', name, limit, n)
    ensures forall d :: d in s'.dispatchers ==> BatchIsReal(s', s'.dispatchers[d])
  {
    forall d | d in s'.dispatchers ensures BatchIsReal(s', s'.dispatchers[d]) {
      if d != name { assert BatchIsReal(s, s.dispatchers[d]); }
    }
  }

  /** A pass only ever extends the evaluated events by the batch it read. */
  lemma WinIsExact(s: System, s': System, d: string, rules: seq<Rule>, stores: seq<Store>)
    requires Exact(s) && Contiguous(s)
    requires d in s.dispatchers && s.dispatchers[d].Holding? && BatchIsReal(s, s.dispatchers[d])
    requires |stores| == |s.dispatchers[d].batch.events| && AllSound(stores)
    requires s.cursor == s.dispatchers[d].batch.cursor && Wins(s, s', d, rules, stores)
    ensures Exact(s') && Contiguous(s') && |stores| > 0
  {
    hide ExactAt, ContiguousAt, OutputsOf, Joined, InsertAll, AllSound;
    var h := s.dispatchers[d];
    var outs := OutputsOf(s.sem, rules, stores, h.batch.events);
    OutputsAreSaid(s.sem, rules, stores, h.batch.events);
    SwapExtends(s.sem, s.base, s.events, s.cursor, s.inbox, s.outs, h.behind, h.batch, outs);
    assert s.events[s.base..][|s.outs|..|s.outs| + |outs|] == h.batch.events;
    PassAppended(s.sem, s.events[s.base..], s.outs, s.passes, rules, stores);
  }

  /** An evaluation is something rules and a store say. */
  lemma OutputsAreSaid(sem: Semantics, rules: seq<Rule>, stores: seq<Store>, events: seq<Event>)
    requires |stores| == |events| && AllSound(stores)
    ensures Evaluated(sem, events, OutputsOf(sem, rules, stores, events))
  {
    hide EventOutput, Integrity;
    var outs := OutputsOf(sem, rules, stores, events);
    forall k | 0 <= k < |outs| ensures SaidOf(sem, events[k], outs[k]) {
      assert Integrity(stores[k]) && outs[k] == EventOutput(sem, stores[k], rules, events[k]);
    }
  }

  /** The swap succeeds only where the evaluated events stop, and takes up there. */
  lemma SwapExtends(sem: Semantics, base: nat, events: seq<Event>, cursor: int, inbox: seq<Note>, done: seq<Output>,
                    behind: nat, batch: AlertBatch, outs: seq<Output>)
    requires ExactAt(sem, base, events, cursor, inbox, done)
    requires 0 < |batch.events| <= |events| - behind
    requires batch.cursor == CursorAt(events, behind) && batch.events == events[behind..behind + |batch.events|]
    requires Evaluated(sem, batch.events, outs) && cursor == batch.cursor
    ensures behind == base + |done|
    ensures ExactAt(sem, base, events, AfterBatch(batch), InsertAll(inbox, Joined(outs).notes), done + outs)
  {
    hide InsertAll, Joined, Ordered, CursorAt, Evaluated;
    SwapTakesUp(sem, base, events, cursor, inbox, done, behind, batch);
    WinJoins(done, outs);
    EvaluatedInFull(sem, batch.events, outs);
    EvaluatedUpTo(sem, events, base, behind, behind + |outs|, done, outs);
  }

  lemma EvaluatedInFull(sem: Semantics, events: seq<Event>, outs: seq<Output>)
    requires Evaluated(sem, events, outs)
    ensures |outs| == |events|
  {
  }

  lemma SwapTakesUp(sem: Semantics, base: nat, events: seq<Event>, cursor: int, inbox: seq<Note>, done: seq<Output>,
                    behind: nat, batch: AlertBatch)
    requires ExactAt(sem, base, events, cursor, inbox, done)
    requires 0 < |batch.events| <= |events| - behind
    requires batch.cursor == CursorAt(events, behind) && batch.events == events[behind..behind + |batch.events|]
    requires cursor == batch.cursor
    ensures behind == base + |done| && AfterBatch(batch) == CursorAt(events, behind + |batch.events|)
  {
    hide InsertAll, Joined, Evaluated;
    CursorTells(events, behind, base + |done|);
    assert batch.events[|batch.events| - 1] == events[behind + |batch.events| - 1];
  }

  lemma WinJoins(done: seq<Output>, outs: seq<Output>)
    ensures InsertAll(InsertAll([], Joined(done).notes), Joined(outs).notes) == InsertAll([], Joined(done + outs).notes)
  {
    JoinedConcat(done, outs);
    InsertAllConcat([], Joined(done).notes, Joined(outs).notes);
  }

  lemma EvaluatedUpTo(sem: Semantics, events: seq<Event>, base: nat, n: nat, upTo: nat, done: seq<Output>,
                      outs: seq<Output>)
    requires base <= n <= upTo <= |events|
    requires Evaluated(sem, events[base..n], done) && Evaluated(sem, events[n..upTo], outs)
    ensures Evaluated(sem, events[base..upTo], done + outs)
  {
    assert events[base..upTo] == events[base..n] + events[n..upTo];
    EvaluatedConcat(sem, events[base..n], done, events[n..upTo], outs);
  }

  lemma EvaluatedConcat(sem: Semantics, e: seq<Event>, a: seq<Output>, f: seq<Event>, b: seq<Output>)
    requires Evaluated(sem, e, a) && Evaluated(sem, f, b)
    ensures Evaluated(sem, e + f, a + b)
  {
    hide SaidOf;
  }

  /** One more pass, over the events from where the last one stopped. */
  lemma PassAppended(sem: Semantics, events: seq<Event>, done: seq<Output>, passes: seq<Pass>,
                     rules: seq<Rule>, stores: seq<Store>)
    requires ContiguousAt(sem, events, done, passes)
    requires 0 < |stores| && |done| + |stores| <= |events| && AllSound(stores)
    ensures var outs := OutputsOf(sem, rules, stores, events[|done|..|done| + |stores|]);
            ContiguousAt(sem, events, done + outs,
                         passes + [Pass(rules, stores, Joined(outs).deliveries, |done| + |stores|)])
  {
    var outs := OutputsOf(sem, rules, stores, events[|done|..|done| + |stores|]);
    var more := passes + [Pass(rules, stores, Joined(outs).deliveries, |done| + |stores|)];
    hide OutputsOf, AllSound, Joined;
    forall p: nat | p < |more| ensures PassOK(sem, events, done + outs, more, p) {
      if p < |passes| {
        PassStaysOK(sem, events, done, outs, passes, more[|passes|], p);
      } else {
        assert (done + outs)[|done|..|done| + |stores|] == outs;
      }
    }
    assert more[..|passes|] == passes;
    JoinedConcat(done, outs);
  }

  lemma PassStaysOK(sem: Semantics, events: seq<Event>, done: seq<Output>, outs: seq<Output>, passes: seq<Pass>,
                    pass: Pass, p: nat)
    requires p < |passes| && PassOK(sem, events, done, passes, p)
    ensures PassOK(sem, events, done + outs, passes + [pass], p)
  {
    hide OutputsOf, AllSound, Joined;
    var lo, hi := StartOf(passes, p), passes[p].upTo;
    assert StartOf(passes + [pass], p) == lo;
    assert (done + outs)[lo..hi] == done[lo..hi];
  }

  lemma WinSendsOnce(s: System, s': System, d: string, rules: seq<Rule>, stores: seq<Store>)
    requires SentOnce(s) && d in s.dispatchers && s.dispatchers[d].Holding?
    requires |stores| == |s.dispatchers[d].batch.events| && Wins(s, s', d, rules, stores)
    ensures SentOnce(s')
  {
    hide OutputsOf, Joined, InsertAll;
    forall e | e in s'.dispatchers ensures SenderOK(s', e) {
      assert SenderOK(s, e);
      forall f | f in s'.dispatchers && s'.dispatchers[f].Sending? ensures s'.dispatchers[f].pass <= |s.passes| {
        assert SenderOK(s, f);
      }
      forall f | f in s'.dispatchers && f != d && s'.dispatchers[f].Sending?
        ensures s'.dispatchers[f].pass < |s.passes|
      {
        assert SenderOK(s, f);
      }
    }
  }

  lemma DeliverKeeps(s: System, s': System, name: string, rules: seq<Rule>, stores: seq<Store>)
    requires Inv(s) && Next(s, s', Deliver(name, rules, stores))
    ensures Inv(s')
  {
    hide ExactAt, ContiguousAt, OutputsOf, Joined, InsertAll, AllSound;
    assert BatchIsReal(s, s.dispatchers[name]);
    BatchesStayReal(s, s');
    hide BatchIsReal;
    if s.cursor == s.dispatchers[name].batch.cursor {
      WinKeeps(s, s', name, rules, stores);
    } else {
      SendersUndisturbed(s, s');
    }
  }

  lemma WinKeeps(s: System, s': System, name: string, rules: seq<Rule>, stores: seq<Store>)
    requires Inv(s) && name in s.dispatchers && s.dispatchers[name].Holding?
    requires |stores| == |s.dispatchers[name].batch.events| && AllSound(stores)
    requires s.cursor == s.dispatchers[name].batch.cursor && Wins(s, s', name, rules, stores)
    ensures Exact(s') && Contiguous(s') && SentOnce(s')
  {
    hide Exact, Contiguous, SentOnce, BatchIsReal, AllSound, Wins;
    WinIsExact(s, s', name, rules, stores);
    WinSendsOnce(s, s', name, rules, stores);
  }

  lemma SendKeeps(s: System, s': System, name: string)
    requires Inv(s) && Next(s, s', Send(name))
    ensures Inv(s')
  {
    hide ExactAt, ContiguousAt, SentOnce;
    BatchesStayReal(s, s');
    hide BatchIsReal;
    if s.dispatchers[name].next < |s.passes[s.dispatchers[name].pass].deliveries| {
      AttemptIsFirst(s, s', name);
    } else {
      SendersUndisturbed(s, s');
    }
  }

  lemma AttemptIsFirst(s: System, s': System, name: string)
    requires SentOnce(s) && name in s.dispatchers && s.dispatchers[name].Sending?
    requires var d := s.dispatchers[name];
             && d.pass < |s.passes| && d.next < |s.passes[d.pass].deliveries|
             && s' == s.(attempts := s.attempts + [Attempt(d.pass, d.next)],
                         dispatchers := s.dispatchers[name := Sending(d.pass, d.next + 1)])
    ensures SentOnce(s')
  {
    assert SenderOK(s, name);
    forall d | d in s'.dispatchers ensures SenderOK(s', d) {
      assert SenderOK(s, d);
    }
  }

  lemma QuietKeeps(s: System, s': System, step: Step)
    requires Inv(s) && Next(s, s', step) && (step.Start? || step.Die? || step.Fail?)
    ensures Inv(s')
  {
    hide ExactAt, ContiguousAt;
    BatchesStayReal(s, s');
    hide BatchIsReal;
    SendersUndisturbed(s, s');
  }

  lemma StepKeeps(s: System, s': System, step: Step)
    requires Inv(s) && Next(s, s', step)
    ensures Inv(s')
  {
    hide Inv, Next;
    match step
    case Commit(e) => CommitKeeps(s, s', e);
    case Read(d, limit) => ReadKeeps(s, s', d, limit);
    case Deliver(d, rules, stores) => DeliverKeeps(s, s', d, rules, stores);
    case Send(d) => SendKeeps(s, s', d);
    case _ => QuietKeeps(s, s', step);
  }

  lemma InitialHolds(s: System)
    requires Initial(s)
    ensures Inv(s)
  {
  }

  lemma {:induction false} RunKeeps(run: seq<System>, k: nat)
    requires IsRun(run) && k < |run|
    ensures Inv(run[k])
    decreases k
  {
    hide Inv, Initial;
    if k == 0 {
      InitialHolds(run[0]);
    } else {
      var j := k - 1;
      RunKeeps(run, j);
      assert Stepped(run, j);
      var step :| Next(run[j], run[k], step);
      StepKeeps(run[j], run[k], step);
    }
  }

  // ---------------------------------------------------------------------
  // What every run keeps
  // ---------------------------------------------------------------------

  /** A delivery names its event. */
  lemma {:induction false} TellAllNames(r: Rule, e: Event, whos: seq<Recipient>, d: Delivery)
    requires d in TellAll(r, e, whos).deliveries
    ensures d.event == e && d.rule == r
    decreases |whos|
  {
    var init := whos[..|whos| - 1];
    if d in TellAll(r, e, init).deliveries { TellAllNames(r, e, init, d); }
  }

  lemma {:induction false} OutputNames(sem: Semantics, store: Store, rules: seq<Rule>, e: Event, d: Delivery)
    requires d in EventOutput(sem, store, rules, e).deliveries
    ensures d.event == e && d.rule in rules && d.rule.eventType == e.eventType
    decreases |rules|
  {
    hide RecipientsOf, TellAll, FactsOf, RuleMatches;
    var init, r := rules[..|rules| - 1], rules[|rules| - 1];
    if d in EventOutput(sem, store, init, e).deliveries {
      OutputNames(sem, store, init, e, d);
    } else {
      TellAllNames(r, e, RecipientsOf(sem, store, r), d);
    }
  }

  lemma {:induction false} JoinedNames(sem: Semantics, rules: seq<Rule>, stores: seq<Store>, events: seq<Event>, d: Delivery)
    requires |stores| == |events| && d in Joined(OutputsOf(sem, rules, stores, events)).deliveries
    ensures d.event in events && d.rule in rules
    decreases |events|
  {
    hide EventOutput;
    var n := |events| - 1;
    var outs := OutputsOf(sem, rules, stores, events);
    assert outs != [];
    assert outs[..n] == OutputsOf(sem, rules, stores[..n], events[..n]);
    if d in Joined(outs[..n]).deliveries {
      JoinedNames(sem, rules, stores[..n], events[..n], d);
    } else {
      OutputNames(sem, stores[n], rules, events[n], d);
    }
  }

  /** What an attempt sent. */
  function Sent(passes: seq<Pass>, a: Attempt): Delivery
    requires IsAttempt(passes, a)
  {
    passes[a.pass].deliveries[a.index]
  }

  /** Where an attempt stands among everything every pass is to send. */
  function Place(passes: seq<Pass>, a: Attempt): nat
    requires IsAttempt(passes, a)
  {
    |AllDeliveries(passes[..a.pass])| + a.index
  }

  lemma {:induction false} AllDeliveriesGrow(passes: seq<Pass>, p: nat)
    requires p < |passes|
    ensures AllDeliveries(passes[..p]) + passes[p].deliveries <= AllDeliveries(passes)
    decreases |passes|
  {
    var n := |passes| - 1;
    if p < n {
      AllDeliveriesGrow(passes[..n], p);
      assert passes[..n][..p] == passes[..p];
    }
  }

  lemma PlaceHolds(passes: seq<Pass>, a: Attempt)
    requires IsAttempt(passes, a)
    ensures Place(passes, a) < |AllDeliveries(passes)|
    ensures AllDeliveries(passes)[Place(passes, a)] == Sent(passes, a)
  {
    AllDeliveriesGrow(passes, a.pass);
    hide AllDeliveries;
    var before := AllDeliveries(passes[..a.pass]) + passes[a.pass].deliveries;
    assert before[Place(passes, a)] == Sent(passes, a);
  }

  lemma PlacesDiffer(passes: seq<Pass>, a: Attempt, b: Attempt)
    requires IsAttempt(passes, a) && IsAttempt(passes, b) && a != b
    ensures Place(passes, a) != Place(passes, b)
  {
    if a.pass < b.pass {
      EarlierPlace(passes, a, b);
    } else if b.pass < a.pass {
      EarlierPlace(passes, b, a);
    }
  }

  lemma EarlierPlace(passes: seq<Pass>, a: Attempt, b: Attempt)
    requires IsAttempt(passes, a) && IsAttempt(passes, b) && a.pass < b.pass
    ensures Place(passes, a) < Place(passes, b)
  {
    AllDeliveriesGrow(passes[..b.pass], a.pass);
    hide AllDeliveries;
    assert passes[..b.pass][..a.pass] == passes[..a.pass];
  }

  /** In every interleaving: every event up to the cursor has been evaluated exactly
      once and in order, the inbox is what those evaluations said, and every attempt to
      send is for a place of its own in the list of what they said to send. */
  lemma EveryEventOnce(run: seq<System>, k: nat)
    requires IsRun(run) && k < |run|
    ensures Exact(run[k]) && Contiguous(run[k])
    ensures forall e :: e in run[k].events[run[k].base..] ==>
              (e.id <= run[k].cursor <==> e in run[k].events[run[k].base..run[k].base + |run[k].outs|])
    ensures forall i :: 0 <= i < |run[k].attempts| ==> IsAttempt(run[k].passes, run[k].attempts[i])
    ensures forall i :: 0 <= i < |run[k].attempts| ==>
              var place := Place(run[k].passes, run[k].attempts[i]);
              && place < |Joined(run[k].outs).deliveries|
              && Joined(run[k].outs).deliveries[place] == Sent(run[k].passes, run[k].attempts[i])
    ensures forall i, j :: 0 <= i < j < |run[k].attempts| ==>
              Place(run[k].passes, run[k].attempts[i]) != Place(run[k].passes, run[k].attempts[j])
  {
    RunKeeps(run, k);
    hide ExactAt, PassOK, Place, Sent, SenderOK, BatchIsReal;
    var s := run[k];
    PassedEvents(s);
    forall i | 0 <= i < |s.attempts|
      ensures Place(s.passes, s.attempts[i]) < |AllDeliveries(s.passes)|
      ensures AllDeliveries(s.passes)[Place(s.passes, s.attempts[i])] == Sent(s.passes, s.attempts[i])
    {
      PlaceHolds(s.passes, s.attempts[i]);
    }
    forall i, j | 0 <= i < j < |s.attempts|
      ensures Place(s.passes, s.attempts[i]) != Place(s.passes, s.attempts[j])
    {
      PlacesDiffer(s.passes, s.attempts[i], s.attempts[j]);
    }
  }

  lemma PassedEvents(s: System)
    requires Exact(s)
    ensures forall e :: e in s.events[s.base..] ==>
              (e.id <= s.cursor <==> e in s.events[s.base..s.base + |s.outs|])
  {
    hide Evaluated;
    var n := s.base + |s.outs|;
    forall e | e in s.events[s.base..] ensures e.id <= s.cursor <==> e in s.events[s.base..n] {
      var i :| 0 <= i < |s.events[s.base..]| && s.events[s.base..][i] == e;
      assert s.events[s.base + i] == e;
      if s.base + i < n { assert s.events[s.base..n][i] == e; }
    }
  }

  lemma {:induction false} PassesFollow(sem: Semantics, events: seq<Event>, outs: seq<Output>, passes: seq<Pass>,
                                        p: nat, q: nat)
    requires p < q < |passes| && forall r: nat :: r < |passes| ==> PassOK(sem, events, outs, passes, r)
    ensures passes[p].upTo <= StartOf(passes, q)
    decreases q
  {
    hide OutputsOf, Joined, AllSound;
    if p + 1 < q {
      assert PassOK(sem, events, outs, passes, q - 1);
      PassesFollow(sem, events, outs, passes, p, q - 1);
    }
  }

  /** A pass sends only about its own events, and only by its own rules. */
  lemma SentIsAbout(sem: Semantics, events: seq<Event>, outs: seq<Output>, passes: seq<Pass>, a: Attempt)
    requires IsAttempt(passes, a) && PassOK(sem, events, outs, passes, a.pass)
    ensures StartOf(passes, a.pass) < passes[a.pass].upTo <= |events|
    ensures Sent(passes, a).event in events[StartOf(passes, a.pass)..passes[a.pass].upTo]
    ensures Sent(passes, a).rule in passes[a.pass].rules
  {
    hide OutputsOf, Joined, AllSound;
    var lo, hi, pass := StartOf(passes, a.pass), passes[a.pass].upTo, passes[a.pass];
    assert Sent(passes, a) in pass.deliveries;
    JoinedNames(sem, pass.rules, pass.stores, events[lo..hi], Sent(passes, a));
  }

  /** Slices that do not overlap have no event in common. */
  lemma EventsApart(events: seq<Event>, lo: nat, hi: nat, lo': nat, hi': nat, e: Event)
    requires lo <= hi <= lo' <= hi' <= |events|
    requires forall i, j :: 0 <= i < j < |events| ==> events[i].id < events[j].id
    requires e in events[lo..hi]
    ensures e !in events[lo'..hi']
  {
    var i :| 0 <= i < hi - lo && events[lo..hi][i] == e;
    assert events[lo + i] == e;
    forall j | 0 <= j < hi' - lo' ensures events[lo'..hi'][j] != e {
      assert events[lo + i].id < events[lo' + j].id;
    }
  }

  /** All attempts to send about one event are one pass's: no second dispatcher ever
      sends about an event that another's pass has recorded. */
  lemma OnePassPerEvent(run: seq<System>, k: nat, i: nat, j: nat)
    requires IsRun(run) && k < |run| && i < |run[k].attempts| && j < |run[k].attempts|
    ensures var s := run[k]; IsAttempt(s.passes, s.attempts[i]) && IsAttempt(s.passes, s.attempts[j])
    ensures var s := run[k];
            Sent(s.passes, s.attempts[i]).event == Sent(s.passes, s.attempts[j]).event ==>
              s.attempts[i].pass == s.attempts[j].pass
  {
    RunKeeps(run, k);
    hide PassOK, SenderOK, BatchIsReal, Evaluated;
    var s := run[k];
    if s.attempts[i].pass < s.attempts[j].pass {
      AttemptsApart(s, s.attempts[i], s.attempts[j]);
    } else if s.attempts[j].pass < s.attempts[i].pass {
      AttemptsApart(s, s.attempts[j], s.attempts[i]);
    }
  }

  lemma AttemptsApart(s: System, a: Attempt, b: Attempt)
    requires Exact(s) && Contiguous(s)
    requires IsAttempt(s.passes, a) && IsAttempt(s.passes, b) && a.pass < b.pass
    ensures Sent(s.passes, a).event != Sent(s.passes, b).event
  {
    hide PassOK, Evaluated, Sent, StartOf, AllDeliveries;
    var events := s.events[s.base..];
    SentIsAbout(s.sem, events, s.outs, s.passes, a);
    SentIsAbout(s.sem, events, s.outs, s.passes, b);
    PassesFollow(s.sem, events, s.outs, s.passes, a.pass, b.pass);
    EventsApart(events, StartOf(s.passes, a.pass), s.passes[a.pass].upTo,
                StartOf(s.passes, b.pass), s.passes[b.pass].upTo, Sent(s.passes, a).event);
  }

  /** The cursor never moves back, moves exactly when events are recorded, and a pass
      that loses the swap writes and sends nothing. */
  lemma StepsOnlyAdvance(run: seq<System>, k: nat, step: Step)
    requires IsRun(run) && k + 1 < |run| && Next(run[k], run[k + 1], step)
    ensures run[k].cursor <= run[k + 1].cursor
    ensures step.Deliver? && run[k].dispatchers[step.name].batch.cursor != run[k].cursor ==>
              && run[k + 1].cursor == run[k].cursor && run[k + 1].inbox == run[k].inbox
              && run[k + 1].outs == run[k].outs && run[k + 1].attempts == run[k].attempts
              && run[k + 1].passes == run[k].passes && run[k + 1].dispatchers[step.name] == Idle
    ensures run[k].cursor == run[k + 1].cursor <==> run[k].outs == run[k + 1].outs
  {
    RunKeeps(run, k);
    hide SentOnce, ContiguousAt, Evaluated, OutputsOf;
    var s, s' := run[k], run[k + 1];
    if step.Deliver? && s.cursor == s.dispatchers[step.name].batch.cursor {
      assert BatchIsReal(s, s.dispatchers[step.name]);
      WinAdvances(s, s', step.name, step.rules, step.stores);
    }
  }

  lemma WinAdvances(s: System, s': System, d: string, rules: seq<Rule>, stores: seq<Store>)
    requires Exact(s) && Contiguous(s)
    requires d in s.dispatchers && s.dispatchers[d].Holding? && BatchIsReal(s, s.dispatchers[d])
    requires |stores| == |s.dispatchers[d].batch.events| && AllSound(stores)
    requires s.cursor == s.dispatchers[d].batch.cursor && Wins(s, s', d, rules, stores)
    ensures s.cursor < s'.cursor && s.outs != s'.outs
  {
    WinIsExact(s, s', d, rules, stores);
    hide Evaluated, ContiguousAt, OutputsOf, AllSound, Joined, InsertAll;
    assert |s'.outs| > |s.outs|;
    assert s'.events[s.base + |s'.outs| - 1].id == s'.cursor;
  }
}
