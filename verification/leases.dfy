/** Every interleaving of workers over one job table: claims, reports, heartbeats,
    retries, and workers that die. */
module LeaseRuns {
  import opened Wrappers
  import opened Jobs

  /** A worker does one thing at a time: it waits, or it runs the job it claimed as
      the claim returned it, or it is gone. */
  datatype Worker = Idle | Running(id: int, claimed: Job) | Dead

  /** What the table has accepted so far, and the instant each statement was given. */
  datatype Entry =
    | Enqueued(job: int)
    | Claimed(job: int, worker: string, at: int, lease: int)
    | Completed(job: int, worker: string, at: int)
    | Failed(job: int, worker: string, at: int, abandoned: bool)
    | Released(job: int, worker: string, at: int)
    | Extended(job: int, worker: string, at: int, lease: int)
    | Retried(job: int)

  /** A worker reporting on the job it runs, or keeping its lease. */
  predicate IsReport(e: Entry) {
    e.Completed? || e.Failed? || e.Released? || e.Extended?
  }

  datatype System = System(rows: map<int, Job>, workers: map<string, Worker>, log: seq<Entry>)

  datatype Report = Complete | Fail | Release | Extend

  /** One atomic step. A worker whose last report is lost, because its statement failed,
      goes on to its next claim while the row still names it. Each step carries the instant its
      statement was given; nothing relates the instants of different steps. */
  datatype Step =
    | Start(worker: string)
    | Die(worker: string)
    | Enqueue(id: int, kind: string, payload: string, priority: int, scheduledFor: int, maxAttempts: int)
    | Claim(worker: string, id: int, now: int, lease: int)
    | Report(worker: string, report: Report, now: int, lease: int)
    | Lose(worker: string)
    | Retry(id: int, now: int)

  /** The row after an accepted report on it. */
  function Reported(row: Job, claimed: Job, report: Report, now: int, lease: int): Job {
    match report
    case Complete => row.Completed(now)
    case Fail => row.FailedOnce(now, now + RetryDelayOf(claimed.attempts))
    case Release => row.Released(now)
    case Extend => row.Extended(now + lease)
  }

  /** The event recorded with it, decided from the job as it was claimed. */
  function Recorded(id: int, worker: string, claimed: Job, report: Report, now: int, lease: int): Entry {
    match report
    case Complete => Entry.Completed(id, worker, now)
    case Fail => Entry.Failed(id, worker, now, claimed.Exhausted())
    case Release => Entry.Released(id, worker, now)
    case Extend => Entry.Extended(id, worker, now, lease)
  }

  ghost predicate Next(s: System, s': System, step: Step) {
    match step
    case Start(w) => w != "" && w !in s.workers && s' == s.(workers := s.workers[w := Idle])
    case Die(w) => w in s.workers && s' == s.(workers := s.workers[w := Dead])
    case Enqueue(id, kind, payload, priority, scheduledFor, maxAttempts) =>
      && id !in s.rows && maxAttempts >= 1
      && s' == System(s.rows[id := NewRow(kind, payload, priority, scheduledFor, maxAttempts)],
                      s.workers, s.log + [Enqueued(id)])
    case Claim(w, id, now, lease) =>
      && lease > 0 && w in s.workers && s.workers[w] == Idle
      && Picks(s.rows, now, id)
      && var row := s.rows[id].Claimed(w, now + lease);
         s' == System(s.rows[id := row], s.workers[w := Running(id, row)], s.log + [Entry.Claimed(id, w, now, lease)])
    case Report(w, report, now, lease) =>
      && lease > 0 && w in s.workers && s.workers[w].Running?
      && var id, claimed := s.workers[w].id, s.workers[w].claimed;
         var workers := if report == Extend then s.workers else s.workers[w := Idle];
         if id in s.rows && Accepts(s.rows[id], w) then
           s' == System(s.rows[id := Reported(s.rows[id], claimed, report, now, lease)], workers,
                        s.log + [Recorded(id, w, claimed, report, now, lease)])
         else s' == s.(workers := workers)
    case Lose(w) => w in s.workers && s.workers[w].Running? && s' == s.(workers := s.workers[w := Idle])
    case Retry(id, now) =>
      && id in s.rows && s.rows[id].failedAt.Some?
      && s' == System(s.rows[id := s.rows[id].Retried(now)], s.workers, s.log + [Entry.Retried(id)])
  }

  ghost predicate IsRun(run: seq<System>) {
    && run != []
    && run[0] == System(map[], map[], [])
    && forall k: nat :: k + 1 < |run| ==> Stepped(run, k)
  }

  ghost predicate Stepped(run: seq<System>, k: nat)
    requires k + 1 < |run|
  {
    Steps(run[k], run[k + 1])
  }

  ghost predicate Steps(s: System, s': System) {
    exists step :: Next(s, s', step)
  }

  // ---------------------------------------------------------------------
  // Reading the log
  // ---------------------------------------------------------------------

  /** A claim nothing has ended: whose it is, when it was made, and when its lease runs out. */
  datatype Lease = Lease(worker: string, since: int, until: int)

  /** What an entry about a job does to the lease on it. */
  function After(e: Entry, before: Option<Lease>): Option<Lease> {
    match e
    case Claimed(_, w, at, lease) => Some(Lease(w, at, at + lease))
    case Extended(_, _, at, lease) => if before.None? then None else Some(before.value.(until := at + lease))
    case _ => None
  }

  /** The latest claim on a job, if nothing has ended it since, with its latest extension. */
  function LeaseOn(log: seq<Entry>, id: int): Option<Lease> {
    if log == [] then None
    else
      var init, e := log[..|log| - 1], log[|log| - 1];
      if e.job != id then LeaseOn(init, id) else After(e, LeaseOn(init, id))
  }

  predicate HeldBy(log: seq<Entry>, id: int, worker: string) {
    LeaseOn(log, id).Some? && LeaseOn(log, id).value.worker == worker
  }

  /** Failures recorded since the job was enqueued or last retried. */
  function Failures(log: seq<Entry>, id: int): nat {
    if log == [] then 0
    else
      var init, e := log[..|log| - 1], log[|log| - 1];
      if e.job != id then Failures(init, id)
      else
        match e
        case Failed(_, _, _, _) => Failures(init, id) + 1
        case Retried(_) => 0
        case Enqueued(_) => 0
        case _ => Failures(init, id)
  }

  /** Abandonments among them. */
  function Abandonments(log: seq<Entry>, id: int): nat {
    if log == [] then 0
    else
      var init, e := log[..|log| - 1], log[|log| - 1];
      if e.job != id then Abandonments(init, id)
      else
        match e
        case Failed(_, _, _, abandoned) => Abandonments(init, id) + (if abandoned then 1 else 0)
        case Retried(_) => 0
        case Enqueued(_) => 0
        case _ => Abandonments(init, id)
  }

  lemma LogSnoc(log: seq<Entry>, e: Entry, id: int)
    ensures LeaseOn(log + [e], id) == if e.job != id then LeaseOn(log, id) else After(e, LeaseOn(log, id))
    ensures Failures(log + [e], id) ==
            if e.job != id then Failures(log, id)
            else match e case Failed(_, _, _, _) => Failures(log, id) + 1 case Retried(_) => 0 case Enqueued(_) => 0
                         case _ => Failures(log, id)
    ensures Abandonments(log + [e], id) ==
            if e.job != id then Abandonments(log, id)
            else match e case Failed(_, _, _, abandoned) => Abandonments(log, id) + (if abandoned then 1 else 0)
                         case Retried(_) => 0 case Enqueued(_) => 0 case _ => Abandonments(log, id)
  {
    assert (log + [e])[..|log|] == log;
  }

  /** A job that has completed is in no later entry. */
  ghost predicate CompletedIsLast(log: seq<Entry>) {
    forall k, l :: 0 <= k < l < |log| && log[k].Completed? ==> log[l].job != log[k].job
  }

  /** A job that has been abandoned is next mentioned by a retry. */
  ghost predicate AbandonedUntilRetried(log: seq<Entry>) {
    forall k, l :: 0 <= k < l < |log| && log[k].Failed? && log[k].abandoned && log[l].job == log[k].job ==>
      exists m :: k < m <= l && log[m] == Entry.Retried(log[k].job)
  }

  /** Every accepted report was made by the worker holding the job. */
  ghost predicate ReportsByHolder(log: seq<Entry>) {
    forall k :: 0 <= k < |log| && IsReport(log[k]) ==> HeldBy(log[..k], log[k].job, log[k].worker)
  }

  // ---------------------------------------------------------------------
  // The invariant
  // ---------------------------------------------------------------------

  /** The row names the lease's worker and deadline, and was due when it was claimed. */
  predicate ShowsLease(row: Job, lease: Option<Lease>) {
    match lease
    case None => row.leaseOwner == "" && row.leaseExpires.None?
    case Some(l) => row.leaseOwner == l.worker != "" && row.leaseExpires == Some(l.until) && row.scheduledFor <= l.since
  }

  /** What a row says about its job is what the log says. */
  ghost predicate RowTellsLog(log: seq<Entry>, id: int, row: Job) {
    && Sound(row)
    && ShowsLease(row, LeaseOn(log, id))
    && Abandonments(log, id) == (if row.failedAt.Some? then 1 else 0)
    && Failures(log, id) <= row.attempts - (if row.leaseOwner != "" then 1 else 0)
    && Failures(log, id) <= row.maxAttempts - (if row.failedAt.Some? then 0 else 1)
  }

  /** A worker that still holds the job it runs has the row's own counts in hand. A
      worker whose report was lost may be named by rows it no longer runs. */
  ghost predicate WorkerInStep(rows: map<int, Job>, name: string, w: Worker) {
    && name != ""
    && (w.Running? ==>
          && w.id in rows
          && (rows[w.id].leaseOwner == name ==>
                rows[w.id].attempts == w.claimed.attempts && rows[w.id].maxAttempts == w.claimed.maxAttempts))
  }

  ghost predicate LogTellsRows(log: seq<Entry>, rows: map<int, Job>) {
    && (forall k :: 0 <= k < |log| ==> log[k].job in rows)
    && (forall k :: 0 <= k < |log| && log[k].Completed? ==> rows[log[k].job].completedAt.Some?)
    && (forall k :: 0 <= k < |log| && (log[k].Claimed? || log[k].Extended?) ==> log[k].lease > 0)
  }

  ghost predicate Inv(s: System) {
    && (forall id :: id in s.rows ==> RowTellsLog(s.log, id, s.rows[id]))
    && (forall id :: id in s.rows && s.rows[id].leaseOwner != "" ==> s.rows[id].leaseOwner in s.workers)
    && (forall w :: w in s.workers ==> WorkerInStep(s.rows, w, s.workers[w]))
    && LogTellsRows(s.log, s.rows)
    && CompletedIsLast(s.log) && ReportsByHolder(s.log) && AbandonedUntilRetried(s.log)
  }

  /** The row an entry is about, before and after it. */
  ghost predicate Explains(e: Entry, row: Job, row': Job) {
    && Sound(row')
    && row'.maxAttempts == row.maxAttempts
    && row.completedAt.None?
    && (e.Completed? <==> row'.completedAt.Some?)
    && match e
       case Claimed(_, w, at, lease) =>
         && !row.Finished() && !row'.Finished() && row'.attempts == row.attempts + 1 && lease > 0
         && row'.leaseOwner == w != "" && row'.leaseExpires == Some(at + lease) && row'.scheduledFor <= at
       case Completed(_, w, _) => row.leaseOwner == w != "" && row'.leaseOwner == "" && row'.attempts == row.attempts
                                  && row'.failedAt.None?
       case Failed(_, w, _, abandoned) =>
         && row.leaseOwner == w != "" && row'.leaseOwner == "" && row'.attempts == row.attempts
         && (abandoned <==> row.Exhausted()) && (abandoned <==> row'.failedAt.Some?)
       case Released(_, w, _) => row.leaseOwner == w != "" && row'.leaseOwner == "" && row'.attempts == row.attempts
                                 && row'.failedAt.None?
       case Extended(_, w, at, lease) =>
         && row.leaseOwner == w != "" && row'.leaseOwner == w && row'.attempts == row.attempts && lease > 0
         && row'.failedAt.None? && row'.leaseExpires == Some(at + lease) && row'.scheduledFor == row.scheduledFor
       case Retried(_) => row.failedAt.Some? && row'.failedAt.None? && row'.leaseOwner == "" && row'.attempts == 0
       case Enqueued(_) => false
  }

  lemma RowStillTells(log: seq<Entry>, e: Entry, row: Job, row': Job)
    requires RowTellsLog(log, e.job, row) && Explains(e, row, row')
    ensures RowTellsLog(log + [e], e.job, row')
  {
    LogSnoc(log, e, e.job);
    hide LeaseOn, Failures, Abandonments;
  }

  lemma OtherRowsStillTell(log: seq<Entry>, e: Entry, id: int, row: Job)
    requires RowTellsLog(log, id, row) && e.job != id
    ensures RowTellsLog(log + [e], id, row)
  {
    LogSnoc(log, e, id);
    hide LeaseOn, Failures, Abandonments;
  }

  lemma LogStaysOrdered(s: System, e: Entry)
    requires Inv(s)
    requires e.job in s.rows ==> s.rows[e.job].completedAt.None?
    requires e.job in s.rows && s.rows[e.job].failedAt.Some? ==> e.Retried?
    requires IsReport(e) ==> HeldBy(s.log, e.job, e.worker)
    ensures CompletedIsLast(s.log + [e]) && ReportsByHolder(s.log + [e]) && AbandonedUntilRetried(s.log + [e])
  {
    hide LeaseOn, Failures, Abandonments, RowTellsLog, WorkerInStep;
    var log := s.log + [e];
    forall k | 0 <= k < |log| && IsReport(log[k]) ensures HeldBy(log[..k], log[k].job, log[k].worker) {
      assert log[..k] == s.log[..k];
      if k == |s.log| { assert s.log[..k] == s.log; }
    }
    forall k, l | 0 <= k < l < |log| && log[k].Failed? && log[k].abandoned && log[l].job == log[k].job
      ensures exists m :: k < m <= l && log[m] == Entry.Retried(log[k].job)
    {
      var m := AbandonedStays(s, e, k, l);
    }
  }

  lemma AbandonedStays(s: System, e: Entry, k: nat, l: nat) returns (m: nat)
    requires Inv(s)
    requires e.job in s.rows && s.rows[e.job].failedAt.Some? ==> e.Retried?
    requires k < l < |s.log + [e]| && (s.log + [e])[k].Failed? && (s.log + [e])[k].abandoned
    requires (s.log + [e])[l].job == (s.log + [e])[k].job
    ensures k < m <= l && (s.log + [e])[m] == Entry.Retried((s.log + [e])[k].job)
  {
    assert AbandonedUntilRetried(s.log);
    hide Inv;
    if l < |s.log| {
      m :| k < m <= l && s.log[m] == Entry.Retried(s.log[k].job);
    } else {
      StillAbandoned(s, k);
      hide AbandonedUntilRetried;
      if r :| k < r < |s.log| && s.log[r] == Entry.Retried(s.log[k].job) {
        m := r;
      } else {
        m := |s.log|;
      }
    }
  }

  /** An abandonment no retry has followed shows in the row. */
  lemma StillAbandoned(s: System, k: nat)
    requires Inv(s) && k < |s.log| && s.log[k].Failed? && s.log[k].abandoned
    ensures var id := s.log[k].job;
            || (exists m :: k < m < |s.log| && s.log[m] == Entry.Retried(id))
            || (id in s.rows && s.rows[id].failedAt.Some?)
  {
    hide LeaseOn, Failures, WorkerInStep;
    var id := s.log[k].job;
    if l :| k < l < |s.log| && s.log[l].job == id {
      var m :| k < m <= l && s.log[m] == Entry.Retried(id);
    } else {
      assert RowTellsLog(s.log, id, s.rows[id]);
      AbandonmentCounts(s.log, k);
    }
  }

  lemma {:induction false} AbandonmentCounts(log: seq<Entry>, k: nat)
    requires k < |log| && log[k].Failed? && log[k].abandoned
    requires forall m :: k < m < |log| ==> log[m].job != log[k].job
    ensures Abandonments(log, log[k].job) >= 1
    decreases |log|
  {
    if k < |log| - 1 { AbandonmentCounts(log[..|log| - 1], k); }
  }

  lemma LogStillTells(log: seq<Entry>, rows: map<int, Job>, e: Entry, row: Job, row': Job)
    requires LogTellsRows(log, rows) && e.job in rows && rows[e.job] == row && Explains(e, row, row')
    ensures LogTellsRows(log + [e], rows[e.job := row'])
  {
    hide LeaseOn, Failures, Abandonments;
  }

  /** Any step that adds an entry the rows explain keeps the invariant. */
  lemma EntryKeeps(s: System, s': System, e: Entry, row: Job, row': Job)
    requires Inv(s) && e.job in s.rows && s.rows[e.job] == row && Explains(e, row, row')
    requires row.failedAt.Some? ==> e.Retried?
    requires s'.rows == s.rows[e.job := row'] && s'.log == s.log + [e]
    requires row'.leaseOwner != "" ==> row'.leaseOwner in s'.workers
    requires s'.workers.Keys == s.workers.Keys
    requires forall w :: w in s'.workers ==> WorkerInStep(s'.rows, w, s'.workers[w])
    ensures Inv(s')
  {
    assert RowTellsLog(s.log, e.job, row);
    hide LeaseOn, Failures, Abandonments, RowTellsLog, WorkerInStep, CompletedIsLast, ReportsByHolder, AbandonedUntilRetried;
    LogStaysOrdered(s, e);
    RowStillTells(s.log, e, row, row');
    LogStillTells(s.log, s.rows, e, row, row');
    hide LogTellsRows, Explains;
    forall id | id in s'.rows ensures RowTellsLog(s'.log, id, s'.rows[id]) {
      if id != e.job { OtherRowsStillTell(s.log, e, id, s.rows[id]); }
    }
  }

  // ---------------------------------------------------------------------
  // Every step keeps it
  // ---------------------------------------------------------------------

  lemma StartKeeps(s: System, s': System, w: string)
    requires Inv(s) && Next(s, s', Start(w))
    ensures Inv(s')
  {
    hide LeaseOn, Failures, Abandonments, RowTellsLog;
  }

  lemma DieKeeps(s: System, s': System, w: string)
    requires Inv(s) && Next(s, s', Die(w))
    ensures Inv(s')
  {
    hide LeaseOn, Failures, Abandonments, RowTellsLog;
  }

  lemma LoseKeeps(s: System, s': System, w: string)
    requires Inv(s) && Next(s, s', Lose(w))
    ensures Inv(s')
  {
    hide LeaseOn, Failures, Abandonments, RowTellsLog;
  }

  lemma {:induction false} Unmentioned(log: seq<Entry>, id: int)
    requires forall k :: 0 <= k < |log| ==> log[k].job != id
    ensures LeaseOn(log, id) == None && Failures(log, id) == 0 && Abandonments(log, id) == 0
    decreases |log|
  {
    if log != [] { Unmentioned(log[..|log| - 1], id); }
  }

  lemma NewRowTells(log: seq<Entry>, id: int, row: Job)
    requires forall k :: 0 <= k < |log| ==> log[k].job != id
    requires Sound(row) && row.leaseOwner == "" && !row.Finished() && row.attempts == 0
    ensures RowTellsLog(log + [Enqueued(id)], id, row)
  {
    Unmentioned(log, id);
    LogSnoc(log, Enqueued(id), id);
    hide LeaseOn, Failures, Abandonments;
  }

  lemma AddedKeeps(s: System, s': System, id: int, row: Job)
    requires Inv(s) && id !in s.rows
    requires s' == System(s.rows[id := row], s.workers, s.log + [Enqueued(id)])
    requires Sound(row) && row.leaseOwner == "" && !row.Finished() && row.attempts == 0
    ensures Inv(s')
  {
    hide LeaseOn, Failures, Abandonments, Sound, RowTellsLog, CompletedIsLast, ReportsByHolder, AbandonedUntilRetried, WorkerInStep;
    var e := Enqueued(id);
    assert forall k :: 0 <= k < |s.log| ==> s.log[k].job != id;
    NewRowTells(s.log, id, row);
    LogStaysOrdered(s, e);
    forall other | other in s'.rows ensures RowTellsLog(s'.log, other, s'.rows[other]) {
      if other != id { OtherRowsStillTell(s.log, e, other, s.rows[other]); }
    }
    forall w | w in s'.workers ensures WorkerInStep(s'.rows, w, s'.workers[w]) {
      StillInStep(s.rows, id, row, w, s.workers[w]);
    }
  }

  lemma EnqueueKeeps(s: System, s': System, id: int, kind: string, payload: string, priority: int, scheduledFor: int,
                     maxAttempts: int)
    requires Inv(s) && Next(s, s', Enqueue(id, kind, payload, priority, scheduledFor, maxAttempts))
    ensures Inv(s')
  {
    hide Inv;
    AddedKeeps(s, s', id, NewRow(kind, payload, priority, scheduledFor, maxAttempts));
  }

  lemma StillInStep(rows: map<int, Job>, id: int, row: Job, w: string, worker: Worker)
    requires id !in rows && WorkerInStep(rows, w, worker)
    ensures WorkerInStep(rows[id := row], w, worker)
  {
  }

  lemma ClaimKeeps(s: System, s': System, w: string, id: int, now: int, lease: int)
    requires Inv(s) && Next(s, s', Claim(w, id, now, lease))
    ensures Inv(s')
  {
    hide LeaseOn, Failures, Abandonments;
    var row, row' := s.rows[id], s'.rows[id];
    assert RowTellsLog(s.log, id, row) && WorkerInStep(s.rows, w, s.workers[w]);
    assert Explains(Entry.Claimed(id, w, now, lease), row, row');
    hide RowTellsLog;
    forall v | v in s'.workers ensures WorkerInStep(s'.rows, v, s'.workers[v]) {
      assert WorkerInStep(s.rows, v, s.workers[v]);
    }
    EntryKeeps(s, s', Entry.Claimed(id, w, now, lease), row, row');
  }

  lemma AcceptedReportKeeps(s: System, s': System, w: string, report: Report, now: int, lease: int)
    requires Inv(s) && Next(s, s', Step.Report(w, report, now, lease))
    requires s.workers[w].id in s.rows && Accepts(s.rows[s.workers[w].id], w)
    ensures Inv(s')
  {
    hide LeaseOn, Failures, Abandonments;
    var id, claimed := s.workers[w].id, s.workers[w].claimed;
    var row, row', e := s.rows[id], s'.rows[id], Recorded(id, w, claimed, report, now, lease);
    assert RowTellsLog(s.log, id, row) && WorkerInStep(s.rows, w, s.workers[w]);
    assert Explains(e, row, row');
    hide RowTellsLog;
    forall v | v in s'.workers ensures WorkerInStep(s'.rows, v, s'.workers[v]) {
      assert WorkerInStep(s.rows, v, s.workers[v]);
    }
    EntryKeeps(s, s', e, row, row');
  }

  lemma RefusedReportKeeps(s: System, s': System, w: string, report: Report, now: int, lease: int)
    requires Inv(s) && Next(s, s', Step.Report(w, report, now, lease))
    requires !(s.workers[w].id in s.rows && Accepts(s.rows[s.workers[w].id], w))
    ensures Inv(s')
  {
    hide LeaseOn, Failures, Abandonments, RowTellsLog;
    assert WorkerInStep(s.rows, w, s.workers[w]);
  }

  lemma RetryKeeps(s: System, s': System, id: int, now: int)
    requires Inv(s) && Next(s, s', Step.Retry(id, now))
    ensures Inv(s')
  {
    hide LeaseOn, Failures, Abandonments;
    var row, row' := s.rows[id], s'.rows[id];
    assert RowTellsLog(s.log, id, row);
    assert Explains(Entry.Retried(id), row, row');
    hide RowTellsLog;
    forall v | v in s'.workers ensures WorkerInStep(s'.rows, v, s'.workers[v]) {
      assert WorkerInStep(s.rows, v, s.workers[v]);
    }
    EntryKeeps(s, s', Entry.Retried(id), row, row');
  }

  lemma StepKeeps(s: System, s': System)
    requires Inv(s) && Steps(s, s')
    ensures Inv(s')
  {
    var step :| Next(s, s', step);
    hide Inv, Next;
    match step
    case Start(w) => StartKeeps(s, s', w);
    case Die(w) => DieKeeps(s, s', w);
    case Enqueue(id, kind, payload, p, at, m) => EnqueueKeeps(s, s', id, kind, payload, p, at, m);
    case Claim(w, id, now, lease) => ClaimKeeps(s, s', w, id, now, lease);
    case Report(w, report, now, lease) => ReportKeeps(s, s', w, report, now, lease);
    case Lose(v) => LoseKeeps(s, s', v);
    case Retry(id, now) => RetryKeeps(s, s', id, now);
  }

  lemma ReportKeeps(s: System, s': System, w: string, report: Report, now: int, lease: int)
    requires Inv(s) && Next(s, s', Step.Report(w, report, now, lease))
    ensures Inv(s')
  {
    assert s.workers[w].Running?;
    hide Inv;
    if s.workers[w].id in s.rows && Accepts(s.rows[s.workers[w].id], w) {
      AcceptedReportKeeps(s, s', w, report, now, lease);
    } else {
      RefusedReportKeeps(s, s', w, report, now, lease);
    }
  }

  lemma {:induction false} RunKeeps(run: seq<System>, k: nat)
    requires IsRun(run) && k < |run|
    ensures Inv(run[k])
    decreases k
  {
    if k > 0 {
      hide Inv;
      RunKeeps(run, k - 1);
      var j := k - 1;
      assert Stepped(run, j);
      StepKeeps(run[j], run[k]);
    }
  }

  lemma RowsTell(run: seq<System>, k: nat, id: int)
    requires IsRun(run) && k < |run| && id in run[k].rows
    ensures RowTellsLog(run[k].log, id, run[k].rows[id])
  {
    RunKeeps(run, k);
    hide RowTellsLog, WorkerInStep;
  }

  /** In every interleaving, with crashes, lost reports, expiry, release and reclaim: each
      accepted report comes from the worker that made the job's latest claim, a job
      completes at most once and is touched by nothing after, and an abandoned job is
      next mentioned by a retry. */
  lemma LeaseProtocol(run: seq<System>, k: nat)
    requires IsRun(run) && k < |run|
    ensures ReportsByHolder(run[k].log) && CompletedIsLast(run[k].log) && AbandonedUntilRetried(run[k].log)
    ensures forall id :: id in run[k].rows ==> ShowsLease(run[k].rows[id], LeaseOn(run[k].log, id))
  {
    RunKeeps(run, k);
    hide WorkerInStep, CompletedIsLast, AbandonedUntilRetried, LeaseOn, Failures, Abandonments, ShowsLease;
    forall id | id in run[k].rows ensures ShowsLease(run[k].rows[id], LeaseOn(run[k].log, id)) {
      assert RowTellsLog(run[k].log, id, run[k].rows[id]);
    }
  }

  // ---------------------------------------------------------------------
  // Leases over time
  // ---------------------------------------------------------------------

  /** A worker's statements are matched exactly while the latest claim is its own, and
      it holds a live lease exactly while, besides, that claim's deadline is to come. */
  lemma AcceptedLateExactly(run: seq<System>, k: nat, id: int, worker: string, now: int)
    requires IsRun(run) && k < |run| && id in run[k].rows && worker != ""
    ensures Accepts(run[k].rows[id], worker) <==> HeldBy(run[k].log, id, worker)
    ensures run[k].rows[id].LeaseHeldBy(worker, now) <==>
            HeldBy(run[k].log, id, worker) && now < LeaseOn(run[k].log, id).value.until
  {
    RowsTell(run, k, id);
    hide LeaseOn, Failures, Abandonments;
  }

  /** While a claim stands, its job is ready again exactly after its deadline, once due. */
  lemma ReadyAfterDeadline(run: seq<System>, k: nat, id: int, now: int)
    requires IsRun(run) && k < |run| && id in run[k].rows && LeaseOn(run[k].log, id).Some?
    ensures var l := LeaseOn(run[k].log, id).value;
            && (run[k].rows[id].Ready(now) <==> now > l.until && now >= run[k].rows[id].scheduledFor)
            && (l.since <= l.until ==> (run[k].rows[id].Ready(now) <==> now > l.until))
  {
    RowsTell(run, k, id);
    hide LeaseOn, Failures, Abandonments;
  }

  /** The last word about a job: an entry that nothing about it follows. */
  ghost predicate IsLastAbout(log: seq<Entry>, m: nat) {
    m < |log| && forall l :: m < l < |log| ==> log[l].job != log[m].job
  }

  lemma {:induction false} LastDecides(log: seq<Entry>, m: nat)
    requires IsLastAbout(log, m)
    ensures LeaseOn(log, log[m].job) == After(log[m], LeaseOn(log[..m], log[m].job))
    decreases |log|
  {
    var n := |log| - 1;
    assert log == log[..n] + [log[n]];
    LogSnoc(log[..n], log[n], log[m].job);
    if m < n {
      LastDecides(log[..n], m);
      assert log[..n][..m] == log[..m];
    }
  }

  /** A claim or an extension that nobody follows with a report or another claim leaves
      the job to be claimed again exactly one lease later. */
  lemma ReadyAfterSilence(run: seq<System>, k: nat, m: nat, now: int)
    requires IsRun(run) && k < |run| && IsLastAbout(run[k].log, m)
    requires run[k].log[m].Claimed? || run[k].log[m].Extended?
    ensures var e := run[k].log[m];
            && e.job in run[k].rows && LeaseOn(run[k].log, e.job).Some?
            && LeaseOn(run[k].log, e.job).value.until == e.at + e.lease
            && (e.Claimed? ==> (run[k].rows[e.job].Ready(now) <==> now > e.at + e.lease))
            && (e.Extended? ==> (run[k].rows[e.job].Ready(now) <==>
                                 now > e.at + e.lease && now >= run[k].rows[e.job].scheduledFor))
  {
    var log := run[k].log;
    var e := log[m];
    RunKeeps(run, k);
    LastDecides(log, m);
    ReportedWasHeld(log, m);
    hide LeaseOn, WorkerInStep, RowTellsLog, HeldBy;
    ReadyAfterDeadline(run, k, e.job, now);
  }

  /** An extension is of a claim that stands. */
  lemma ReportedWasHeld(log: seq<Entry>, m: nat)
    requires m < |log| && ReportsByHolder(log)
    ensures IsReport(log[m]) ==> LeaseOn(log[..m], log[m].job).Some?
  {
  }

  /** A job claimed at 0 for 60 is completed at 60, when its lease has run out. */
  lemma LateReportHappens() returns (run: seq<System>)
    ensures IsRun(run) && |run| == 5
    ensures run[4].log == [Enqueued(1), Entry.Claimed(1, "worker-1", 0, 60), Entry.Completed(1, "worker-1", 60)]
    ensures LeaseOn(run[3].log, 1) == Some(Lease("worker-1", 0, 60))
    ensures 1 in run[3].rows && 1 in run[4].rows
    ensures !run[3].rows[1].LeaseHeldBy("worker-1", 60) && run[4].rows[1].completedAt == Some(60)
  {
    var w := "worker-1";
    var job := NewRow("publish", "{}", 3, 0, 5);
    var held := job.Claimed(w, 60);
    var s0 := System(map[], map[], []);
    var s1 := System(map[], map[w := Idle], []);
    var s2 := System(map[1 := job], map[w := Idle], [Enqueued(1)]);
    var s3 := System(map[1 := held], map[w := Running(1, held)], [Enqueued(1), Entry.Claimed(1, w, 0, 60)]);
    var s4 := System(map[1 := held.Completed(60)], map[w := Idle],
                     [Enqueued(1), Entry.Claimed(1, w, 0, 60), Entry.Completed(1, w, 60)]);
    run := [s0, s1, s2, s3, s4];
    SmallRun(s0, s1, s2, s3, s4, w, job);
    assert Stepped(run, 0) && Stepped(run, 1) && Stepped(run, 2) && Stepped(run, 3);
    OneClaim(w);
  }

  lemma SmallRun(s0: System, s1: System, s2: System, s3: System, s4: System, w: string, job: Job)
    requires w != "" && job == NewRow("publish", "{}", 3, 0, 5)
    requires s0 == System(map[], map[], [])
    requires s1 == System(map[], map[w := Idle], [])
    requires s2 == System(map[1 := job], map[w := Idle], [Enqueued(1)])
    requires var held := job.Claimed(w, 60);
             && s3 == System(map[1 := held], map[w := Running(1, held)], [Enqueued(1), Entry.Claimed(1, w, 0, 60)])
             && s4 == System(map[1 := held.Completed(60)], map[w := Idle],
                             [Enqueued(1), Entry.Claimed(1, w, 0, 60), Entry.Completed(1, w, 60)])
    ensures Steps(s0, s1) && Steps(s1, s2) && Steps(s2, s3) && Steps(s3, s4)
  {
    assert Next(s0, s1, Start(w));
    assert Next(s1, s2, Enqueue(1, "publish", "{}", 3, 0, 5));
    assert Picks(s2.rows, 0, 1);
    assert Next(s2, s3, Claim(w, 1, 0, 60));
    assert Next(s3, s4, Step.Report(w, Complete, 60, 60));
  }

  lemma OneClaim(w: string)
    ensures LeaseOn([Enqueued(1), Entry.Claimed(1, w, 0, 60)], 1) == Some(Lease(w, 0, 60))
  {
    var e := Entry.Claimed(1, w, 0, 60);
    assert [Enqueued(1), e] == [Enqueued(1)] + [e];
    LogSnoc([Enqueued(1)], e, 1);
  }

  /** Between retries a job records at most max_attempts failures, at most one of them
      an abandonment, and it is abandoned exactly while its row says it has failed. */
  lemma FailuresAreBounded(run: seq<System>, k: nat, id: int)
    requires IsRun(run) && k < |run| && id in run[k].rows
    ensures Failures(run[k].log, id) <= run[k].rows[id].maxAttempts
    ensures Abandonments(run[k].log, id) == if run[k].rows[id].failedAt.Some? then 1 else 0
    ensures run[k].rows[id].failedAt.None? ==> Failures(run[k].log, id) < run[k].rows[id].maxAttempts
  {
    RunKeeps(run, k);
    hide LeaseOn, Failures, Abandonments, WorkerInStep;
    assert RowTellsLog(run[k].log, id, run[k].rows[id]);
  }

  /** What the event says became of the job is what the row says. */
  lemma AbandonedEventMatchesRow(run: seq<System>, k: nat, w: string, now: int, lease: int)
    requires IsRun(run) && k + 1 < |run| && Next(run[k], run[k + 1], Step.Report(w, Fail, now, lease))
    requires run[k].workers[w].id in run[k].rows && Accepts(run[k].rows[run[k].workers[w].id], w)
    ensures var id := run[k].workers[w].id;
            var log := run[k + 1].log;
            && log == run[k].log + [Entry.Failed(id, w, now, run[k + 1].rows[id].failedAt.Some?)]
            && (run[k + 1].rows[id].failedAt.None? ==>
                  run[k + 1].rows[id].scheduledFor == now + RetryDelayOf(run[k].rows[id].attempts))
  {
    RunKeeps(run, k);
    hide LeaseOn, Failures, Abandonments;
    var id := run[k].workers[w].id;
    assert WorkerInStep(run[k].rows, w, run[k].workers[w]);
    assert RowTellsLog(run[k].log, id, run[k].rows[id]);
  }
}
