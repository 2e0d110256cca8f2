/** One row of the job queue, the statements that change it, and when it may be
    claimed. */
module Jobs {
  import opened Wrappers

  const SECOND: int := 1_000_000_000
  const RETRY_BASE_DELAY: int := 10 * SECOND
  const RETRY_MAX_DELAY: int := 300 * SECOND

  /** Instants are integers. No owner is the empty string, no instant is None. */
  datatype Job = Job(
    kind: string, payload: string, priority: int, scheduledFor: int,
    leaseOwner: string, leaseExpires: Option<int>,
    attempts: int, maxAttempts: int,
    completedAt: Option<int>, failedAt: Option<int>)
  {
    predicate Finished() {
      completedAt.Some? || failedAt.Some?
    }

    predicate Leased(now: int) {
      leaseOwner != "" && leaseExpires.Some? && now < leaseExpires.value
    }

    predicate LeaseHeldBy(owner: string, now: int) {
      owner != "" && leaseOwner == owner && leaseExpires.Some? && now < leaseExpires.value
    }

    predicate Claimable(now: int) {
      !Finished() && scheduledFor <= now && !Leased(now)
    }

    predicate Exhausted() {
      attempts >= maxAttempts
    }

    /** The predicate of the claim statement. */
    predicate Ready(now: int) {
      && completedAt.None? && failedAt.None?
      && scheduledFor <= now
      && (leaseExpires.None? || leaseExpires.value < now)
    }

    function Claimed(owner: string, deadline: int): Job {
      this.(leaseOwner := owner, leaseExpires := Some(deadline), attempts := attempts + 1)
    }

    function Unleased(): Job {
      this.(leaseOwner := "", leaseExpires := None)
    }

    function Completed(now: int): Job {
      Unleased().(completedAt := Some(now))
    }

    function FailedOnce(now: int, retryAt: int): Job {
      if attempts >= maxAttempts then Unleased().(failedAt := Some(now))
      else Unleased().(scheduledFor := retryAt, failedAt := None)
    }

    function Released(now: int): Job {
      Unleased().(scheduledFor := now)
    }

    function Extended(until: int): Job {
      this.(leaseExpires := Some(until))
    }

    function Retried(now: int): Job {
      Unleased().(failedAt := None, attempts := 0, scheduledFor := now)
    }
  }

  /** What holds of every row the queue ever stores. */
  ghost predicate Sound(j: Job) {
    && (j.leaseOwner == "" <==> j.leaseExpires.None?)
    && (j.Finished() ==> j.leaseOwner == "")
    && !(j.completedAt.Some? && j.failedAt.Some?)
    && j.attempts >= 0 && j.maxAttempts >= 1
  }

  /** The Go predicate and the claim statement differ at one instant only: the one
      at which the lease runs out. */
  lemma ClaimableVersusReady(j: Job, now: int)
    requires Sound(j)
    ensures j.Ready(now) ==> j.Claimable(now)
    ensures (j.Claimable(now) <==> j.Ready(now)) <==>
            !(!j.Finished() && j.scheduledFor <= now && j.leaseExpires == Some(now))
  {
  }

  /** A failed attempt that was not the last is ready again exactly from its retry
      time; the last one never is. */
  lemma ReadyAfterFailure(j: Job, failedAt: int, retryAt: int, now: int)
    requires Sound(j) && j.leaseOwner != ""
    ensures var after := j.FailedOnce(failedAt, retryAt);
            Sound(after) && (after.Ready(now) <==> !j.Exhausted() && now >= retryAt)
  {
  }

  /** The report statements match the owner alone. A report is accepted when the
      lease is live, and also after it ran out for as long as nobody else claims. */
  predicate Accepts(j: Job, owner: string) {
    owner != "" && j.leaseOwner == owner
  }

  // ---------------------------------------------------------------------
  // Backoff
  // ---------------------------------------------------------------------

  function Pow2(n: nat): (p: int)
    ensures p >= 1
  {
    if n == 0 then 1 else 2 * Pow2(n - 1)
  }

  lemma {:induction false} Pow2Grows(m: nat, n: nat)
    requires m <= n
    ensures Pow2(m) <= Pow2(n)
    decreases n - m
  {
    if m < n {
      Pow2Grows(m, n - 1);
    }
  }

  /** The delay before an attempt is tried again: doubling from the base, and capped. */
  function RetryDelayOf(attempt: int): int {
    Min(RETRY_BASE_DELAY * Pow2(if attempt < 1 then 0 else attempt - 1), RETRY_MAX_DELAY)
  }

  method RetryDelay(attempt: int) returns (d: int)
    ensures d == RetryDelayOf(attempt)
  {
    var n := attempt;
    if n < 1 {
      n := 1;
    }
    d := RETRY_BASE_DELAY;
    for k := 0 to n - 1
      invariant d == RETRY_BASE_DELAY * Pow2(k) && d < RETRY_MAX_DELAY
    {
      d := d * 2;
      if d >= RETRY_MAX_DELAY {
        Pow2Grows(k + 1, n - 1);
        return RETRY_MAX_DELAY;
      }
    }
  }

  /** The first retry waits the base, and every later one twice the one before or the cap. */
  lemma RetryDelayDoubles(n: int)
    ensures n <= 1 ==> RetryDelayOf(n) == 10_000_000_000
    ensures n >= 1 ==> RetryDelayOf(n + 1) == Min(2 * RetryDelayOf(n), 300_000_000_000)
  {
    if n >= 1 { assert Pow2(n) == 2 * Pow2(n - 1); }
  }

  /** Later attempts never wait less, and none waits past the cap or under the base. */
  lemma RetryDelayMonotone(m: int, n: int)
    requires m <= n
    ensures RETRY_BASE_DELAY <= RetryDelayOf(m) <= RetryDelayOf(n) <= RETRY_MAX_DELAY
  {
    Pow2Grows(if m < 1 then 0 else m - 1, if n < 1 then 0 else n - 1);
  }

  // ---------------------------------------------------------------------
  // The table
  // ---------------------------------------------------------------------

  datatype Error = Invalid | Conflict | NotFound | Fault

  /** The claim statement's order: priority, then schedule, then id. */
  predicate Sooner(a: Job, aid: int, b: Job, bid: int) {
    || a.priority < b.priority
    || (a.priority == b.priority && a.scheduledFor < b.scheduledFor)
    || (a.priority == b.priority && a.scheduledFor == b.scheduledFor && aid <= bid)
  }

  /** id is the row the claim statement picks. */
  ghost predicate Picks(rows: map<int, Job>, now: int, id: int) {
    && id in rows && rows[id].Ready(now)
    && forall other :: other in rows && rows[other].Ready(now) ==> Sooner(rows[id], id, rows[other], other)
  }

  /** What a caller supplies. A zero priority or number of attempts, and no schedule, are defaulted. */
  datatype Request = Request(kind: string, payload: string, priority: int, scheduledFor: Option<int>, maxAttempts: int)

  /** What is left abstract of text: trimming, and which strings are JSON objects. */
  datatype Text = Text(trim: string -> string, isObject: string -> bool)
  {
    predicate Storable(payload: string) {
      trim(payload) == "" || isObject(payload)
    }

    function Payload(payload: string): string {
      if trim(payload) == "" then "{}" else payload
    }
  }

  function NewRow(kind: string, payload: string, priority: int, scheduledFor: int, maxAttempts: int): Job {
    Job(kind, payload, priority, scheduledFor, "", None, 0, maxAttempts, None, None)
  }

  datatype FailureEvent = JobFailed(retryAt: int) | JobAbandoned

  class Queue {
    var rows: map<int, Job>
    const lease: int

    constructor (lease: int)
      requires lease > 0
      ensures rows == map[] && this.lease == lease
    {
      rows := map[];
      this.lease := lease;
    }

    /** Inserts a job under an id the table has not used, what the request leaves out
        defaulted. It is refused for a blank kind, a priority or a number of attempts out
        of range, or a payload that is no JSON object; its uid may not be minted. */
    method Enqueue(id: int, text: Text, req: Request, now: int, minted: bool) returns (r: Result<Job, Error>)
      requires id !in rows
      modifies this`rows
      ensures r == Err(Invalid) <==>
                || text.trim(text.trim(req.kind)) == ""
                || !(0 <= req.priority <= 5) || req.maxAttempts < 0
                || !text.Storable(text.Payload(req.payload))
      ensures r == Err(Fault) ==> !minted
      ensures r.Ok? ==> minted && Sound(r.value) && rows == old(rows)[id := r.value]
      ensures r.Ok? ==> r.value == Job(text.trim(req.kind),
                                       if text.trim(req.payload) == "" then "{}" else req.payload,
                                       if req.priority == 0 then 3 else req.priority,
                                       if req.scheduledFor.Some? then req.scheduledFor.value else now,
                                       "", None, 0, if req.maxAttempts == 0 then 5 else req.maxAttempts, None, None)
      ensures r.Err? ==> rows == old(rows) && r.error in {Invalid, Fault}
    {
      var kind, payload := text.trim(req.kind), text.Payload(req.payload);
      var p := if req.priority == 0 then 3 else req.priority;
      var m := if req.maxAttempts == 0 then 5 else req.maxAttempts;
      var at := if req.scheduledFor.Some? then req.scheduledFor.value else now;
      if text.trim(kind) == "" || p < 1 || p > 5 || m < 1 || !text.Storable(payload) {
        return Err(Invalid);
      }
      if !minted {
        return Err(Fault);
      }
      var job := NewRow(kind, payload, p, at, m);
      rows := rows[id := job];
      return Ok(job);
    }

    /** Takes the most urgent ready job, if there is one. */
    method Claim(owner: string, now: int) returns (taken: Option<(int, Job)>)
      requires owner != "" && lease > 0
      modifies this`rows
      ensures taken.None? <==> forall id :: id in old(rows) ==> !old(rows)[id].Ready(now)
      ensures taken.None? ==> rows == old(rows)
      ensures taken.Some? ==>
                var (id, job) := taken.value;
                && Picks(old(rows), now, id)
                // The most urgent of the ready rows: lowest priority number, then earliest due, then oldest.
                && (forall k :: k in old(rows) && old(rows)[k].Ready(now) ==>
                      var row, other := old(rows)[id], old(rows)[k];
                      && row.priority <= other.priority
                      && (row.priority == other.priority ==> row.scheduledFor <= other.scheduledFor)
                      && (row.priority == other.priority && row.scheduledFor == other.scheduledFor ==> id <= k))
                && job == old(rows)[id].(leaseOwner := owner, leaseExpires := Some(now + lease),
                                         attempts := old(rows)[id].attempts + 1)
                && rows == old(rows)[id := job]
    {
      var best: Option<int> := None;
      var left := rows.Keys;
      while left != {}
        invariant left <= rows.Keys && rows == old(rows)
        invariant best.None? ==> forall id :: id in rows.Keys - left ==> !rows[id].Ready(now)
        invariant best.Some? ==>
                    && best.value in rows && rows[best.value].Ready(now)
                    && forall id :: id in rows.Keys - left && rows[id].Ready(now) ==>
                         Sooner(rows[best.value], best.value, rows[id], id)
        decreases left
      {
        var id := AnyOf(left);
        left := left - {id};
        if rows[id].Ready(now) {
          if best.None? || !Sooner(rows[best.value], best.value, rows[id], id) {
            best := Some(id);
          }
        }
      }
      if best.None? {
        return None;
      }
      var job := rows[best.value].Claimed(owner, now + lease);
      rows := rows[best.value := job];
      return Some((best.value, job));
    }

    /** The shape Complete, Fail and Release share: one row, matched on its lease. */
    predicate Mine(id: int, owner: string)
      reads this
    {
      id in rows && Accepts(rows[id], owner)
    }

    method Complete(id: int, owner: string, now: int) returns (r: Result<Job, Error>)
      modifies this`rows
      ensures r.Ok? <==> old(Mine(id, owner))
      ensures r.Ok? ==> r.value == old(rows)[id].(leaseOwner := "", leaseExpires := None, completedAt := Some(now))
      ensures r.Ok? ==> rows == old(rows)[id := r.value]
      ensures r.Err? ==> rows == old(rows)
    {
      if owner == "" {
        return Err(Invalid);
      }
      if id !in rows || rows[id].leaseOwner != owner {
        return Err(Conflict);
      }
      rows := rows[id := rows[id].Completed(now)];
      return Ok(rows[id]);
    }

    /** Records a failed attempt. The event is decided from the job as it was claimed,
        the row from the row. */
    method Fail(id: int, claimed: Job, owner: string, now: int) returns (r: Result<Job, Error>, event: FailureEvent)
      modifies this`rows
      ensures event == if claimed.attempts >= claimed.maxAttempts then JobAbandoned
                       else JobFailed(now + RetryDelayOf(claimed.attempts))
      ensures r.Ok? <==> old(Mine(id, owner))
      ensures r.Ok? ==>
                var row := old(rows)[id].(leaseOwner := "", leaseExpires := None);
                r.value == if row.attempts >= row.maxAttempts then row.(failedAt := Some(now))
                           else row.(scheduledFor := now + RetryDelayOf(claimed.attempts), failedAt := None)
      ensures r.Ok? ==> rows == old(rows)[id := r.value]
      ensures r.Err? ==> rows == old(rows)
    {
      var delay := RetryDelay(claimed.attempts);
      event := if claimed.Exhausted() then JobAbandoned else JobFailed(now + delay);
      if owner == "" {
        return Err(Invalid), event;
      }
      if id !in rows || rows[id].leaseOwner != owner {
        return Err(Conflict), event;
      }
      rows := rows[id := rows[id].FailedOnce(now, now + delay)];
      return Ok(rows[id]), event;
    }

    method Release(id: int, owner: string, now: int) returns (r: Result<Job, Error>)
      modifies this`rows
      ensures r.Ok? <==> old(Mine(id, owner))
      ensures r.Ok? ==> r.value == old(rows)[id].(leaseOwner := "", leaseExpires := None, scheduledFor := now)
      ensures r.Ok? ==> rows == old(rows)[id := r.value] && (!r.value.Finished() ==> r.value.Ready(now))
      ensures r.Err? ==> rows == old(rows)
    {
      if owner == "" {
        return Err(Invalid);
      }
      if id !in rows || rows[id].leaseOwner != owner {
        return Err(Conflict);
      }
      rows := rows[id := rows[id].Released(now)];
      return Ok(rows[id]);
    }

    method ExtendLease(id: int, owner: string, now: int) returns (r: Result<(), Error>)
      modifies this`rows
      ensures r.Ok? <==> old(Mine(id, owner))
      ensures r.Ok? ==> rows == old(rows)[id := old(rows)[id].(leaseExpires := Some(now + lease))]
      ensures r.Err? ==> rows == old(rows)
    {
      if owner == "" {
        return Err(Invalid);
      }
      if id !in rows || rows[id].leaseOwner != owner {
        return Err(Conflict);
      }
      rows := rows[id := rows[id].Extended(now + lease)];
      return Ok(());
    }

    /** Puts an abandoned job back on the queue. */
    method Retry(id: int, now: int) returns (r: Result<Job, Error>)
      modifies this`rows
      ensures r.Ok? <==> id in old(rows) && old(rows)[id].failedAt.Some?
      ensures r.Ok? ==> r.value == old(rows)[id].(leaseOwner := "", leaseExpires := None, failedAt := None,
                                                  attempts := 0, scheduledFor := now)
      ensures r.Ok? ==> rows == old(rows)[id := r.value] && (r.value.completedAt.None? ==> r.value.Ready(now))
      ensures r.Err? ==> rows == old(rows)
    {
      if id !in rows {
        return Err(NotFound);
      }
      if rows[id].failedAt.None? {
        return Err(Conflict);
      }
      rows := rows[id := rows[id].Retried(now)];
      return Ok(rows[id]);
    }
  }
}
