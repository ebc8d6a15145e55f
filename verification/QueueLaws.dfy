/** What the delivery queue keeps over every run of enqueues and ticks. */
module QueueLaws {
  import opened Queue

  datatype Op =
    | Put(inbox: string, activity: string, payload: Payload, now: int)
    | TickOp(now: int, paused: nat -> bool, ids: seq<nat>, respond: nat -> Outcome)

  function Inserted(rows: Rows, inbox: string, activity: string, payload: Payload, now: int): Rows {
    rows + [NewJob(inbox, activity, payload, now)]
  }

  ghost predicate IsStep(op: Op, rows: Rows, rows': Rows) {
    match op
    case Put(inbox, activity, payload, now) =>
      rows' == if Queued(rows, inbox, activity) then rows else Inserted(rows, inbox, activity, payload, now)
    case TickOp(now, paused, ids, respond) => IsTick(rows, rows', now, paused, ids, respond)
  }

  ghost predicate IsRun(ops: seq<Op>, states: seq<Rows>) {
    && |states| == |ops| + 1
    && forall k :: 0 <= k < |ops| ==> IsStep(ops[k], states[k], states[k + 1])
  }

  ghost predicate JobOk(job: Job) {
    && job.maxAttempts == MAX_ATTEMPTS && job.attempts <= MAX_ATTEMPTS
    && (job.status == Pending ==> job.attempts < MAX_ATTEMPTS)
  }

  /** Attempts are bounded, and there is at most one row per inbox and activity. */
  ghost predicate Valid(rows: Rows) {
    && (forall i :: 0 <= i < |rows| ==> JobOk(rows[i]))
    && (forall i, j :: 0 <= i < j < |rows| ==>
        !(rows[i].inbox == rows[j].inbox && rows[i].activity == rows[j].activity))
  }

  predicate Success(o: Outcome) {
    o.Http? && 200 <= o.code <= 299
  }

  /** The server could not be reached, or answered with a status that is neither 2xx nor one of six that tell the sender
      not to try again. */
  predicate Temporary(o: Outcome) {
    || o.Unreachable?
    || (o.Http? && !(200 <= o.code <= 299) && o.code != 400 && o.code != 401 && o.code != 403 && o.code != 404
        && o.code != 410 && o.code != 422)
  }

  /** One attempt on a pending row: delivered by any 2xx, still pending after a temporary failure while fewer than
      twelve attempts were made, and failed otherwise; the next delay, if any, is exactly 2^(attempts-1) seconds and
      under the cap. */
  lemma AttemptLaw(job: Job, o: Outcome, error: string, now: int)
    requires JobOk(job) && job.status == Pending
    ensures var after := Attempted(job, o, error, now);
      && JobOk(after) && after.inbox == job.inbox && after.activity == job.activity && after.payload == job.payload
      && (after.status == Delivered <==> Success(o))
      && (after.status == Pending <==> Temporary(o) && job.attempts + 1 < 12)
      && (after.status == Delivered ==> after == job.(status := Delivered, lastError := ""))
      && (after.status != Delivered ==>
            after.attempts == job.attempts + 1 && after.lastError == error && after.nextAt == now + Pow2(job.attempts))
      && 1 <= Pow2(job.attempts) < 3600
  {
    hide Backoff;
    BackoffRange(job.attempts + 1);
    Pow2Values();
    Pow2Grows(job.attempts, 11);
  }

  /** Attempts a row may still cost. */
  function Credit(job: Job): int {
    if job.status == Pending then job.maxAttempts - job.attempts else 0
  }

  function Total(rows: Rows): int {
    if rows == [] then 0 else Credit(rows[0]) + Total(rows[1..])
  }

  /** The rows a tick attempts: the claimed ones it does not skip. */
  function Tried(rows: Rows, paused: nat -> bool, ids: seq<nat>): set<nat> {
    set i | 0 <= i < |rows| && i in ids && !Skipped(rows[i], paused(i))
  }

  lemma {:induction false} TotalAppend(a: Rows, b: Rows)
    ensures Total(a + b) == Total(a) + Total(b)
  {
    if a == [] {
      assert a + b == b;
    } else {
      assert (a + b)[1..] == a[1..] + b;
      TotalAppend(a[1..], b);
    }
  }

  /** If each row of `hit` costs at least one credit and no other row gains any, the total drops by the size of
      `hit`. */
  lemma {:induction false} TotalDrops(rows: Rows, rows': Rows, hit: set<nat>)
    requires |rows| == |rows'| && forall i <- hit :: i < |rows|
    requires forall i :: 0 <= i < |rows| ==> Credit(rows'[i]) <= Credit(rows[i]) - if i in hit then 1 else 0
    ensures Total(rows') + |hit| <= Total(rows)
  {
    var n := |rows| - 1;
    if rows == [] {
      assert hit == {};
    } else {
      assert rows == rows[..n] + [rows[n]] && rows' == rows'[..n] + [rows'[n]];
      TotalAppend(rows[..n], [rows[n]]);
      TotalAppend(rows'[..n], [rows'[n]]);
      TotalDrops(rows[..n], rows'[..n], hit - {n});
    }
  }

  /** A tick keeps the rows valid, never touches delivered or failed rows, and each attempt costs credit. */
  lemma TickLaw(rows: Rows, rows': Rows, now: int, paused: nat -> bool, ids: seq<nat>, respond: nat -> Outcome)
    requires Valid(rows) && IsTick(rows, rows', now, paused, ids, respond)
    ensures Valid(rows') && |rows'| == |rows|
    ensures forall i :: 0 <= i < |rows| && rows[i].status != Pending ==> rows'[i] == rows[i]
    ensures Total(rows') + |Tried(rows, paused, ids)| <= Total(rows)
  {
    forall i | 0 <= i < |rows|
      ensures JobOk(rows'[i]) && rows'[i].inbox == rows[i].inbox && rows'[i].activity == rows[i].activity
      ensures Credit(rows'[i]) <= Credit(rows[i]) - if i in Tried(rows, paused, ids) then 1 else 0
      ensures rows[i].status != Pending ==> rows'[i] == rows[i]
    {
      if i in Tried(rows, paused, ids) {
        var error, t :| t >= now && rows'[i] == Attempted(rows[i], respond(i), error, t);
        AttemptLaw(rows[i], respond(i), error, t);
      }
    }
    TotalDrops(rows, rows', Tried(rows, paused, ids));
  }

  lemma PutLaw(rows: Rows, rows': Rows, op: Op)
    requires Valid(rows) && op.Put? && IsStep(op, rows, rows')
    ensures Valid(rows') && rows <= rows' && |rows'| <= |rows| + 1
    ensures Total(rows') == Total(rows) + MAX_ATTEMPTS * (|rows'| - |rows|)
  {
    if !Queued(rows, op.inbox, op.activity) {
      TotalAppend(rows, [NewJob(op.inbox, op.activity, op.payload, op.now)]);
    }
  }

  /** Delivery attempts made by the first `n` operations. */
  function Attempts(ops: seq<Op>, states: seq<Rows>, n: nat): nat
    requires n <= |ops| && |states| == |ops| + 1
  {
    if n == 0 then 0
    else
      var here := if ops[n - 1].TickOp? then |Tried(states[n - 1], ops[n - 1].paused, ops[n - 1].ids)| else 0;
      Attempts(ops, states, n - 1) + here
  }

  /** In every run from an empty queue: rows stay valid, and the attempts made so far plus the credit left never exceed
      twelve per row; so n rows cause at most 12 n attempts. */
  lemma {:induction false} AttemptsAreBounded(ops: seq<Op>, states: seq<Rows>, n: nat)
    requires IsRun(ops, states) && states[0] == [] && n <= |ops|
    ensures Valid(states[n])
    ensures Attempts(ops, states, n) + Total(states[n]) <= MAX_ATTEMPTS * |states[n]|
    ensures 0 <= Total(states[n])
  {
    if n > 0 {
      AttemptsAreBounded(ops, states, n - 1);
      var op, rows, rows' := ops[n - 1], states[n - 1], states[n];
      assert IsStep(op, rows, rows');
      match op
      case Put(_, _, _, _) => PutLaw(rows, rows', op);
      case TickOp(now, paused, ids, respond) => TickLaw(rows, rows', now, paused, ids, respond);
      TotalNotNegative(rows');
    }
  }

  lemma {:induction false} TotalNotNegative(rows: Rows)
    requires forall i :: 0 <= i < |rows| ==> JobOk(rows[i])
    ensures 0 <= Total(rows)
  {
    if rows != [] {
      assert JobOk(rows[0]);
      TotalNotNegative(rows[1..]);
    }
  }

  lemma StepKeepsFinished(op: Op, rows: Rows, rows': Rows, i: nat)
    requires Valid(rows) && IsStep(op, rows, rows') && i < |rows| && rows[i].status != Pending
    ensures i < |rows'| && rows'[i] == rows[i]
  {
    match op
    case Put(_, _, _, _) => PutLaw(rows, rows', op);
    case TickOp(now, paused, ids, respond) => TickLaw(rows, rows', now, paused, ids, respond);
  }

  /** A delivered or failed row never changes again: nothing revives it. */
  lemma {:induction false} FinishedStaysFinished(ops: seq<Op>, states: seq<Rows>, m: nat, n: nat, i: nat)
    requires IsRun(ops, states) && states[0] == [] && m <= n <= |ops|
    requires i < |states[m]| && states[m][i].status != Pending
    ensures i < |states[n]| && states[n][i] == states[m][i]
    decreases n
  {
    hide Valid, IsStep, Attempts, Total;
    if m < n {
      FinishedStaysFinished(ops, states, m, n - 1, i);
      AttemptsAreBounded(ops, states, n - 1);
      assert IsStep(ops[n - 1], states[n - 1], states[n]);
      StepKeepsFinished(ops[n - 1], states[n - 1], states[n], i);
    }
  }

  // ----- no starvation -----

  /** The pending rows the queue may still prefer to row `x`. */
  function Ahead(rows: Rows, x: nat): set<nat>
    requires x < |rows|
  {
    set i | 0 <= i < |rows| && i != x && rows[i].status == Pending && rows[i].nextAt <= rows[x].nextAt
  }

  function Members(ids: seq<nat>): set<nat> {
    set i | i in ids
  }

  lemma {:induction false} DistinctCount(ids: seq<nat>)
    requires forall a, b :: 0 <= a < b < |ids| ==> ids[a] != ids[b]
    ensures |Members(ids)| == |ids|
  {
    if ids != [] {
      var n := |ids| - 1;
      DistinctCount(ids[..n]);
      assert ids == ids[..n] + [ids[n]] && ids[n] !in ids[..n];
      assert Members(ids) == Members(ids[..n]) + {ids[n]};
    }
  }

  lemma SubsetCount<T>(a: set<T>, b: set<T>, c: set<T>)
    requires a <= b - c && c <= b
    ensures |a| + |c| <= |b|
  {
    assert b == (b - c) + c;
    assert b - c == a + (b - c - a);
  }

  /** A batch that leaves the due row `x` out is full, and all of it is preferred to `x`. */
  lemma FullBatch(rows: Rows, now: int, ids: seq<nat>, x: nat)
    requires IsClaim(rows, now, BATCH, ids) && x < |rows| && Due(rows[x], now) && x !in ids
    ensures |ids| == BATCH && Members(ids) <= Ahead(rows, x)
  {
    forall i | i in ids
      ensures i in Ahead(rows, x)
    {
      var a :| 0 <= a < |ids| && ids[a] == i;
      assert Due(rows[ids[a]], now) && rows[ids[a]].nextAt <= rows[x].nextAt;
    }
  }

  /** An attempted row is finished or postponed beyond the time of the claim. */
  lemma AttemptPostpones(job: Job, o: Outcome, now: int, after: Job)
    requires JobOk(job) && job.status == Pending && AttemptedAfter(job, o, now, after)
    ensures after.status != Pending || after.nextAt > now
  {
    var error, t :| t >= now && after == Attempted(job, o, error, t);
    AttemptLaw(job, o, error, t);
  }

  /** No job of the batch is skipped: none is a file activity that finds delivery paused. */
  ghost predicate NoneSkipped(rows: Rows, paused: nat -> bool, ids: seq<nat>) {
    forall i <- ids :: i < |rows| ==> !Skipped(rows[i], paused(i))
  }

  /** A tick that skips no job and leaves the due row `x` alone attempts eight rows preferred to it, all of which leave
      that set. */
  lemma TickAdvances(rows: Rows, rows': Rows, now: int, paused: nat -> bool, ids: seq<nat>, respond: nat -> Outcome,
                     x: nat)
    requires Valid(rows) && IsTick(rows, rows', now, paused, ids, respond) && NoneSkipped(rows, paused, ids)
    requires x < |rows| && Due(rows[x], now) && x !in ids
    ensures |rows'| == |rows| && rows'[x] == rows[x]
    ensures |Ahead(rows', x)| + BATCH <= |Ahead(rows, x)|
  {
    FullBatch(rows, now, ids, x);
    DistinctCount(ids);
    forall i | i in Ahead(rows', x)
      ensures i in Ahead(rows, x) && i !in Members(ids)
    {
      if i in ids {
        assert i in Ahead(rows, x) by {
          assert i in Members(ids);
        }
        AttemptPostpones(rows[i], respond(i), now, rows'[i]);
      }
    }
    SubsetCount(Ahead(rows', x), Ahead(rows, x), Members(ids));
  }

  function Ticks(ops: seq<Op>): nat {
    if ops == [] then 0 else Ticks(ops[..|ops| - 1]) + if ops[|ops| - 1].TickOp? then 1 else 0
  }

  lemma StarvationStep(op: Op, rows: Rows, rows': Rows, x: nat)
    requires Valid(rows) && IsStep(op, rows, rows') && x < |rows| && Due(rows[x], op.now) && op.now > rows[x].nextAt
    requires op.TickOp? ==> NoneSkipped(rows, op.paused, op.ids) && x !in op.ids
    ensures Valid(rows') && x < |rows'| && rows'[x] == rows[x]
    ensures |Ahead(rows', x)| + (if op.TickOp? then BATCH else 0) <= |Ahead(rows, x)|
  {
    match op
    case Put(_, _, _, _) =>
      PutLaw(rows, rows', op);
      assert Ahead(rows', x) == Ahead(rows, x);
    case TickOp(now, paused, ids, respond) =>
      hide NoneSkipped, Ahead;
      TickLaw(rows, rows', now, paused, ids, respond);
      TickAdvances(rows, rows', now, paused, ids, respond, x);
  }

  /** No due row starves while no job is skipped for a pause: in any run at times later than its due time, `n` ticks
      that all leave it alone need 8 n rows preferred to it at the start. So it is attempted within a bounded number
      of ticks. */
  lemma {:induction false} NoStarvation(ops: seq<Op>, states: seq<Rows>, x: nat)
    requires IsRun(ops, states) && Valid(states[0]) && x < |states[0]| && states[0][x].status == Pending
    requires forall k :: 0 <= k < |ops| ==> ops[k].now > states[0][x].nextAt
    requires forall k :: 0 <= k < |ops| && ops[k].TickOp? ==>
               NoneSkipped(states[k], ops[k].paused, ops[k].ids) && x !in ops[k].ids
    ensures Valid(states[|ops|]) && x < |states[|ops|]| && states[|ops|][x] == states[0][x]
    ensures |Ahead(states[|ops|], x)| + BATCH * Ticks(ops) <= |Ahead(states[0], x)|
  {
    if ops != [] {
      hide Valid, IsStep, NoneSkipped, Ahead;
      var n := |ops| - 1;
      NoStarvation(ops[..n], states[..n + 1], x);
      assert IsStep(ops[n], states[n], states[n + 1]);
      StarvationStep(ops[n], states[n], states[n + 1], x);
    }
  }
}
