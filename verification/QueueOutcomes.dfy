/** What becomes of a queued delivery, told from how its attempts went, with every outcome and status code written
    out. */
module QueueOutcomes {
  import opened Queue
  import opened QueueLaws

  /** The two kinds of failure side by side: what a server that is overloaded or down answers leaves the row pending,
      what no retry can mend fails it at once. */
  lemma RetriedOrNot(job: Job, code: int, error: string, now: int)
    requires JobOk(job) && job.status == Pending && job.attempts + 1 < 12
    ensures Attempted(job, Unreachable, error, now).status == Pending
    ensures code == 408 || code == 429 || 500 <= code <= 599 ==>
      Attempted(job, Http(code), error, now).status == Pending
    ensures code == 400 || code == 401 || code == 403 || code == 404 || code == 410 || code == 422 ==>
      Attempted(job, Http(code), error, now).status == Failed
    ensures forall o | o == NoKey || o == BadRequest || o == SignFailed ::
      Attempted(job, o, error, now).status == Failed
  {
  }

  /** Row `j` is pending and due, and not claimed. */
  predicate LeftOut(rows: Rows, now: int, ids: seq<nat>, j: int) {
    0 <= j < |rows| && rows[j].status == Pending && rows[j].nextAt <= now && j !in ids
  }

  /** A tick claims at most eight rows, all pending and due, and a due row is left out only for eight that are due no
      later. Of those it attempts all but the file activities (Create, Update and Delete) that find delivery paused; no
      other row changes. */
  lemma TickExactly(rows: Rows, rows': Rows, now: int, paused: nat -> bool, ids: seq<nat>, respond: nat -> Outcome)
    requires IsTick(rows, rows', now, paused, ids, respond)
    ensures |ids| <= 8 && forall i <- ids :: i < |rows| && rows[i].status == Pending && rows[i].nextAt <= now
    ensures forall j, i :: LeftOut(rows, now, ids, j) && i in ids ==> |ids| == 8 && rows[i].nextAt <= rows[j].nextAt
    ensures forall i :: 0 <= i < |rows| ==>
      (i in Tried(rows, paused, ids) <==>
        i in ids && !(paused(i) && rows[i].payload.kind in {"Create", "Update", "Delete"}))
    ensures |rows'| == |rows| && forall i :: 0 <= i < |rows| ==>
      if i in Tried(rows, paused, ids) then AttemptedAfter(rows[i], respond(i), now, rows'[i]) else rows'[i] == rows[i]
  {
    assert forall i <- ids :: exists a :: 0 <= a < |ids| && ids[a] == i;
    assert forall a :: 0 <= a < |ids| ==> Due(rows[ids[a]], now);
    forall j, i | LeftOut(rows, now, ids, j) && i in ids
      ensures |ids| == 8 && rows[i].nextAt <= rows[j].nextAt
    {
      assert Due(rows[j], now);
      var a :| 0 <= a < |ids| && ids[a] == i;
      assert rows[ids[a]].nextAt <= rows[j].nextAt;
    }
  }

  // ----- over runs -----

  /** Operation `k` is a tick that attempts row `i`. */
  ghost predicate Tries(ops: seq<Op>, states: seq<Rows>, k: int, i: nat)
    requires |states| == |ops| + 1
  {
    0 <= k < |ops| && ops[k].TickOp? && i in Tried(states[k], ops[k].paused, ops[k].ids)
  }

  function OutcomeOf(ops: seq<Op>, k: int, i: nat): Outcome
    requires 0 <= k < |ops| && ops[k].TickOp?
  {
    ops[k].respond(i)
  }

  /** Attempts on row `i` among the first `n` operations. */
  ghost function TriesOf(ops: seq<Op>, states: seq<Rows>, n: nat, i: nat): nat
    requires |states| == |ops| + 1 && n <= |ops|
  {
    if n == 0 then 0 else TriesOf(ops, states, n - 1, i) + if Tries(ops, states, n - 1, i) then 1 else 0
  }

  /** Every attempt on row `i` among the first `n` operations, except perhaps at `but`, fails for now only. */
  ghost predicate AllTemporary(ops: seq<Op>, states: seq<Rows>, n: nat, i: nat, but: int)
    requires |states| == |ops| + 1 && n <= |ops|
  {
    forall k :: 0 <= k < n && k != but && Tries(ops, states, k, i) ==> Temporary(OutcomeOf(ops, k, i))
  }

  ghost predicate Succeeds(ops: seq<Op>, states: seq<Rows>, k: int, i: nat)
    requires |states| == |ops| + 1
  {
    Tries(ops, states, k, i) && Success(OutcomeOf(ops, k, i))
  }

  ghost predicate Refused(ops: seq<Op>, states: seq<Rows>, k: int, i: nat)
    requires |states| == |ops| + 1
  {
    Tries(ops, states, k, i) && !Success(OutcomeOf(ops, k, i)) && !Temporary(OutcomeOf(ops, k, i))
  }

  /** The status of row `i` after `n` operations accounts for its attempts so far. */
  ghost predicate Fate(ops: seq<Op>, states: seq<Rows>, n: nat, i: nat)
    requires |states| == |ops| + 1 && n <= |ops|
  {
    if i >= |states[n]| then TriesOf(ops, states, n, i) == 0 && forall k :: 0 <= k < n ==> !Tries(ops, states, k, i)
    else match states[n][i].status
      case Pending =>
        && AllTemporary(ops, states, n, i, -1)
        && states[n][i].attempts == TriesOf(ops, states, n, i) < 12
      case Delivered => exists k :: 0 <= k < n && Succeeds(ops, states, k, i) && AllTemporary(ops, states, n, i, k)
      case Failed =>
        || (exists k :: 0 <= k < n && Refused(ops, states, k, i) && AllTemporary(ops, states, n, i, k))
        || (AllTemporary(ops, states, n, i, -1) && TriesOf(ops, states, n, i) == 12)
  }

  /** Only a pending row is attempted, and then it is the row after that attempt; otherwise it is left alone. */
  lemma TriedStep(op: Op, rows: Rows, rows': Rows, i: nat)
    requires Valid(rows) && IsStep(op, rows, rows') && i < |rows|
    ensures i < |rows'|
    ensures op.TickOp? && i in Tried(rows, op.paused, op.ids) ==>
      rows[i].status == Pending && AttemptedAfter(rows[i], op.respond(i), op.now, rows'[i])
    ensures !(op.TickOp? && i in Tried(rows, op.paused, op.ids)) ==> rows'[i] == rows[i]
  {
    match op
    case Put(_, _, _, _) => PutLaw(rows, rows', op);
    case TickOp(now, paused, ids, respond) =>
      if i in Tried(rows, paused, ids) {
        var a :| 0 <= a < |ids| && ids[a] == i;
        assert Due(rows[ids[a]], now);
      }
  }

  lemma AllTemporaryNext(ops: seq<Op>, states: seq<Rows>, n: nat, i: nat, but: int)
    requires |states| == |ops| + 1 && n < |ops|
    ensures AllTemporary(ops, states, n + 1, i, but) <==>
      && AllTemporary(ops, states, n, i, but)
      && (n != but && Tries(ops, states, n, i) ==> Temporary(OutcomeOf(ops, n, i)))
  {
    hide Tries, Temporary;
  }

  lemma FateStep(ops: seq<Op>, states: seq<Rows>, n: nat, i: nat)
    requires IsRun(ops, states) && n < |ops| && Valid(states[n]) && Fate(ops, states, n, i)
    ensures Fate(ops, states, n + 1, i)
  {
    var op, rows, rows' := ops[n], states[n], states[n + 1];
    assert IsStep(op, rows, rows');
    if i >= |rows| {
      NewRow(op, rows, rows', i);
      AllTemporaryNext(ops, states, n, i, -1);
    } else {
      TriedStep(op, rows, rows', i);
      hide IsStep, Valid, IsRun;
      if Tries(ops, states, n, i) {
        TriedFate(ops, states, n, i);
      } else {
        UntriedFate(ops, states, n, i);
      }
    }
  }

  lemma NewRow(op: Op, rows: Rows, rows': Rows, i: nat)
    requires Valid(rows) && IsStep(op, rows, rows') && |rows| <= i
    ensures i < |rows'| ==> rows'[i].status == Pending && rows'[i].attempts == 0
  {
    if op.TickOp? {
      TickLaw(rows, rows', op.now, op.paused, op.ids, op.respond);
    }
  }

  lemma UntriedFate(ops: seq<Op>, states: seq<Rows>, n: nat, i: nat)
    requires |states| == |ops| + 1 && n < |ops| && i < |states[n]| && Fate(ops, states, n, i)
    requires !Tries(ops, states, n, i) && i < |states[n + 1]| && states[n + 1][i] == states[n][i]
    ensures Fate(ops, states, n + 1, i)
  {
    hide Tries, Temporary, Success;
    AllTemporaryNext(ops, states, n, i, -1);
    forall k | 0 <= k < n ensures AllTemporary(ops, states, n + 1, i, k) <==> AllTemporary(ops, states, n, i, k) {
      AllTemporaryNext(ops, states, n, i, k);
    }
  }

  lemma TriedFate(ops: seq<Op>, states: seq<Rows>, n: nat, i: nat)
    requires |states| == |ops| + 1 && n < |ops| && i < |states[n]| && Fate(ops, states, n, i)
    requires Tries(ops, states, n, i) && i < |states[n + 1]|
    requires states[n][i].status == Pending && JobOk(states[n][i])
    requires AttemptedAfter(states[n][i], OutcomeOf(ops, n, i), ops[n].now, states[n + 1][i])
    ensures Fate(ops, states, n + 1, i)
  {
    var o := OutcomeOf(ops, n, i);
    var error, now :| now >= ops[n].now && states[n + 1][i] == Attempted(states[n][i], o, error, now);
    AttemptLaw(states[n][i], o, error, now);
    AllTemporaryNext(ops, states, n, i, -1);
    AllTemporaryNext(ops, states, n, i, n);
    AllBut(ops, states, n, i);
    hide Tries, Temporary, Success, AllTemporary, Attempted;
    assert Success(o) ==> Succeeds(ops, states, n, i);
    assert !Success(o) && !Temporary(o) ==> Refused(ops, states, n, i);
  }

  lemma AllBut(ops: seq<Op>, states: seq<Rows>, n: nat, i: nat)
    requires |states| == |ops| + 1 && n < |ops|
    ensures AllTemporary(ops, states, n, i, -1) ==> AllTemporary(ops, states, n, i, n)
  {
  }

  lemma {:induction false} FateKept(ops: seq<Op>, states: seq<Rows>, n: nat, i: nat)
    requires IsRun(ops, states) && states[0] == [] && n <= |ops|
    ensures Valid(states[n]) && Fate(ops, states, n, i)
  {
    AttemptsAreBounded(ops, states, n);
    if n > 0 {
      FateKept(ops, states, n - 1, i);
      FateStep(ops, states, n - 1, i);
    }
  }

  lemma FateExcludes(ops: seq<Op>, states: seq<Rows>, n: nat, i: nat, k: int, j: int)
    requires |states| == |ops| + 1 && n <= |ops| && 0 <= k < n && AllTemporary(ops, states, n, i, j)
    requires Succeeds(ops, states, k, i) || Refused(ops, states, k, i)
    ensures k == j
  {
  }

  /** In every run from an empty queue, a row is delivered exactly when one of its attempts got a 2xx; failed exactly
      when one met something no retry can mend or twelve failed for the time being; and pending exactly while fewer
      than twelve attempts were made and all of them failed for the time being. */
  lemma FateOfRow(ops: seq<Op>, states: seq<Rows>, n: nat, i: nat)
    requires IsRun(ops, states) && states[0] == [] && n <= |ops| && i < |states[n]|
    ensures var status, tries := states[n][i].status, TriesOf(ops, states, n, i);
      && (status == Delivered <==> exists k :: 0 <= k < n && Succeeds(ops, states, k, i))
      && (status == Failed <==>
            || (exists k :: 0 <= k < n && Refused(ops, states, k, i))
            || (AllTemporary(ops, states, n, i, -1) && tries >= 12))
      && (status == Pending <==> AllTemporary(ops, states, n, i, -1) && tries < 12)
  {
    FateKept(ops, states, n, i);
    hide AllTemporary, IsRun, Valid;
    assert forall k :: !(Succeeds(ops, states, k, i) && Refused(ops, states, k, i));
    hide Succeeds, Refused;
    forall k, j | 0 <= k < n && AllTemporary(ops, states, n, i, j)
               && (Succeeds(ops, states, k, i) || Refused(ops, states, k, i))
      ensures k == j
    {
      FateExcludes(ops, states, n, i, k, j);
    }
  }

  /** So a row that only ever meets overloaded, broken or unreachable servers fails exactly at its twelfth attempt, and
      there is no thirteenth. */
  lemma FailsAtTheTwelfth(ops: seq<Op>, states: seq<Rows>, n: nat, i: nat)
    requires IsRun(ops, states) && states[0] == [] && n <= |ops| && i < |states[n]|
    requires forall k :: 0 <= k < n && Tries(ops, states, k, i) ==>
      var o := OutcomeOf(ops, k, i);
      o.Unreachable? || (o.Http? && (o.code == 408 || o.code == 429 || 500 <= o.code <= 599))
    ensures TriesOf(ops, states, n, i) <= 12
    ensures states[n][i].status == if TriesOf(ops, states, n, i) == 12 then Failed else Pending
  {
    FateKept(ops, states, n, i);
    assert AllTemporary(ops, states, n, i, -1);
    FateOfRow(ops, states, n, i);
    hide AllTemporary, IsRun, Valid;
    forall k | 0 <= k < n ensures !Succeeds(ops, states, k, i) && !Refused(ops, states, k, i) {
    }
  }

  /** After an attempt at `k`, row `i` is done, or due again only 2^(attempts-1) seconds later. */
  ghost predicate Waits(ops: seq<Op>, states: seq<Rows>, k: nat, n: nat, i: nat)
    requires |states| == |ops| + 1 && k < n <= |ops|
  {
    i < |states[n]| && (states[n][i].status == Pending ==>
      && 1 <= TriesOf(ops, states, k, i) + 1 <= states[n][i].attempts
      && states[n][i].nextAt >= ops[k].now + Pow2(TriesOf(ops, states, k, i)))
  }

  lemma WaitsFirst(ops: seq<Op>, states: seq<Rows>, k: nat, i: nat)
    requires IsRun(ops, states) && states[0] == [] && k < |ops| && Tries(ops, states, k, i)
    ensures Waits(ops, states, k, k + 1, i)
  {
    FateKept(ops, states, k, i);
    assert IsStep(ops[k], states[k], states[k + 1]);
    TriedStep(ops[k], states[k], states[k + 1], i);
    assert JobOk(states[k][i]) && states[k][i].attempts == TriesOf(ops, states, k, i);
    hide IsStep, IsRun, Valid, Fate, Tries, TriesOf;
    AttemptPostponed(states[k][i], OutcomeOf(ops, k, i), ops[k].now, states[k + 1][i]);
  }

  lemma AttemptPostponed(job: Job, o: Outcome, from: int, after: Job)
    requires JobOk(job) && job.status == Pending && AttemptedAfter(job, o, from, after)
    ensures after.status == Pending ==>
      after.attempts == job.attempts + 1 && after.nextAt >= from + Pow2(job.attempts)
  {
    var error, t :| t >= from && after == Attempted(job, o, error, t);
    hide Attempted, Backoff;
    AttemptLaw(job, o, error, t);
  }

  lemma WaitsNext(ops: seq<Op>, states: seq<Rows>, k: nat, n: nat, i: nat)
    requires IsRun(ops, states) && states[0] == [] && k < n < |ops| && Waits(ops, states, k, n, i)
    requires forall j :: 0 <= j < n ==> ops[j].now <= ops[n].now
    ensures Waits(ops, states, k, n + 1, i)
  {
    AttemptsAreBounded(ops, states, n);
    assert IsStep(ops[n], states[n], states[n + 1]);
    TriedStep(ops[n], states[n], states[n + 1], i);
    hide IsStep, IsRun;
    if Tries(ops, states, n, i) {
      var job := states[n][i];
      assert JobOk(job);
      hide Valid, AttemptedAfter;
      AttemptPostponed(job, OutcomeOf(ops, n, i), ops[n].now, states[n + 1][i]);
      Pow2Grows(TriesOf(ops, states, k, i), job.attempts);
    }
  }

  /** The operations read the clock in order. */
  ghost predicate InOrder(ops: seq<Op>) {
    forall j, k :: 0 <= j < k < |ops| ==> ops[j].now <= ops[k].now
  }

  lemma {:induction false} WaitsKept(ops: seq<Op>, states: seq<Rows>, k: nat, n: nat, i: nat)
    requires IsRun(ops, states) && states[0] == [] && InOrder(ops) && k < n <= |ops| && Tries(ops, states, k, i)
    ensures Waits(ops, states, k, n, i)
    decreases n
  {
    hide IsRun, Waits, Tries;
    if n == k + 1 {
      WaitsFirst(ops, states, k, i);
    } else {
      WaitsKept(ops, states, k, n - 1, i);
      WaitsNext(ops, states, k, n - 1, i);
    }
  }

  /** In every run from an empty queue in which the clock never goes back, a row that was attempted before is attempted
      again no earlier than 2^(j-1) seconds after its j-th attempt. */
  lemma AttemptsAreSpaced(ops: seq<Op>, states: seq<Rows>, k: nat, n: nat, i: nat)
    requires IsRun(ops, states) && states[0] == [] && InOrder(ops) && k < n < |ops|
    requires Tries(ops, states, k, i) && Tries(ops, states, n, i)
    ensures ops[n].now >= ops[k].now + Pow2(TriesOf(ops, states, k, i))
  {
    WaitsKept(ops, states, k, n, i);
    assert IsStep(ops[n], states[n], states[n + 1]);
    TickExactly(states[n], states[n + 1], ops[n].now, ops[n].paused, ops[n].ids, ops[n].respond);
  }
}
