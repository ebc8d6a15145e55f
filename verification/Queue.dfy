/** The durable delivery queue (internal/federation/queue.go, internal/federation/store.go). Rows are never deleted;
    the row with database id n+1 is at index n. Times are whole seconds. */
module Queue {
  import opened Wrappers

  const MAX_ATTEMPTS := 12
  const BATCH := 8
  const SECOND := 1_000_000_000
  const HOUR := 3600 * SECOND
  const INT64 := 0x1_0000_0000_0000_0000

  datatype Status = Pending | Delivered | Failed

  /** An activity document and its ActivityStreams type. */
  datatype Payload = Payload(kind: string, text: string)

  datatype Job = Job(inbox: string, activity: string, payload: Payload, attempts: nat, maxAttempts: nat,
                     nextAt: int, lastError: string, status: Status)

  type Rows = seq<Job>

  predicate IsFileActivity(p: Payload) {
    p.kind == "Create" || p.kind == "Update" || p.kind == "Delete"
  }

  // ----- backoff -----

  function Pow2(k: nat): (r: nat)
    ensures r >= 1
  {
    if k == 0 then 1 else 2 * Pow2(k - 1)
  }

  /** A left shift of a 64-bit signed integer. */
  function ShiftLeft(x: int, bits: nat): int {
    if bits >= 64 then 0 else (x * Pow2(bits) + INT64 / 2) % INT64 - INT64 / 2
  }

  /** The delay before the next attempt, in nanoseconds. */
  function Backoff(attempt: int): int {
    var n := if attempt < 1 then 1 else attempt;
    var d := ShiftLeft(SECOND, n - 1);
    if d > HOUR then HOUR else d
  }

  lemma {:induction false} Pow2Grows(a: nat, b: nat)
    requires a <= b
    ensures Pow2(a) <= Pow2(b)
    decreases b
  {
    if a < b {
      Pow2Grows(a, b - 1);
    }
  }

  lemma Pow2Values()
    ensures Pow2(11) == 2048 && Pow2(12) == 4096 && Pow2(33) == 8_589_934_592
  {
    assert Pow2(4) == 16 && Pow2(8) == 256 && Pow2(11) == 2048 && Pow2(12) == 4096;
    assert Pow2(16) == 65536 && Pow2(20) == 1_048_576 && Pow2(24) == 16_777_216;
    assert Pow2(28) == 268_435_456 && Pow2(32) == 4_294_967_296;
  }

  /** Up to the 34th attempt the shift does not overflow and the delay is 2^(k-1) seconds, at most one hour; the next
      one overflows to a negative delay. */
  lemma BackoffRange(k: nat)
    requires 1 <= k
    ensures k <= 34 ==> Backoff(k) == if SECOND * Pow2(k - 1) > HOUR then HOUR else SECOND * Pow2(k - 1)
    ensures k <= 12 ==> Backoff(k) == SECOND * Pow2(k - 1) < HOUR
    ensures Backoff(35) < 0
  {
    Pow2Values();
    if k <= 34 {
      Pow2Grows(k - 1, 33);
    }
    if k <= 12 {
      Pow2Grows(k - 1, 11);
    }
    OverflowAt35();
  }

  lemma OverflowAt35()
    ensures Backoff(35) < 0
  {
    Pow2Values();
    assert Pow2(34) == 2 * Pow2(33);
  }

  // ----- one delivery attempt -----

  /** How the POST of one job went. */
  datatype Outcome = NoKey | BadRequest | SignFailed | Unreachable | Http(code: int)

  predicate Succeeded(o: Outcome) {
    o.Http? && 200 <= o.code < 300
  }

  predicate Permanent(code: int) {
    code in {400, 401, 403, 404, 410, 422}
  }

  predicate Retryable(o: Outcome) {
    o.Unreachable? || (o.Http? && !Permanent(o.code))
  }

  /** A row after one attempt that ends at `now`. */
  function Attempted(job: Job, o: Outcome, error: string, now: int): Job {
    if Succeeded(o) then job.(status := Delivered, lastError := "")
    else
      var attempts := job.attempts + 1;
      job.(attempts := attempts, nextAt := now + Backoff(attempts) / SECOND, lastError := error,
           status := if !Retryable(o) || attempts >= job.maxAttempts then Failed else Pending)
  }

  predicate Due(job: Job, now: int) {
    job.status == Pending && job.nextAt <= now
  }

  /** Distinct due rows, earliest first, with no earlier due row left out. */
  ghost predicate EarliestFirst(rows: Rows, now: int, ids: seq<nat>) {
    && (forall a :: 0 <= a < |ids| ==> ids[a] < |rows| && Due(rows[ids[a]], now))
    && (forall a, b :: 0 <= a < b < |ids| ==> ids[a] != ids[b] && rows[ids[a]].nextAt <= rows[ids[b]].nextAt)
    && (forall a, j :: 0 <= a < |ids| && 0 <= j < |rows| && Due(rows[j], now) && j !in ids ==>
        rows[ids[a]].nextAt <= rows[j].nextAt)
  }

  /** A legal answer of `ClaimDue`: the earliest due rows, all of them or as many as the limit allows. */
  ghost predicate IsClaim(rows: Rows, now: int, limit: nat, ids: seq<nat>) {
    && EarliestFirst(rows, now, ids)
    && |ids| <= limit
    && (|ids| < limit ==> forall j :: 0 <= j < |rows| && Due(rows[j], now) ==> j in ids)
  }

  lemma ClaimNext(rows: Rows, now: int, ids: seq<nat>, next: nat)
    requires EarliestFirst(rows, now, ids) && next < |rows| && Due(rows[next], now) && next !in ids
    requires forall j :: 0 <= j < |rows| && Due(rows[j], now) && j !in ids ==> rows[next].nextAt <= rows[j].nextAt
    ensures EarliestFirst(rows, now, ids + [next])
  {
  }

  ghost predicate Queued(rows: Rows, inbox: string, activity: string) {
    exists i :: 0 <= i < |rows| && rows[i].inbox == inbox && rows[i].activity == activity
  }

  function NewJob(inbox: string, activity: string, payload: Payload, now: int): Job {
    Job(inbox, activity, payload, 0, MAX_ATTEMPTS, now, "", Pending)
  }

  class Store {
    var rows: Rows
    var clock: int

    method Now() returns (t: int)
      modifies this`clock
      ensures t == clock && old(clock) <= clock
    {
      t := *;
      if t < clock {
        t := clock;
      }
      clock := t;
    }

    /** INSERT ... ON CONFLICT(inbox_url, activity_id) DO NOTHING. */
    method Enqueue(inbox: string, activity: string, payload: Payload)
      modifies this
      ensures clock >= old(clock)
      ensures rows == if Queued(old(rows), inbox, activity) then old(rows)
                      else old(rows) + [NewJob(inbox, activity, payload, clock)]
    {
      var now := Now();
      for i := 0 to |rows|
        invariant forall j :: 0 <= j < i ==> !(rows[j].inbox == inbox && rows[j].activity == activity)
      {
        if rows[i].inbox == inbox && rows[i].activity == activity {
          return;
        }
      }
      rows := rows + [NewJob(inbox, activity, payload, now)];
    }

    /** The earliest due row not taken yet. */
    method Earliest(now: int, taken: seq<nat>) returns (best: Option<nat>)
      ensures best.Some? ==> best.value < |rows| && Due(rows[best.value], now) && best.value !in taken
      ensures forall j :: 0 <= j < |rows| && Due(rows[j], now) && j !in taken ==>
        best.Some? && rows[best.value].nextAt <= rows[j].nextAt
    {
      best := None;
      for i := 0 to |rows|
        invariant best.Some? ==> best.value < i && Due(rows[best.value], now) && best.value !in taken
        invariant forall j :: 0 <= j < i && Due(rows[j], now) && j !in taken ==>
          best.Some? && rows[best.value].nextAt <= rows[j].nextAt
      {
        if Due(rows[i], now) && i !in taken && (best.None? || rows[i].nextAt < rows[best.value].nextAt) {
          best := Some(i);
        }
      }
    }

    method ClaimDue(limit: nat) returns (ids: seq<nat>)
      modifies this`clock
      ensures clock >= old(clock) && IsClaim(rows, clock, limit, ids)
    {
      var now := Now();
      ids := [];
      while |ids| < limit
        invariant |ids| <= limit && clock == now >= old(clock)
        invariant EarliestFirst(rows, now, ids)
      {
        var next := Earliest(now, ids);
        if next.None? {
          return;
        }
        ClaimNext(rows, now, ids, next.value);
        ids := ids + [next.value];
      }
    }

    method MarkDelivered(id: nat)
      requires id < |rows|
      modifies this`rows
      ensures rows == old(rows)[id := old(rows)[id].(status := Delivered, lastError := "")]
    {
      rows := rows[id := rows[id].(status := Delivered, lastError := "")];
    }

    method MarkAttempt(id: nat, attempts: nat, next: int, error: string, status: Status)
      requires id < |rows|
      modifies this`rows
      ensures rows == old(rows)[id := old(rows)[id].(attempts := attempts, nextAt := next, lastError := error,
                status := status)]
    {
      rows := rows[id := rows[id].(attempts := attempts, nextAt := next, lastError := error, status := status)];
    }
  }

  class Worker {
    const store: Store

    constructor (store: Store)
      ensures this.store == store
    {
      this.store := store;
    }

    method Fail(id: nat, error: string, retry: bool)
      requires id < |store.rows|
      modifies store
      ensures store.clock >= old(store.clock)
      ensures forall o :: !Succeeded(o) && Retryable(o) == retry ==>
        store.rows == old(store.rows)[id := Attempted(old(store.rows)[id], o, error, store.clock)]
    {
      var job := store.rows[id];
      var attempts := job.attempts + 1;
      var now := store.Now();
      var next := now + Backoff(attempts) / SECOND;
      var status := Pending;
      if !retry || attempts >= job.maxAttempts {
        status := Failed;
      }
      store.MarkAttempt(id, attempts, next, error, status);
    }

    /** Delivers one job: `o` is how the request goes. */
    method Deliver(id: nat, o: Outcome, error: string)
      requires id < |store.rows|
      modifies store
      ensures store.clock >= old(store.clock)
      ensures store.rows == old(store.rows)[id := Attempted(old(store.rows)[id], o, error, store.clock)]
    {
      match o {
        case NoKey => Fail(id, error, false);
        case BadRequest => Fail(id, error, false);
        case SignFailed => Fail(id, error, false);
        case Unreachable => Fail(id, error, true);
        case Http(code) =>
          if 200 <= code < 300 {
            store.MarkDelivered(id);
            return;
          }
          var permanent := code == 400 || code == 401 || code == 403 || code == 404 || code == 410 || code == 422;
          Fail(id, error, !permanent);
      }
    }

    /** One tick: claims a batch, skips each file activity that finds delivery paused, and attempts the rest once each;
        `paused(i)` is what the pause flag reads when row `i` is reached. */
    method Tick(paused: nat -> bool, respond: nat -> Outcome, errorOf: nat -> string)
                returns (ghost ids: seq<nat>, ghost claimedAt: int)
      modifies store
      ensures store.clock >= claimedAt >= old(store.clock)
      ensures IsTick(old(store.rows), store.rows, claimedAt, paused, ids, respond)
    {
      var jobs := store.ClaimDue(BATCH);
      ids, claimedAt := jobs, store.clock;
      for k := 0 to |jobs|
        invariant store.clock >= claimedAt && |store.rows| == |old(store.rows)|
        invariant forall i :: 0 <= i < |store.rows| ==>
          if i in jobs[..k] && !Skipped(old(store.rows)[i], paused(i))
          then AttemptedAfter(old(store.rows)[i], respond(i), claimedAt, store.rows[i])
          else store.rows[i] == old(store.rows)[i]
      {
        var id := jobs[k];
        assert jobs[..k + 1] == jobs[..k] + [id];
        assert id !in jobs[..k];
        if !Skipped(store.rows[id], paused(id)) {
          Deliver(id, respond(id), errorOf(id));
        }
      }
      assert jobs[..|jobs|] == jobs;
    }
  }

  predicate Skipped(job: Job, paused: bool) {
    paused && IsFileActivity(job.payload)
  }

  /** One attempt that ended at or after `from`. */
  ghost predicate AttemptedAfter(job: Job, o: Outcome, from: int, after: Job) {
    exists error, now :: now >= from && after == Attempted(job, o, error, now)
  }

  ghost predicate IsTick(rows: Rows, rows': Rows, now: int, paused: nat -> bool, ids: seq<nat>,
                         respond: nat -> Outcome)
  {
    && IsClaim(rows, now, BATCH, ids)
    && |rows'| == |rows|
    && forall i :: 0 <= i < |rows| ==>
         if i in ids && !Skipped(rows[i], paused(i)) then AttemptedAfter(rows[i], respond(i), now, rows'[i])
             else rows'[i] == rows[i]
  }
}
