/** What the emitted changes say over a whole life of the index: any run of scans, single-file updates and removals,
    on a disk that changes between them. */
module IndexHistory {
  import opened Wrappers
  import opened FileStore
  import opened Indexer
  import opened IndexerLaws

  datatype Op =
    | ScanOp(disk: Disk, run: Run)
    | IndexOp(disk: Disk, path: Path)
    | RemoveOp(path: Path)

  ghost predicate IsStep(op: Op, s: State, s': State) {
    match op
    case ScanOp(disk, run) => ValidDisk(disk) && IsRun(disk, s, s', run)
    case IndexOp(disk, p) => ValidDisk(disk) && if Indexable(disk, p) then Reindex(disk, p, s, s') else s' == s
    case RemoveOp(p) => RemoveStep(p, s, s')
  }

  ghost predicate IsHistory(ops: seq<Op>, states: seq<State>) {
    && |states| == |ops| + 1
    && forall i :: 0 <= i < |ops| ==> IsStep(ops[i], states[i], states[i + 1])
  }

  lemma {:induction false} ReplayPointwise(a: set<ID>, b: set<ID>, changes: seq<Change>, id: ID)
    ensures (id in a <==> id in b) ==> (id in Replay(a, changes) <==> id in Replay(b, changes))
    ensures id in Replay(a, changes) ==> id in a || id in Replay(b, changes)
  {
    if changes != [] {
      ReplayPointwise(a, b, changes[..|changes| - 1], id);
    }
  }

  lemma {:induction false} ReplayAppend(ids: set<ID>, a: seq<Change>, b: seq<Change>)
    ensures Replay(ids, a + b) == Replay(Replay(ids, a), b)
  {
    if b == [] {
      assert a + b == a;
    } else {
      ReplayAppend(ids, a, b[..|b| - 1]);
      assert (a + b)[..|a + b| - 1] == a + b[..|b| - 1];
    }
  }

  lemma RemoveAnnounces(p: Path, s: State, s': State)
    requires ValidState(s) && RemoveStep(p, s, s')
    ensures ValidState(s') && Announced(s, s')
  {
    assert s.events[|s.events|..] == [];
    assert Marked(s.rows, p, s'.rows);
    MarkedValid(s.rows, p, s'.rows);
    var rec := RowAt(s.rows, p);
    if rec.Some? {
      MarkedAnnounced(s, s, s', p, rec.value.(available := false));
    } else {
      assert Available(s'.rows) == Available(s.rows) && Dropped(s.rows, s'.rows) == {};
      assert s'.events == s.events;
    }
  }

  lemma IndexAnnounces(disk: Disk, p: Path, s: State, s': State)
    requires ValidState(s) && Reindex(disk, p, s, s')
    ensures ValidState(s') && s.used <= s'.used && Announced(s, s')
    ensures forall id <- s'.rows :: id in s.rows || id !in s.used
  {
    assert s.events[|s.events|..] == [];
    var cand, saved := ReindexWrites(disk, p, s, s');
    AnnouncedWrite(disk.(walk := [p]), s, 0, s, s', saved);
  }

  lemma ScanAnnounces(disk: Disk, s: State, s': State, run: Run)
    requires ValidDisk(disk) && ValidState(s) && IsRun(disk, s, s', run)
    ensures ValidState(s') && s.used <= s'.used && Announced(s, s')
    ensures forall id <- s'.rows :: id in s.rows || id !in s.used
  {
    RunKeeps(disk, s, s', run);
  }

  /** Each operation announces exactly what it makes available, up to displaced ids. */
  lemma StepAnnounces(op: Op, s: State, s': State)
    requires ValidState(s) && IsStep(op, s, s')
    ensures ValidState(s') && s.used <= s'.used && Announced(s, s')
    ensures forall id <- s'.rows :: id in s.rows || id !in s.used
  {
    match op
    case ScanOp(disk, run) => ScanAnnounces(disk, s, s', run);
    case IndexOp(disk, p) =>
      if Indexable(disk, p) {
        IndexAnnounces(disk, p, s, s');
      } else {
        assert s.events[|s.events|..] == [];
      }
    case RemoveOp(p) => RemoveAnnounces(p, s, s');
  }

  /** Whoever knew `known` at the start and replays every change emitted since agrees with the table
      on every id the table still has. */
  ghost predicate ReplayAgrees(known: set<ID>, before: seq<Change>, s: State) {
    && before <= s.events
    && var heard := Replay(known, s.events[|before|..]);
    && heard <= s.used
    && forall id <- s.rows :: id in heard <==> s.rows[id].available
  }

  lemma AgreementStep(known: set<ID>, before: seq<Change>, op: Op, s: State, s': State)
    requires ValidState(s) && IsStep(op, s, s') && ReplayAgrees(known, before, s)
    ensures ValidState(s') && ReplayAgrees(known, before, s')
  {
    hide IsStep, ValidState, Replay;
    StepAnnounces(op, s, s');
    var old', new' := s.events[|before|..], s'.events[|s.events|..];
    assert s'.events == s.events + new';
    assert s'.events[|before|..] == old' + new';
    ReplayAppend(known, old', new');
    var heard, heard' := Replay(known, old'), Replay(known, old' + new');
    forall id
      ensures id in heard' ==> id in s'.used
      ensures id in s'.rows ==> (id in heard' <==> s'.rows[id].available)
    {
      ReplayPointwise(heard, Available(s.rows), new', id);
    }
  }

  /** Over every history of the index, ids and paths stay unique and whoever replays every emitted
      change agrees with the table. */
  lemma {:induction false} ReplayAlwaysAgrees(ops: seq<Op>, states: seq<State>, n: nat)
    requires IsHistory(ops, states) && n <= |ops| && ValidState(states[0])
    ensures ValidState(states[n])
    ensures ReplayAgrees(Available(states[0].rows), states[0].events, states[n])
  {
    if n == 0 {
      assert states[0].events[|states[0].events|..] == [];
    } else {
      ReplayAlwaysAgrees(ops, states, n - 1);
      AgreementStep(Available(states[0].rows), states[0].events, ops[n - 1], states[n - 1], states[n]);
    }
  }

  // ----- exactly what replaying gives -----

  /** Every event since `s0` is about a row of `s0` or an id never stored before it. */
  ghost predicate Concerns(s0: State, s: State) {
    && s0.events <= s.events
    && forall i :: |s0.events| <= i < |s.events| ==> s.events[i].rec.id in s0.rows || s.events[i].rec.id !in s0.used
  }

  lemma WriteConcerns(disk: Disk, s0: State, n: nat, s: State, s': State, p: Path, saved: Record)
    requires n <= |disk.walk| && Tracked(disk, s0, n, s) && Concerns(s0, s) && Wrote(disk, p, s, s', saved)
    ensures Concerns(s0, s')
  {
    hide Describes, Same, ValidState;
    var prev := if saved.id in s.rows then Some(s.rows[saved.id]) else None;
    assert s'.events == s.events + ChangeFor(prev, saved);
    assert saved.id in s0.rows || saved.id !in s0.used;
  }

  lemma {:induction false} WalkConcerns(disk: Disk, known: map<Path, Record>, states: seq<State>, n: nat)
    requires ValidDisk(disk) && IsWalk(disk, known, states, |disk.walk|) && n <= |disk.walk|
    requires ValidState(states[0]) && KnownOf(states[0].rows, known)
    ensures Concerns(states[0], states[n])
  {
    if n > 0 {
      WalkConcerns(disk, known, states, n - 1);
      var p := disk.walk[n - 1];
      assert FileStep(disk, known, p, states[n - 1], states[n]);
      if !Skipped(disk, known, p) && Indexable(disk, p) {
        WalkKeeps(disk, known, states, |disk.walk|, n - 1);
        var cand, saved := ReindexWrites(disk, p, states[n - 1], states[n]);
        hide Tracked, Wrote, Concerns, ReindexWith;
        WriteConcerns(disk, states[0], n - 1, states[n - 1], states[n], p, saved);
      }
    }
  }

  lemma {:induction false} SweepConcerns(disk: Disk, known: map<Path, Record>, s0: State, gone: seq<Path>,
                                         states: seq<State>, n: nat)
    requires IsSweep(disk, known, gone, states) && n <= |gone| && KnownOf(s0.rows, known) && Concerns(s0, states[0])
    ensures Concerns(s0, states[n])
  {
    if n > 0 {
      SweepConcerns(disk, known, s0, gone, states, n - 1);
      assert GoneStep(known, gone[n - 1], states[n - 1], states[n]);
    }
  }

  lemma StepConcerns(op: Op, s: State, s': State)
    requires ValidState(s) && IsStep(op, s, s')
    ensures Concerns(s, s')
  {
    match op
    case ScanOp(disk, run) =>
      WalkConcerns(disk, run.known, run.walked, |disk.walk|);
      SweepConcerns(disk, run.known, s, run.gone, run.marked, |run.gone|);
    case IndexOp(disk, p) =>
      if Indexable(disk, p) {
        var cand, saved := ReindexWrites(disk, p, s, s');
      }
    case RemoveOp(p) =>
  }

  lemma {:induction false} ReplayUntouched(ids: set<ID>, changes: seq<Change>, id: ID)
    requires forall i :: 0 <= i < |changes| ==> changes[i].rec.id != id
    ensures id in Replay(ids, changes) <==> id in ids
  {
    if changes != [] {
      ReplayUntouched(ids, changes[..|changes| - 1], id);
    }
  }

  /** The ids displaced while available by the first `n` operations. */
  function DroppedSoFar(states: seq<State>, n: nat): set<ID>
    requires n < |states|
  {
    if n == 0 then {} else DroppedSoFar(states, n - 1) + Dropped(states[n - 1].rows, states[n].rows)
  }

  /** What replaying every emitted change gives, as the table and the displaced ids account for it. */
  ghost predicate Accounted(known: set<ID>, before: seq<Change>, s: State, dropped: set<ID>) {
    && before <= s.events
    && Replay(known, s.events[|before|..]) == Available(s.rows) + dropped
    && dropped <= s.used && dropped !! s.rows.Keys
  }

  lemma AccountedStep(known: set<ID>, before: seq<Change>, op: Op, s: State, s': State, dropped: set<ID>)
    requires ValidState(s) && IsStep(op, s, s') && Accounted(known, before, s, dropped)
    ensures Accounted(known, before, s', dropped + Dropped(s.rows, s'.rows))
  {
    hide IsStep, Replay;
    StepAnnounces(op, s, s');
    StepConcerns(op, s, s');
    var old', new' := s.events[|before|..], s'.events[|s.events|..];
    assert s'.events == s.events + new';
    assert s'.events[|before|..] == old' + new';
    ReplayAppend(known, old', new');
    var heard, after := Available(s.rows) + dropped, Available(s'.rows) + (dropped + Dropped(s.rows, s'.rows));
    forall id
      ensures id in Replay(heard, new') <==> id in after
    {
      if id in dropped {
        ReplayUntouched(heard, new', id);
      } else {
        ReplayPointwise(heard, Available(s.rows), new', id);
      }
    }
  }

  /** Over every history, replaying every emitted change gives exactly the available ids and the ids that were
      displaced while available, which never come back. */
  lemma ReplayExactly(ops: seq<Op>, states: seq<State>, n: nat)
    requires IsHistory(ops, states) && n <= |ops| && ValidState(states[0])
    ensures states[0].events <= states[n].events
    ensures Replay(Available(states[0].rows), states[n].events[|states[0].events|..])
         == Available(states[n].rows) + DroppedSoFar(states, n)
    ensures DroppedSoFar(states, n) !! states[n].rows.Keys
  {
    ReplaySoFar(ops, states, n);
  }

  lemma {:induction false} ReplaySoFar(ops: seq<Op>, states: seq<State>, n: nat)
    requires IsHistory(ops, states) && n <= |ops| && ValidState(states[0])
    ensures Accounted(Available(states[0].rows), states[0].events, states[n], DroppedSoFar(states, n))
  {
    if n == 0 {
      assert states[0].events[|states[0].events|..] == [];
    } else {
      ReplaySoFar(ops, states, n - 1);
      ReplayAlwaysAgrees(ops, states, n - 1);
      hide Accounted, ValidState, IsStep;
      AccountedStep(Available(states[0].rows), states[0].events, ops[n - 1], states[n - 1], states[n],
          DroppedSoFar(states, n - 1));
    }
  }
}
