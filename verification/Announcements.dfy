/** Which changes go out, told from the tables before and after alone. */
module Announcements {
  import opened Wrappers
  import opened FileStore
  import opened Indexer
  import opened IndexerLaws
  import opened ScanLaws
  import opened IndexHistory

  /** Available at the same path with the same content and size. */
  predicate LooksTheSame(a: Record, b: Record) {
    a.available && b.available && a.path == b.path && a.hash == b.hash && a.size == b.size
  }

  /** What one operation must announce about an id: a Create for an id new to the table, a Delete for a row that was
      available and no longer is, an Update for a row that is available and looks different from before, and nothing
      otherwise. */
  function Told(before: Rows, after: Rows, id: ID): seq<Change> {
    if id !in after then []
    else if id !in before then [Change(Create, after[id])]
    else if !after[id].available
    then if before[id].available then [Change(Delete, before[id].(available := false))] else []
    else if LooksTheSame(before[id], after[id]) then [] else [Change(Update, after[id])]
  }

  ghost predicate ToldSoFar(s0: State, s: State) {
    && s0.events <= s.events
    && forall id :: ChangesOf(s.events[|s0.events|..], id) == Told(s0.rows, s.rows, id)
  }

  /** A file re-indexed by the walk continues a row the walk has not touched or gets a new id, and the row it displaces
      was not touched either. */
  lemma WrittenOnce(disk: Disk, s0: State, n: nat, s: State, s': State, saved: Record)
    requires n < |disk.walk| && Tracked(disk, s0, n, s)
    requires disk.walk[n] !in disk.walk[..n] && Wrote(disk, disk.walk[n], s, s', saved)
    ensures saved.id in s.rows ==> Same(s0, s, saved.id)
    ensures forall id :: id in s.rows && id !in s'.rows ==> Same(s0, s, id)
  {
  }

  lemma ToldAt(s0: State, s: State, s': State, saved: Record, id: ID)
    requires saved.id in s'.rows && s'.rows[saved.id] == saved && saved.available
    requires if saved.id in s.rows then Same(s0, s, saved.id) else saved.id !in s0.rows
    requires id != saved.id && id in s'.rows ==> id in s.rows && s'.rows[id] == s.rows[id]
    requires id in s.rows && id !in s'.rows ==> Same(s0, s, id)
    ensures var prev := if saved.id in s.rows then Some(s.rows[saved.id]) else None;
      Told(s0.rows, s'.rows, id)
          == Told(s0.rows, s.rows, id) + if id == saved.id then ChangeFor(prev, saved) else []
  {
  }

  lemma ToldWrite(disk: Disk, s0: State, n: nat, s: State, s': State, saved: Record)
    requires ValidState(s0) && n < |disk.walk| && Tracked(disk, s0, n, s) && ToldSoFar(s0, s)
    requires disk.walk[n] !in disk.walk[..n] && Wrote(disk, disk.walk[n], s, s', saved)
    ensures ToldSoFar(s0, s')
  {
    WrittenOnce(disk, s0, n, s, s', saved);
    assert saved.available;
    hide Describes, Quiet, Told, ChangesOf;
    var prev := if saved.id in s.rows then Some(s.rows[saved.id]) else None;
    var new' := ChangeFor(prev, saved);
    assert new' != [] ==> new' == [new'[0]] && new'[0].rec == saved;
    forall id
      ensures ChangesOf(s'.events[|s0.events|..], id) == Told(s0.rows, s'.rows, id)
    {
      if new' != [] {
        ChangesOfNext(s0.events, s.events, new'[0], id);
      } else {
        assert s'.events == s.events;
      }
      ToldAt(s0, s, s', saved, id);
      assert Told(s0.rows, s.rows, id) + [] == Told(s0.rows, s.rows, id);
    }
  }

  lemma {:induction false} WalkTells(disk: Disk, known: map<Path, Record>, states: seq<State>, n: nat)
    requires ValidDisk(disk) && IsWalk(disk, known, states, |disk.walk|) && n <= |disk.walk|
    requires ValidState(states[0]) && KnownOf(states[0].rows, known)
    ensures ToldSoFar(states[0], states[n])
  {
    if n == 0 {
      assert states[0].events[|states[0].events|..] == [];
    } else {
      WalkTells(disk, known, states, n - 1);
      var p := disk.walk[n - 1];
      assert FileStep(disk, known, p, states[n - 1], states[n]);
      if !Skipped(disk, known, p) && Indexable(disk, p) {
        WalkKeeps(disk, known, states, |disk.walk|, n - 1);
        var cand, saved := ReindexWrites(disk, p, states[n - 1], states[n]);
        hide Tracked, Wrote, ToldSoFar, ReindexWith;
        ToldWrite(disk, states[0], n - 1, states[n - 1], states[n], saved);
      }
    }
  }

  lemma ToldMarkedAt(s0: State, s: State, s': State, p: Path, rec: Record, id: ID)
    requires Marked(s.rows, p, s'.rows)
    requires id in s.rows && s.rows[id].path == p ==> id == rec.id && Same(s0, s, id) && rec == s.rows[id]
    ensures var gone := id == rec.id && id in s.rows && s.rows[id].path == p && s.rows[id].available;
      Told(s0.rows, s'.rows, id)
          == Told(s0.rows, s.rows, id) + if gone then [Change(Delete, rec.(available := false))] else []
  {
  }

  /** Rows at the path are marked missing, and a Delete goes out for the one that was there from the start. */
  lemma ToldMarked(s0: State, s: State, s': State, p: Path, rec: Record)
    requires ToldSoFar(s0, s) && Marked(s.rows, p, s'.rows)
    requires forall id <- s.rows :: s.rows[id].path == p ==> id == rec.id && Same(s0, s, id) && rec == s.rows[id]
    requires s'.events == s.events +
        if rec.id in s.rows && s.rows[rec.id].path == p && s.rows[rec.id].available
        then [Change(Delete, rec.(available := false))] else []
    ensures ToldSoFar(s0, s')
  {
    hide Told, ChangesOf;
    forall id
      ensures ChangesOf(s'.events[|s0.events|..], id) == Told(s0.rows, s'.rows, id)
    {
      ToldMarkedAt(s0, s, s', p, rec, id);
      assert Told(s0.rows, s.rows, id) + [] == Told(s0.rows, s.rows, id);
      if rec.id in s.rows && s.rows[rec.id].path == p && s.rows[rec.id].available {
        ChangesOfNext(s0.events, s.events, Change(Delete, rec.(available := false)), id);
      } else {
        assert s'.events == s.events;
      }
    }
  }

  lemma {:induction false} SweepTells(disk: Disk, s: State, s': State, run: Run, n: nat)
    requires ValidDisk(disk) && ValidState(s) && IsRun(disk, s, s', run) && n <= |run.gone|
    ensures ToldSoFar(s, run.marked[n])
  {
    if n == 0 {
      WalkTells(disk, run.known, run.walked, |disk.walk|);
    } else {
      SweepTells(disk, s, s', run, n - 1);
      hide ToldSoFar;
      GoneIsFromStart(disk, s, s', run, n - 1);
      ToldMarked(s, run.marked[n - 1], run.marked[n], run.gone[n - 1], run.known[run.gone[n - 1]]);
    }
  }

  /** When the sweep reaches a path, the row there, if any, is the known one as the Scan found it. */
  lemma GoneIsFromStart(disk: Disk, s: State, s': State, run: Run, n: nat)
    requires ValidDisk(disk) && ValidState(s) && IsRun(disk, s, s', run) && n < |run.gone|
    ensures var p, rows, rows' := run.gone[n], run.marked[n].rows, run.marked[n + 1].rows;
      && p in run.known && Marked(rows, p, rows')
      && (forall id <- rows :: rows[id].path == p ==>
            id == run.known[p].id && Same(s, run.marked[n], id) && run.known[p] == rows[id])
      && run.marked[n + 1].events == run.marked[n].events +
           if run.known[p].id in rows && rows[run.known[p].id].path == p && rows[run.known[p].id].available
           then [Change(Delete, run.known[p].(available := false))] else []
  {
    var p, s1 := run.gone[n], run.marked[0];
    SweptBefore(disk, s, s', run, n);
    assert p !in run.gone[..n] && GoneStep(run.known, p, run.marked[n], run.marked[n + 1]);
    KnownIsFromStart(disk, s, s', run, p);
    assert forall q <- run.gone[..n] :: q in run.gone && q !in disk.walk;
    hide IsRun, ValidState, ValidDisk, Announced, GoneStep;
    GoneMarks(disk.walk, run.known, s, s1, run.gone[..n], p, run.marked[n], run.marked[n + 1]);
  }

  lemma SweptBefore(disk: Disk, s: State, s': State, run: Run, n: nat)
    requires ValidDisk(disk) && ValidState(s) && IsRun(disk, s, s', run) && n <= |run.gone|
    ensures Swept(s, run.marked[0], run.gone[..n], run.marked[n])
  {
    RunKeeps(disk, s, s', run);
    var s1 := run.marked[0];
    forall q | q in run.gone
      ensures run.known[q].path == q && Unseen(disk.walk, run.known[q], s1.rows)
    {
      GoneRow(disk, run.known, s, s1, q);
    }
    hide Tracked, OnlyDisplaced, Announced, AllServed, SameVisibility, GoneStep, Unseen, IsWalk, SweptRows;
    assert Swept(s, s1, [], s1) by {
      NothingSwept(s1.rows);
    }
    SweepKeeps(disk.walk, s, s1, run.known, run.gone, run.marked, n);
  }

  lemma NothingSwept(rows: Rows)
    ensures SweptRows(rows, [], rows)
  {
  }

  lemma KnownIsFromStart(disk: Disk, s: State, s': State, run: Run, p: Path)
    requires ValidDisk(disk) && ValidState(s) && IsRun(disk, s, s', run) && p in run.gone
    ensures p in run.known && run.known[p].path == p && Unseen(disk.walk, run.known[p], run.marked[0].rows)
    ensures run.known[p].id in s.rows && s.rows[run.known[p].id] == run.known[p]
  {
    RunKeeps(disk, s, s', run);
    GoneRow(disk, run.known, s, run.marked[0], p);
  }

  /** Rows new to the table are available. */
  ghost predicate NewIsAvailable(s0: State, s: State) {
    forall id <- s.rows :: id !in s0.rows ==> s.rows[id].available
  }

  lemma ScanTells(disk: Disk, s: State, s': State, run: Run)
    requires ValidDisk(disk) && ValidState(s) && IsRun(disk, s, s', run)
    ensures ToldSoFar(s, s') && NewIsAvailable(s, s')
  {
    SweepTells(disk, s, s', run, |run.gone|);
    RunKeeps(disk, s, s', run);
    forall id | id in s'.rows && id !in s.rows
      ensures s'.rows[id].available
    {
      assert !Same(s, run.marked[0], id) && Describes(disk, run.marked[0].rows[id]);
      forall p | p in run.gone ensures run.marked[0].rows[id].path != p {
        GoneRow(disk, run.known, s, run.marked[0], p);
      }
    }
  }

  lemma IndexTells(disk: Disk, p: Path, s: State, s': State)
    requires ValidState(s) && Reindex(disk, p, s, s')
    ensures ToldSoFar(s, s') && NewIsAvailable(s, s')
  {
    assert s.events[|s.events|..] == [];
    var cand, saved := ReindexWrites(disk, p, s, s');
    ToldWrite(disk.(walk := [p]), s, 0, s, s', saved);
  }

  lemma RemoveTells(p: Path, s: State, s': State)
    requires ValidState(s) && RemoveStep(p, s, s')
    ensures ToldSoFar(s, s') && NewIsAvailable(s, s')
  {
    assert s.events[|s.events|..] == [];
    assert Marked(s.rows, p, s'.rows);
    var rec := RowAt(s.rows, p);
    if rec.Some? {
      ToldMarked(s, s, s', p, rec.value);
    } else {
      assert s'.events == s.events;
    }
  }

  /** Every scan, single update and removal announces about each id exactly what the tables before and after call
      for, once. */
  lemma StepTells(op: Op, s: State, s': State)
    requires ValidState(s) && IsStep(op, s, s')
    ensures ToldSoFar(s, s') && NewIsAvailable(s, s')
  {
    assert s.events[|s.events|..] == [];
    match op
    case ScanOp(disk, run) => ScanTells(disk, s, s', run);
    case IndexOp(disk, p) => if Indexable(disk, p) { IndexTells(disk, p, s, s'); }
    case RemoveOp(p) => RemoveTells(p, s, s');
  }

  // ----- over a history -----

  /** What followers show of a file. */
  datatype Shown = Shown(path: Path, hash: ContentID, size: nat)

  function ShownOf(rec: Record): Shown {
    Shown(rec.path, rec.hash, rec.size)
  }

  /** The available rows as they should be shown. */
  function ShownRows(rows: Rows): map<ID, Shown> {
    map id | id in rows && rows[id].available :: ShownOf(rows[id])
  }

  function Apply(shown: map<ID, Shown>, c: Change): map<ID, Shown> {
    if c.kind == Delete then shown - {c.rec.id} else shown[c.rec.id := ShownOf(c.rec)]
  }

  /** Create and Update put the row, Delete removes it. */
  function Replayed(shown: map<ID, Shown>, changes: seq<Change>): map<ID, Shown> {
    if changes == [] then shown
    else Apply(Replayed(shown, changes[..|changes| - 1]), changes[|changes| - 1])
  }

  function At(shown: map<ID, Shown>, id: ID): Option<Shown> {
    if id in shown then Some(shown[id]) else None
  }

  /** What replaying shows of an id depends on the changes about it alone. */
  lemma {:induction false} ReplayedAt(shown: map<ID, Shown>, changes: seq<Change>, id: ID)
    ensures At(Replayed(shown, changes), id) == At(Replayed(shown, ChangesOf(changes, id)), id)
  {
    if changes != [] {
      var init, c := changes[..|changes| - 1], changes[|changes| - 1];
      ReplayedAt(shown, init, id);
      if c.rec.id == id {
        assert (ChangesOf(init, id) + [c])[..|ChangesOf(init, id)|] == ChangesOf(init, id);
      } else {
        assert ChangesOf(changes, id) == ChangesOf(init, id);
      }
    }
  }

  lemma {:induction false} ReplayedAppend(shown: map<ID, Shown>, a: seq<Change>, b: seq<Change>)
    ensures Replayed(shown, a + b) == Replayed(Replayed(shown, a), b)
  {
    if b == [] {
      assert a + b == a;
    } else {
      ReplayedAppend(shown, a, b[..|b| - 1]);
      assert (a + b)[..|a + b| - 1] == a + b[..|b| - 1];
    }
  }

  lemma ReplayedOne(shown: map<ID, Shown>, c: Change)
    ensures Replayed(shown, [c]) == Apply(shown, c)
  {
    assert [c][..0] == [];
  }

  /** Whoever showed `shown` at the start and applies every change emitted since shows each row of the table as it
      is: nothing while it is unavailable, its path, content and size while it is available. */
  ghost predicate ShowsTable(shown: map<ID, Shown>, before: seq<Change>, s: State) {
    && before <= s.events
    && var now := Replayed(shown, s.events[|before|..]);
    && now.Keys <= s.used
    && forall id <- s.rows :: At(now, id) == At(ShownRows(s.rows), id)
  }

  lemma ShowsStep(shown: map<ID, Shown>, before: seq<Change>, op: Op, s: State, s': State)
    requires ValidState(s) && IsStep(op, s, s') && ShowsTable(shown, before, s)
    ensures ValidState(s') && ShowsTable(shown, before, s')
  {
    hide IsStep, Replayed, ChangesOf, ValidState, ShownRows, Told, NewIsAvailable, At, ToldSoFar;
    StepGrows(op, s, s');
    StepTells(op, s, s');
    LogSplits(before, s.events, s'.events);
    var old', new' := s.events[|before|..], s'.events[|s.events|..];
    ReplayedAppend(shown, old', new');
    var was, now := Replayed(shown, old'), Replayed(shown, old' + new');
    forall id
      ensures id in now ==> id in s'.used
      ensures id in s'.rows ==> At(now, id) == At(ShownRows(s'.rows), id)
    {
      assert ChangesOf(new', id) == Told(s.rows, s'.rows, id) by { ToldOf(s, s', id); }
      ShowsAt(was, new', s, s', id);
    }
  }

  lemma ToldOf(s0: State, s: State, id: ID)
    requires ToldSoFar(s0, s)
    ensures s0.events <= s.events && ChangesOf(s.events[|s0.events|..], id) == Told(s0.rows, s.rows, id)
  {
  }

  lemma StepGrows(op: Op, s: State, s': State)
    requires ValidState(s) && IsStep(op, s, s')
    ensures ValidState(s') && s.events <= s'.events && s.used <= s'.used
    ensures s.rows.Keys <= s.used && s'.rows.Keys <= s'.used
    ensures forall id <- s'.rows :: id in s.rows || id !in s.used
  {
    hide IsStep;
    StepAnnounces(op, s, s');
  }

  lemma ShowsAt(was: map<ID, Shown>, changes: seq<Change>, s: State, s': State, id: ID)
    requires ChangesOf(changes, id) == Told(s.rows, s'.rows, id) && NewIsAvailable(s, s')
    requires was.Keys <= s.used && s.used <= s'.used && s'.rows.Keys <= s'.used
    requires id in s'.rows ==> id in s.rows || id !in s.used
    requires id in s.rows ==> At(was, id) == At(ShownRows(s.rows), id)
    ensures id in Replayed(was, changes) ==> id in s'.used
    ensures id in s'.rows ==> At(Replayed(was, changes), id) == At(ShownRows(s'.rows), id)
  {
    ReplayedAt(was, changes, id);
    var told := Told(s.rows, s'.rows, id);
    if told != [] {
      assert told == [told[0]];
      ReplayedOne(was, told[0]);
    }
  }

  /** Over every history: whoever shows the available rows at the start and applies every emitted change shows every
      row the table still has as it is. */
  lemma {:induction false} FollowersShowTheTable(ops: seq<Op>, states: seq<State>, n: nat)
    requires IsHistory(ops, states) && n <= |ops| && ValidState(states[0])
    ensures ValidState(states[n])
    ensures ShowsTable(ShownRows(states[0].rows), states[0].events, states[n])
  {
    if n == 0 {
      assert states[0].events[|states[0].events|..] == [];
    } else {
      hide ShowsTable, ValidState, IsStep;
      FollowersShowTheTable(ops, states, n - 1);
      ShowsStep(ShownRows(states[0].rows), states[0].events, ops[n - 1], states[n - 1], states[n]);
    }
  }

  /** What one operation says about an id, `was` being what was said before it. */
  lemma CreatedStep(op: Op, s: State, s': State, id: ID)
    requires ValidState(s) && IsStep(op, s, s')
    ensures s.events <= s'.events
    ensures ChangesOf(s'.events[|s.events|..], id) == Told(s.rows, s'.rows, id)
    ensures s.used <= s'.used && (id in s'.rows ==> id in s'.used && (id in s.rows || id !in s.used))
    ensures id in s.rows ==> id in s.used
  {
    StepAnnounces(op, s, s');
    StepTells(op, s, s');
  }

  /** The changes `told` about an id so far, from state `s0` to state `s`. */
  ghost predicate CreatedOk(s0: State, s: State, told: seq<Change>, id: ID) {
    && (forall i :: 0 <= i < |told| && told[i].kind == Create ==> i == 0 && id !in s0.used)
    && (id in s.rows && id !in s0.rows ==> told != [] && told[0].kind == Create)
    && (told != [] ==> id in s.used)
  }

  lemma CreatedAt(s0: State, s: State, s': State, told: seq<Change>, id: ID)
    requires CreatedOk(s0, s, told, id) && ValidState(s0) && s0.used <= s.used <= s'.used
    requires id in s'.rows ==> id in s'.used && (id in s.rows || id !in s.used)
    requires id in s.rows ==> id in s.used
    ensures CreatedOk(s0, s', told + Told(s.rows, s'.rows, id), id)
  {
    var more := Told(s.rows, s'.rows, id);
    assert more != [] ==> more == [more[0]];
    assert more != [] && more[0].kind == Create ==> told == [];
  }

  /** Over every history an id that enters the table is announced by one Create, before anything else is said about
      it, and an id that was stored at the start never by one. */
  lemma {:induction false} CreatedOnce(ops: seq<Op>, states: seq<State>, n: nat, id: ID)
    requires IsHistory(ops, states) && n <= |ops| && ValidState(states[0])
    ensures states[0].events <= states[n].events
    ensures CreatedOk(states[0], states[n], ChangesOf(states[n].events[|states[0].events|..], id), id)
  {
    if n == 0 {
      NothingSaid(states[0], id);
    } else {
      HistoryStep(ops, states, n - 1);
      hide IsHistory, ChangesOf, CreatedOk, Told, ValidState, IsStep;
      CreatedOnce(ops, states, n - 1, id);
      CreatedNext(ops[n - 1], states[0], states[n - 1], states[n], id);
    }
  }

  lemma NothingSaid(s: State, id: ID)
    ensures CreatedOk(s, s, ChangesOf(s.events[|s.events|..], id), id)
  {
    assert s.events[|s.events|..] == [];
  }

  lemma CreatedNext(op: Op, s0: State, s: State, s': State, id: ID)
    requires ValidState(s0) && ValidState(s) && IsStep(op, s, s') && s0.used <= s.used && s0.events <= s.events
    requires CreatedOk(s0, s, ChangesOf(s.events[|s0.events|..], id), id)
    ensures s0.events <= s'.events && CreatedOk(s0, s', ChangesOf(s'.events[|s0.events|..], id), id)
  {
    hide IsStep, ValidState, CreatedOk, Told, ChangesOf;
    CreatedStep(op, s, s', id);
    LogSplits(s0.events, s.events, s'.events);
    ChangesOfAppend(s.events[|s0.events|..], s'.events[|s.events|..], id);
    CreatedAt(s0, s, s', ChangesOf(s.events[|s0.events|..], id), id);
  }

  /** Every operation of a history is a step between valid states. */
  lemma HistoryStep(ops: seq<Op>, states: seq<State>, n: nat)
    requires IsHistory(ops, states) && n < |ops| && ValidState(states[0])
    ensures IsStep(ops[n], states[n], states[n + 1]) && ValidState(states[n]) && states[0].used <= states[n].used
  {
    hide IsStep, ValidState, ReplayAgrees;
    ReplayAlwaysAgrees(ops, states, n);
    UsedGrows(ops, states, n);
  }

  lemma LogSplits(a: seq<Change>, b: seq<Change>, c: seq<Change>)
    requires a <= b <= c
    ensures a <= c && c[|a|..] == b[|a|..] + c[|b|..]
  {
  }

  lemma {:induction false} UsedGrows(ops: seq<Op>, states: seq<State>, n: nat)
    requires IsHistory(ops, states) && n <= |ops| && ValidState(states[0])
    ensures states[0].used <= states[n].used
  {
    if n > 0 {
      UsedGrows(ops, states, n - 1);
      hide ReplayAgrees, IsStep, ValidState, Announced;
      ReplayAlwaysAgrees(ops, states, n - 1);
      StepAnnounces(ops[n - 1], states[n - 1], states[n]);
    }
  }

  lemma {:induction false} ChangesOfAppend(a: seq<Change>, b: seq<Change>, id: ID)
    ensures ChangesOf(a + b, id) == ChangesOf(a, id) + ChangesOf(b, id)
  {
    if b == [] {
      assert a + b == a;
    } else {
      ChangesOfAppend(a, b[..|b| - 1], id);
      assert (a + b)[..|a + b| - 1] == a + b[..|b| - 1];
    }
  }
}
