/** The main theorems about a Scan, read off the invariants of IndexerLaws. */
module ScanLaws {
  import opened Wrappers
  import opened FileStore
  import opened Indexer
  import opened IndexerLaws

  /** Some available row sits at the path. */
  ghost predicate Online(rows: Rows, p: Path) {
    exists id :: id in rows && rows[id].path == p && rows[id].available
  }

  lemma AvailableIsSeen(disk: Disk, s: State, s': State, run: Run, id: ID)
    requires ValidDisk(disk) && ValidState(s) && IsRun(disk, s, s', run)
    requires id in s'.rows && s'.rows[id].available
    ensures s'.rows[id].path in disk.walk
  {
    RunKeeps(disk, s, s', run);
    assert disk.walk[..|disk.walk|] == disk.walk;
    var rec := run.marked[0].rows[id];
    assert rec.path !in disk.walk ==> rec.path in run.known;
  }

  lemma SeenIsServed(disk: Disk, s: State, s': State, run: Run, p: Path)
    requires ValidDisk(disk) && ValidState(s) && IsRun(disk, s, s', run)
    requires p in disk.walk && Indexable(disk, p)
    ensures Served(disk, run.known, s'.rows, p)
  {
    RunKeeps(disk, s, s', run);
    var rows1 := run.marked[0].rows;
    var i :| 0 <= i < |disk.walk| && disk.walk[i] == p;
    assert Served(disk, run.known, rows1, disk.walk[i]);
    var id :| id in rows1 && rows1[id].path == p && rows1[id].available
      && (Describes(disk, rows1[id]) || (Skipped(disk, run.known, p) && rows1[id] == run.known[p]));
    assert id in s'.rows && s'.rows[id] == rows1[id];
  }

  /** After a Scan ids and paths are still unique, every available row is at a visible regular file, and every such
      file whose path resolves has one available row: it describes what the path resolves to, or the walk skipped it. */
  lemma ScanMirrorsDisk(disk: Disk, s: State, s': State, run: Run)
    requires ValidDisk(disk) && ValidState(s) && IsRun(disk, s, s', run)
    ensures ValidState(s')
    ensures forall id <- s'.rows :: s'.rows[id].available ==> s'.rows[id].path in disk.walk
    ensures forall p <- disk.walk :: Indexable(disk, p) ==> Served(disk, run.known, s'.rows, p)
    ensures (forall p <- disk.walk :: Indexable(disk, p)) ==> forall p :: p in disk.walk <==> Online(s'.rows, p)
  {
    RunKeeps(disk, s, s', run);
    forall id | id in s'.rows && s'.rows[id].available
      ensures s'.rows[id].path in disk.walk
    {
      AvailableIsSeen(disk, s, s', run, id);
    }
    forall p | p in disk.walk && Indexable(disk, p)
      ensures Served(disk, run.known, s'.rows, p)
    {
      SeenIsServed(disk, s, s', run, p);
    }
  }

  /** The row carries what Lstat and hashing say of the file at its own path. */
  predicate CarriesOwn(disk: Disk, p: Path, rec: Record) {
    && rec.path == p && rec.available && rec.mime == disk.lstat(p).mime && rec.size == disk.lstat(p).size
    && rec.hash == HashOf(disk.lstat(p)) && rec.modifiedAt == disk.lstat(p).mtime
  }

  /** `ResolveUnderRoot` reaches a file from the path that agrees with its Lstat on what FileUnchanged compares. */
  predicate Matches(disk: Disk, p: Path) {
    Indexable(disk, p) && Content(disk, p).size == disk.lstat(p).size && Content(disk, p).mtime == disk.lstat(p).mtime
  }

  ghost predicate HasOwnRow(disk: Disk, rows: Rows, p: Path) {
    exists id :: id in rows && CarriesOwn(disk, p, rows[id])
  }

  ghost predicate HasUnchangedRow(disk: Disk, rows: Rows, p: Path) {
    exists id :: id in rows && rows[id].path == p && Unchanged(disk, p, rows[id])
  }

  /** What a Scan of an empty table makes of each visible file. It comes online exactly when its path resolves to a
      regular file; its row carries its own content exactly when the path resolves to the file itself; and the next Scan
      finds the row unchanged exactly when what it resolves to has the file's size and time. So the table mirrors the
      disk, for paths, for content or for the next Scan, if and only if that holds of every visible file. */
  lemma EmptyTableExact(disk: Disk, s: State, s': State, run: Run)
    requires ValidDisk(disk) && ValidState(s) && IsRun(disk, s, s', run) && s.rows == map[]
    ensures forall p :: Online(s'.rows, p) <==> p in disk.walk && Indexable(disk, p)
    ensures (forall p <- disk.walk :: Online(s'.rows, p)) <==> (forall p <- disk.walk :: Indexable(disk, p))
    ensures (forall p <- disk.walk :: HasOwnRow(disk, s'.rows, p)) <==>
            (forall p <- disk.walk :: Indexable(disk, p) && Content(disk, p) == disk.lstat(p))
    ensures (forall p <- disk.walk :: HasUnchangedRow(disk, s'.rows, p)) <==>
              (forall p <- disk.walk :: Matches(disk, p))
  {
    hide ValidDisk, ValidState, IsRun, Indexable, Matches, HasOwnRow, HasUnchangedRow;
    forall p
      ensures Online(s'.rows, p) <==> p in disk.walk && Indexable(disk, p)
    {
      EmptyTableAt(disk, s, s', run, p);
    }
    forall p | p in disk.walk
      ensures HasOwnRow(disk, s'.rows, p) <==> Indexable(disk, p) && Content(disk, p) == disk.lstat(p)
      ensures HasUnchangedRow(disk, s'.rows, p) <==> Matches(disk, p)
    {
      EmptyTableRow(disk, s, s', run, p);
    }
  }

  /** Every available row left by a Scan of an empty table describes what its path resolves to. */
  lemma EmptyTableDescribes(disk: Disk, s: State, s': State, run: Run, id: ID)
    requires ValidDisk(disk) && ValidState(s) && IsRun(disk, s, s', run) && s.rows == map[]
    requires id in s'.rows && s'.rows[id].available
    ensures Describes(disk, s'.rows[id])
  {
    hide Describes;
    RunKeeps(disk, s, s', run);
    assert !Same(s, run.marked[0], id);
    assert Describes(disk, run.marked[0].rows[id]);
    assert s'.rows[id] == run.marked[0].rows[id];
  }

  lemma EmptyTableRow(disk: Disk, s: State, s': State, run: Run, p: Path)
    requires ValidDisk(disk) && ValidState(s) && IsRun(disk, s, s', run) && s.rows == map[] && p in disk.walk
    ensures HasOwnRow(disk, s'.rows, p) <==> Indexable(disk, p) && Content(disk, p) == disk.lstat(p)
    ensures HasUnchangedRow(disk, s'.rows, p) <==> Matches(disk, p)
  {
    hide IsRun;
    if HasOwnRow(disk, s'.rows, p) {
      var id :| id in s'.rows && CarriesOwn(disk, p, s'.rows[id]);
      EmptyTableDescribes(disk, s, s', run, id);
    }
    if HasUnchangedRow(disk, s'.rows, p) {
      var id :| id in s'.rows && s'.rows[id].path == p && Unchanged(disk, p, s'.rows[id]);
      EmptyTableDescribes(disk, s, s', run, id);
    }
    if Indexable(disk, p) {
      EmptyTableAt(disk, s, s', run, p);
      var id :| id in s'.rows && s'.rows[id].path == p && s'.rows[id].available;
      EmptyTableDescribes(disk, s, s', run, id);
      assert Content(disk, p).digest != "";
    }
  }

  lemma EmptyTableAt(disk: Disk, s: State, s': State, run: Run, p: Path)
    requires ValidDisk(disk) && ValidState(s) && IsRun(disk, s, s', run) && s.rows == map[]
    ensures Online(s'.rows, p) <==> p in disk.walk && Indexable(disk, p)
  {
    if Online(s'.rows, p) {
      var id :| id in s'.rows && s'.rows[id].path == p && s'.rows[id].available;
      AvailableIsSeen(disk, s, s', run, id);
      RunKeeps(disk, s, s', run);
      assert !Same(s, run.marked[0], id);
    }
    if p in disk.walk && Indexable(disk, p) {
      SeenIsServed(disk, s, s', run, p);
    }
  }

  /** Replaying the events of a Scan onto the ids available before gives the ids available after, plus exactly the
      previously available ids whose rows were displaced by an adopted id: those get no Delete. */
  lemma ReplayGivesAvailable(disk: Disk, s: State, s': State, run: Run)
    requires ValidDisk(disk) && ValidState(s) && IsRun(disk, s, s', run)
    ensures s.events <= s'.events
    ensures Replay(Available(s.rows), s'.events[|s.events|..]) == Available(s'.rows) + Dropped(s.rows, s'.rows)
    ensures forall id <- Dropped(s.rows, s'.rows) :: exists a :: Displaced(s, s', id, a)
  {
    RunKeeps(disk, s, s', run);
    var s1 := run.marked[0];
    forall id | id in Dropped(s.rows, s'.rows)
      ensures exists a :: Displaced(s, s', id, a)
    {
      var a :| Displaced(s, s1, id, a);
      assert s'.rows[a].path == s1.rows[a].path;
      assert Displaced(s, s', id, a);
    }
  }

  /** An id changes path only if its row was missing or its path no longer resolves; it keeps its visibility. */
  lemma NeverTaken(disk: Disk, s: State, s': State, run: Run, id: ID)
    requires ValidDisk(disk) && ValidState(s) && IsRun(disk, s, s', run)
    requires id in s.rows && id in s'.rows
    ensures s.rows[id].available && disk.resolve(s.rows[id].path).Some? ==> s'.rows[id].path == s.rows[id].path
    ensures s'.rows[id].visibility == s.rows[id].visibility
              || (s.rows[id].visibility == "" && s'.rows[id].visibility == PUBLIC)
  {
    RunKeeps(disk, s, s', run);
    assert s'.rows[id].path == run.marked[0].rows[id].path;
  }

  // ----- a second Scan changes nothing -----

  /** Nothing for a Scan of this disk to do, except to look again at files it cannot index. */
  ghost predicate Settled(disk: Disk, rows: Rows) {
    && (forall id <- rows :: rows[id].available ==> rows[id].path in disk.walk)
    && (forall p <- disk.walk :: Indexable(disk, p) ==> HasUnchangedRow(disk, rows, p))
  }

  /** The path was left alone because its known row described it, or what it resolves to has its size and time. */
  predicate Settles(disk: Disk, known: map<Path, Record>, p: Path) {
    Skipped(disk, known, p) || Matches(disk, p)
  }

  /** After a Scan from any table, the next Scan finds the row of an indexable visible file unchanged exactly when this
      one skipped the file or what its path resolves to has its size and time. */
  lemma SettlesExactly(disk: Disk, s: State, s': State, run: Run, p: Path)
    requires ValidDisk(disk) && ValidState(s) && IsRun(disk, s, s', run)
    requires p in disk.walk && Indexable(disk, p)
    ensures HasUnchangedRow(disk, s'.rows, p) <==> Settles(disk, run.known, p)
  {
    SeenIsServed(disk, s, s', run, p);
    RunKeeps(disk, s, s', run);
    hide IsRun, Walked, Swept;
    var id :| id in s'.rows && s'.rows[id].path == p && s'.rows[id].available
      && (Describes(disk, s'.rows[id]) || (Skipped(disk, run.known, p) && s'.rows[id] == run.known[p]));
    assert ValidState(s') by { ScanMirrorsDisk(disk, s, s', run); }
    assert Content(disk, p).digest != "";
    if Skipped(disk, run.known, p) && !Matches(disk, p) {
      SkippedStays(disk, s, s', run, p);
    }
  }

  /** A skipped file that can be indexed keeps its known row. */
  lemma SkippedStays(disk: Disk, s: State, s': State, run: Run, p: Path)
    requires ValidDisk(disk) && ValidState(s) && IsRun(disk, s, s', run)
    requires p in disk.walk && Indexable(disk, p) && Skipped(disk, run.known, p)
    ensures HasUnchangedRow(disk, s'.rows, p)
  {
    SkippedInWalk(disk, s, run, p, |disk.walk|);
    RunKeeps(disk, s, s', run);
    hide Walked;
    var id := run.known[p].id;
    var s1 := run.marked[0];
    assert s1.rows[id] == run.known[p];
    assert s'.rows[id] == s1.rows[id];
  }

  lemma {:induction false} SkippedInWalk(disk: Disk, s: State, run: Run, p: Path, n: nat)
    requires ValidDisk(disk) && ValidState(s) && n <= |disk.walk| && IsWalk(disk, run.known, run.walked, |disk.walk|)
    requires KnownOf(s.rows, run.known) && run.walked[0] == s
    requires p in disk.walk && Indexable(disk, p) && Skipped(disk, run.known, p)
    ensures var id := run.known[p].id; id in run.walked[n].rows && run.walked[n].rows[id] == run.known[p]
  {
    if n > 0 {
      SkippedInWalk(disk, s, run, p, n - 1);
      var q := disk.walk[n - 1];
      assert FileStep(disk, run.known, q, run.walked[n - 1], run.walked[n]);
      if !Skipped(disk, run.known, q) && Indexable(disk, q) {
        WalkKeeps(disk, run.known, run.walked, |disk.walk|, n - 1);
        var cand, saved := ReindexWrites(disk, q, run.walked[n - 1], run.walked[n]);
      }
    }
  }

  lemma ScanSettles(disk: Disk, s: State, s': State, run: Run)
    requires ValidDisk(disk) && ValidState(s) && IsRun(disk, s, s', run)
    ensures ValidState(s')
    ensures Settled(disk, s'.rows) <==> forall p <- disk.walk :: Indexable(disk, p) ==> Settles(disk, run.known, p)
  {
    hide IsRun, Settles, HasUnchangedRow, Indexable;
    ScanMirrorsDisk(disk, s, s', run);
    forall p | p in disk.walk && Indexable(disk, p)
      ensures HasUnchangedRow(disk, s'.rows, p) <==> Settles(disk, run.known, p)
    {
      SettlesExactly(disk, s, s', run, p);
    }
  }

  lemma {:induction false} SettledWalk(disk: Disk, known: map<Path, Record>, states: seq<State>, n: nat)
    requires IsWalk(disk, known, states, |disk.walk|) && n <= |disk.walk|
    requires ValidState(states[0]) && KnownOf(states[0].rows, known) && Settled(disk, states[0].rows)
    ensures states[n] == states[0]
  {
    if n > 0 {
      SettledWalk(disk, known, states, n - 1);
      var p := disk.walk[n - 1];
      if Indexable(disk, p) {
        var id :| id in states[0].rows && states[0].rows[id].path == p && Unchanged(disk, p, states[0].rows[id]);
        assert Skipped(disk, known, p);
      }
    }
  }

  /** Equal but for when unavailable rows were last looked at. */
  ghost predicate SameButLooks(a: Rows, b: Rows) {
    && a.Keys == b.Keys
    && forall id <- a :: b[id] == if a[id].available then a[id] else a[id].(indexedAt := b[id].indexedAt)
  }

  lemma {:induction false} SettledSweep(disk: Disk, known: map<Path, Record>, gone: seq<Path>, states: seq<State>,
                                        n: nat)
    requires IsSweep(disk, known, gone, states) && n <= |gone|
    requires ValidState(states[0]) && KnownOf(states[0].rows, known) && Settled(disk, states[0].rows)
    ensures states[n].events == states[0].events && states[n].used == states[0].used
    ensures SameButLooks(states[0].rows, states[n].rows)
  {
    if n > 0 {
      SettledSweep(disk, known, gone, states, n - 1);
      var p := gone[n - 1];
      assert GoneStep(known, p, states[n - 1], states[n]);
      assert !known[p].available by {
        assert known[p].path == p;
      }
      forall id | id in states[0].rows && states[0].rows[id].available
        ensures states[0].rows[id].path != p
      {
      }
    }
  }

  /** A Scan right after a Scan of the same disk skips every indexable file, emits nothing and changes at most when
      unavailable rows were looked at, provided the first Scan settled every file; and where it did not, the second Scan
      writes the file's row anew. */
  lemma ScanIsIdempotent(disk: Disk, s: State, s1: State, run1: Run, s2: State, run2: Run)
    requires ValidDisk(disk) && ValidState(s)
    requires IsRun(disk, s, s1, run1) && IsRun(disk, s1, s2, run2)
    ensures forall p <- disk.walk :: Indexable(disk, p) ==>
              (Skipped(disk, run2.known, p) <==> Settles(disk, run1.known, p))
    ensures (forall p <- disk.walk :: Indexable(disk, p) ==> Settles(disk, run1.known, p)) ==>
              s2.events == s1.events && s2.used == s1.used && SameButLooks(s1.rows, s2.rows)
  {
    ScanSettles(disk, s, s1, run1);
    forall p | p in disk.walk && Indexable(disk, p)
      ensures Skipped(disk, run2.known, p) <==> Settles(disk, run1.known, p)
    {
      SettlesExactly(disk, s, s1, run1, p);
      SkippedMeansUnchanged(disk, s1, run2.known, p);
    }
    if forall p <- disk.walk :: Indexable(disk, p) ==> Settles(disk, run1.known, p) {
      SettledWalk(disk, run2.known, run2.walked, |disk.walk|);
      SettledSweep(disk, run2.known, run2.gone, run2.marked, |run2.gone|);
    }
  }

  lemma SkippedMeansUnchanged(disk: Disk, s: State, known: map<Path, Record>, p: Path)
    requires ValidState(s) && KnownOf(s.rows, known)
    ensures Skipped(disk, known, p) <==> HasUnchangedRow(disk, s.rows, p)
  {
    if HasUnchangedRow(disk, s.rows, p) {
      var id :| id in s.rows && s.rows[id].path == p && Unchanged(disk, p, s.rows[id]);
      assert known[p] == s.rows[id];
    }
  }

  // ----- a moved file keeps its id -----

  function ChangesOf(log: seq<Change>, id: ID): seq<Change> {
    if log == [] then []
    else ChangesOf(log[..|log| - 1], id) + if log[|log| - 1].rec.id == id then [log[|log| - 1]] else []
  }

  lemma ChangesOfNext(before: seq<Change>, log: seq<Change>, c: Change, id: ID)
    requires before <= log
    ensures before <= log + [c]
    ensures ChangesOf((log + [c])[|before|..], id) ==
            ChangesOf(log[|before|..], id) + if c.rec.id == id then [c] else []
  {
    var all := (log + [c])[|before|..];
    assert all[..|all| - 1] == log[|before|..];
  }

  /** The walk re-indexes `p` and finds content `hash` there. */
  ghost predicate Takes(disk: Disk, known: map<Path, Record>, p: Path, hash: ContentID) {
    !Skipped(disk, known, p) && Indexable(disk, p) && HashOf(Content(disk, p)) == hash
  }

  /** Rows with this content, other than `m`, are available at paths that resolve. */
  ghost predicate OthersInPlace(disk: Disk, rows: Rows, hash: ContentID, m: ID) {
    forall id <- rows :: id != m && rows[id].hash == hash ==> rows[id].available && disk.resolve(rows[id].path).Some?
  }

  /** `m` lost its file and is the only row with its content that a new copy could continue. */
  ghost predicate Orphan(disk: Disk, rows: Rows, m: ID) {
    && m in rows && rows[m].available && disk.resolve(rows[m].path).None?
    && OthersInPlace(disk, rows, rows[m].hash, m)
  }

  /** Before the first copy is met, `m` waits untouched. */
  ghost predicate Waiting(disk: Disk, s0: State, m: ID, s: State) {
    && ValidState(s) && s0.events <= s.events && Orphan(disk, s0.rows, m) && Same(s0, s, m)
    && OthersInPlace(disk, s.rows, s0.rows[m].hash, m)
    && ChangesOf(s.events[|s0.events|..], m) == []
  }

  lemma WaitingStep(disk: Disk, known: map<Path, Record>, s0: State, m: ID, p: Path, s: State, s': State)
    requires Waiting(disk, s0, m, s) && FileStep(disk, known, p, s, s') && !Takes(disk, known, p, s0.rows[m].hash)
    ensures Waiting(disk, s0, m, s')
  {
    hide ChangesOf, Reindex;
    if !Skipped(disk, known, p) && Indexable(disk, p) {
      var cand, saved := ReindexWrites(disk, p, s, s');
      assert saved.id != m;
      Unconcerned(s0, m, s, s', saved);
    }
  }

  lemma Unconcerned(s0: State, m: ID, s: State, s': State, saved: Record)
    requires s0.events <= s.events && saved.id != m
    requires s'.events == s.events + ChangeFor(if saved.id in s.rows then Some(s.rows[saved.id]) else None, saved)
    ensures s0.events <= s'.events
    ensures ChangesOf(s'.events[|s0.events|..], m) == ChangesOf(s.events[|s0.events|..], m)
  {
    var prev := if saved.id in s.rows then Some(s.rows[saved.id]) else None;
    if Quiet(prev, saved) {
      assert s'.events == s.events;
    } else {
      ChangesOfNext(s0.events, s.events, ChangeFor(prev, saved)[0], m);
    }
  }

  /** After the first copy is met at `home`, `m` lives there, announced by a single Update. */
  ghost predicate Rehomed(disk: Disk, s0: State, m: ID, home: Path, s: State) {
    && ValidState(s) && s0.events <= s.events
    && m in s0.rows && m in s.rows && s.rows[m].path == home && s.rows[m].available && Indexable(disk, home)
    && OthersInPlace(disk, s.rows, s0.rows[m].hash, m)
    && var mine := ChangesOf(s.events[|s0.events|..], m);
    && |mine| == 1 && mine[0].kind == Update && mine[0].rec.path == home
  }

  lemma TakingStep(disk: Disk, known: map<Path, Record>, s0: State, m: ID, p: Path, s: State, s': State)
    requires Waiting(disk, s0, m, s) && FileStep(disk, known, p, s, s') && Takes(disk, known, p, s0.rows[m].hash)
    ensures Rehomed(disk, s0, m, p, s')
  {
    var cand, saved := ReindexWrites(disk, p, s, s');
    assert Stale(disk, s.rows[m], p);
    assert cand.Some? && cand.value.id == m;
    ChangesOfNext(s0.events, s.events, Change(Update, saved), m);
  }

  lemma RehomedStep(disk: Disk, known: map<Path, Record>, s0: State, m: ID, home: Path, p: Path, s: State, s': State)
    requires Rehomed(disk, s0, m, home, s) && FileStep(disk, known, p, s, s') && p != home
    ensures Rehomed(disk, s0, m, home, s')
  {
    hide ChangesOf, Reindex;
    if !Skipped(disk, known, p) && Indexable(disk, p) {
      var cand, saved := ReindexWrites(disk, p, s, s');
      assert saved.id != m;
      Unconcerned(s0, m, s, s', saved);
    }
  }

  lemma {:induction false} MoveInWalk(disk: Disk, known: map<Path, Record>, states: seq<State>, m: ID, j: nat, n: nat)
    requires ValidDisk(disk) && IsWalk(disk, known, states, |disk.walk|) && ValidState(states[0])
    requires Orphan(disk, states[0].rows, m) && j < |disk.walk| && n <= |disk.walk|
    requires Takes(disk, known, disk.walk[j], states[0].rows[m].hash)
    requires forall i :: 0 <= i < j ==> !Takes(disk, known, disk.walk[i], states[0].rows[m].hash)
    ensures if n <= j then Waiting(disk, states[0], m, states[n])
            else Rehomed(disk, states[0], m, disk.walk[j], states[n])
  {
    if n == 0 {
      assert states[0].events[|states[0].events|..] == [];
    } else {
      MoveInWalk(disk, known, states, m, j, n - 1);
      var p := disk.walk[n - 1];
      assert FileStep(disk, known, p, states[n - 1], states[n]);
      if n <= j {
        WaitingStep(disk, known, states[0], m, p, states[n - 1], states[n]);
      } else if n == j + 1 {
        TakingStep(disk, known, states[0], m, p, states[n - 1], states[n]);
      } else {
        RehomedStep(disk, known, states[0], m, disk.walk[j], p, states[n - 1], states[n]);
      }
    }
  }

  lemma {:induction false} MoveInSweep(disk: Disk, s0: State, run: Run, m: ID, home: Path, n: nat)
    requires IsSweep(disk, run.known, run.gone, run.marked) && n <= |run.gone|
    requires KnownOf(s0.rows, run.known) && home in disk.walk && Rehomed(disk, s0, m, home, run.marked[0])
    requires s0.rows[m].path != home
    ensures var s := run.marked[n];
      && s0.events <= s.events && m in s.rows && s.rows[m] == run.marked[0].rows[m]
      && ChangesOf(s.events[|s0.events|..], m) == ChangesOf(run.marked[0].events[|s0.events|..], m)
  {
    if n > 0 {
      MoveInSweep(disk, s0, run, m, home, n - 1);
      var p := run.gone[n - 1];
      var rec := run.known[p];
      assert GoneStep(run.known, p, run.marked[n - 1], run.marked[n]);
      if !MovedAway(run.marked[n - 1].rows, rec) {
        if rec.available {
          ChangesOfNext(s0.events, run.marked[n - 1].events, Change(Delete, rec.(available := false)), m);
        } else {
          assert run.marked[n].events == run.marked[n - 1].events;
        }
      }
    }
  }

  /** A moved file keeps its id. If the path of the available row `m` is gone, no other row with its content is missing
      or stale, and the first re-indexed path with that content is the j-th of the walk, then `m` ends up available
      there, and the only thing the Scan says about it is one Update. */
  lemma MoveKeepsId(disk: Disk, s: State, s': State, run: Run, m: ID, j: nat)
    requires ValidDisk(disk) && ValidState(s) && IsRun(disk, s, s', run)
    requires Orphan(disk, s.rows, m) && j < |disk.walk|
    requires Takes(disk, run.known, disk.walk[j], s.rows[m].hash)
    requires forall i :: 0 <= i < j ==> !Takes(disk, run.known, disk.walk[i], s.rows[m].hash)
    ensures m in s'.rows && s'.rows[m].path == disk.walk[j] && s'.rows[m].available
    ensures s.events <= s'.events
    ensures var mine := ChangesOf(s'.events[|s.events|..], m);
      |mine| == 1 && mine[0].kind == Update && mine[0].rec.path == disk.walk[j]
  {
    MoveInWalk(disk, run.known, run.walked, m, j, |disk.walk|);
    MoveInSweep(disk, s, run, m, disk.walk[j], |run.gone|);
  }

  /** The available row at `p` was there before or has an id never stored before. */
  ghost predicate OwnRow(s0: State, rows: Rows, p: Path) {
    exists id :: id in rows && rows[id].path == p && rows[id].available
      && if id in s0.rows then s0.rows[id].path == p else id !in s0.used
  }

  lemma CopyStep(disk: Disk, known: map<Path, Record>, s0: State, m: ID, home: Path, n: nat, s: State, s': State)
    requires ValidState(s0) && n < |disk.walk| && Tracked(disk, s0, n, s) && Rehomed(disk, s0, m, home, s)
    requires disk.walk[n] !in disk.walk[..n] && disk.walk[n] != home
    requires FileStep(disk, known, disk.walk[n], s, s') && Takes(disk, known, disk.walk[n], s0.rows[m].hash)
    ensures OwnRow(s0, s'.rows, disk.walk[n])
  {
    var p := disk.walk[n];
    var cand, saved := ReindexWrites(disk, p, s, s');
    assert cand.Some? ==> cand.value.path == p;
    if saved.id in s.rows {
      assert s.rows[saved.id].path == p;
      assert Same(s0, s, saved.id);
    }
    assert saved.id in s'.rows;
  }

  lemma OwnRowStep(disk: Disk, known: map<Path, Record>, s0: State, q: Path, p: Path, s: State, s': State)
    requires ValidState(s) && FileStep(disk, known, p, s, s')
    requires p != q && Indexable(disk, q) && OwnRow(s0, s.rows, q)
    ensures OwnRow(s0, s'.rows, q)
  {
    if !Skipped(disk, known, p) && Indexable(disk, p) {
      var cand, saved := ReindexWrites(disk, p, s, s');
      var id :| id in s.rows && s.rows[id].path == q && s.rows[id].available
        && if id in s0.rows then s0.rows[id].path == q else id !in s0.used;
      assert id in s'.rows && s'.rows[id] == s.rows[id];
    }
  }

  lemma {:induction false} CopyStays(disk: Disk, known: map<Path, Record>, s0: State, states: seq<State>, q: Path,
                                     k: nat, n: nat)
    requires k <= n < |states| && n <= |disk.walk| && Indexable(disk, q)
    requires forall i :: k <= i < n ==>
      ValidState(states[i]) && disk.walk[i] != q && FileStep(disk, known, disk.walk[i], states[i], states[i + 1])
    requires OwnRow(s0, states[k].rows, q)
    ensures OwnRow(s0, states[n].rows, q)
  {
    hide OwnRow, FileStep, ValidState;
    if n > k {
      CopyStays(disk, known, s0, states, q, k, n - 1);
      OwnRowStep(disk, known, s0, q, disk.walk[n - 1], states[n - 1], states[n]);
    }
  }

  /** Further copies of a moved file do not get its id: each has the row it had before, or a fresh id. */
  lemma CopiesGetOwnIds(disk: Disk, s: State, s': State, run: Run, m: ID, j: nat, k: nat)
    requires ValidDisk(disk) && ValidState(s) && IsRun(disk, s, s', run)
    requires Orphan(disk, s.rows, m) && j < k < |disk.walk|
    requires Takes(disk, run.known, disk.walk[j], s.rows[m].hash)
               && Takes(disk, run.known, disk.walk[k], s.rows[m].hash)
    requires forall i :: 0 <= i < j ==> !Takes(disk, run.known, disk.walk[i], s.rows[m].hash)
    ensures OwnRow(s, s'.rows, disk.walk[k])
  {
    hide FileStep, OwnRow, Orphan, ValidState, ValidDisk;
    CopyAppears(disk, s, s', run, m, j, k);
    forall i | 0 <= i <= |disk.walk| ensures ValidState(run.walked[i]) {
      WalkStateIsValid(disk, s, s', run, i);
    }
    assert forall i :: k < i < |disk.walk| ==> disk.walk[i] != disk.walk[k] by {
      WalkIsDistinct(disk);
    }
    CopyStays(disk, run.known, s, run.walked, disk.walk[k], k + 1, |disk.walk|);
    OwnRowSurvives(disk, s, s', run, disk.walk[k]);
  }

  lemma WalkIsDistinct(disk: Disk)
    requires ValidDisk(disk)
    ensures forall i, j :: 0 <= i < j < |disk.walk| ==> disk.walk[i] != disk.walk[j]
  {
  }

  lemma WalkStateIsValid(disk: Disk, s: State, s': State, run: Run, i: nat)
    requires ValidDisk(disk) && ValidState(s) && IsRun(disk, s, s', run) && i <= |disk.walk|
    ensures ValidState(run.walked[i])
  {
    WalkKeeps(disk, run.known, run.walked, |disk.walk|, i);
  }

  lemma CopyAppears(disk: Disk, s: State, s': State, run: Run, m: ID, j: nat, k: nat)
    requires ValidDisk(disk) && ValidState(s) && IsRun(disk, s, s', run)
    requires Orphan(disk, s.rows, m) && j < k < |disk.walk|
    requires Takes(disk, run.known, disk.walk[j], s.rows[m].hash)
               && Takes(disk, run.known, disk.walk[k], s.rows[m].hash)
    requires forall i :: 0 <= i < j ==> !Takes(disk, run.known, disk.walk[i], s.rows[m].hash)
    ensures OwnRow(s, run.walked[k + 1].rows, disk.walk[k])
  {
    hide Takes, OwnRow, Orphan;
    WalkKeeps(disk, run.known, run.walked, |disk.walk|, k);
    MoveInWalk(disk, run.known, run.walked, m, j, k);
    assert FileStep(disk, run.known, disk.walk[k], run.walked[k], run.walked[k + 1]);
    CopyStep(disk, run.known, s, m, disk.walk[j], k, run.walked[k], run.walked[k + 1]);
  }

  lemma OwnRowSurvives(disk: Disk, s: State, s': State, run: Run, p: Path)
    requires ValidDisk(disk) && ValidState(s) && IsRun(disk, s, s', run)
    requires p in disk.walk && OwnRow(s, run.marked[0].rows, p)
    ensures OwnRow(s, s'.rows, p)
  {
    hide Walked;
    RunKeeps(disk, s, s', run);
    var s1 := run.marked[0];
    var id :| id in s1.rows && s1.rows[id].path == p && s1.rows[id].available
      && if id in s.rows then s.rows[id].path == p else id !in s.used;
    assert id in s'.rows && s'.rows[id] == s1.rows[id];
  }
}
