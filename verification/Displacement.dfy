/** Which rows a Scan displaces: the available rows that leave the table without a Delete. */
module Displacement {
  import opened FileStore
  import opened Indexer
  import opened IndexerLaws
  import opened ScanLaws
  import opened Wrappers

  /** `moveCandidate` prefers some row to the one already at `p`: it has the content found there and is missing, or
      available at a path that no longer resolves. */
  ghost predicate Outranked(disk: Disk, rows: Rows, p: Path)
    requires Indexable(disk, p)
  {
    exists id :: id in rows && rows[id].hash == HashOf(Content(disk, p))
        && (Missing(rows[id], p) || Stale(disk, rows[id], p))
  }

  /** Re-indexing a path removes the row at it exactly when moveCandidate prefers another. */
  lemma DisplacedByReindex(disk: Disk, p: Path, s: State, s': State, id: ID)
    requires ValidState(s) && Reindex(disk, p, s, s') && id in s.rows && s.rows[id].path == p
    ensures id !in s'.rows <==> Outranked(disk, s.rows, p)
  {
    var cand, saved := ReindexWrites(disk, p, s, s');
    hide Wrote, Describes;
    assert RowAt(s.rows, p) == Some(s.rows[id]);
    assert s'.rows == Put(s.rows, saved) && saved.path == p;
    assert id in s'.rows <==> saved.id == id;
  }

  /** A row elsewhere with the content that was marked missing. */
  predicate LostElsewhere(rows: Rows, id: ID, p: Path, hash: ContentID) {
    id in rows && rows[id].hash == hash && rows[id].path != p && !rows[id].available
  }

  /** A row elsewhere with the content that is available although its path resolves to nothing. */
  predicate StrandedElsewhere(disk: Disk, rows: Rows, id: ID, p: Path, hash: ContentID) {
    && id in rows && rows[id].hash == hash && rows[id].path != p && rows[id].available
    && disk.resolve(rows[id].path).None?
  }

  /** Row `id` may be continued at `p`: one with the content elsewhere, a missing one before a stale one; failing that
      the row at the path; and failing that a row with an id never stored before. */
  ghost predicate Continues(disk: Disk, s: State, p: Path, hash: ContentID, id: ID) {
    if exists a :: LostElsewhere(s.rows, a, p, hash) then LostElsewhere(s.rows, id, p, hash)
    else if exists a :: StrandedElsewhere(disk, s.rows, a, p, hash) then StrandedElsewhere(disk, s.rows, id, p, hash)
    else if HasPath(s.rows, p) then id == IdAt(s.rows, p) else id !in s.used
  }

  /** Which id a re-indexed path ends up with. */
  lemma ContinuesExactly(disk: Disk, p: Path, s: State, s': State) returns (id: ID)
    requires ValidState(s) && Reindex(disk, p, s, s')
    ensures id in s'.rows && s'.rows[id].path == p && s'.rows[id].available
    ensures s'.rows[id].hash == HashOf(Content(disk, p)) && Continues(disk, s, p, s'.rows[id].hash, id)
  {
    var cand, saved := ReindexWrites(disk, p, s, s');
    id := saved.id;
    assert saved.hash == HashOf(Content(disk, p)) && saved.path == p && saved.available && s'.rows[id] == saved;
    hide Wrote, Describes;
    var prev := Previous(s.rows, p, cand);
    assert prev.Some? ==> prev.value.id == id;
    assert prev.None? ==> id !in s.used;
    CandidateContinues(disk, s, p, saved.hash, cand, id);
  }

  lemma CandidateContinues(disk: Disk, s: State, p: Path, hash: ContentID, cand: Option<Record>, id: ID)
    requires ValidState(s) && IsCandidate(disk, s.rows, p, hash, cand)
    requires var prev := Previous(s.rows, p, cand); if prev.Some? then id == prev.value.id else id !in s.used
    ensures Continues(disk, s, p, hash, id)
  {
    assert forall a :: LostElsewhere(s.rows, a, p, hash) ==> Missing(s.rows[a], p);
    assert forall a :: StrandedElsewhere(disk, s.rows, a, p, hash) ==> Stale(disk, s.rows[a], p);
    if cand.Some? {
      var rec := s.rows[id];
      assert rec == cand.value;
      if rec.path == p {
        assert HasPath(s.rows, p);
        assert s.rows[IdAt(s.rows, p)].path == p;
        assert forall a :: !LostElsewhere(s.rows, a, p, hash) && !StrandedElsewhere(disk, s.rows, a, p, hash);
      } else {
        assert LostElsewhere(s.rows, id, p, hash) || StrandedElsewhere(disk, s.rows, id, p, hash);
      }
    }
  }

  lemma TrackedAt(disk: Disk, known: map<Path, Record>, states: seq<State>, n: nat)
    requires ValidDisk(disk) && IsWalk(disk, known, states, |disk.walk|) && n <= |disk.walk|
    requires ValidState(states[0]) && KnownOf(states[0].rows, known)
    ensures Tracked(disk, states[0], n, states[n])
  {
    WalkKeeps(disk, known, states, |disk.walk|, n);
  }

  /** The walk leaves the row of an available id in place until its path is re-indexed. */
  lemma WaitsForItsPath(disk: Disk, known: map<Path, Record>, states: seq<State>, id: ID, i: nat)
    requires ValidDisk(disk) && IsWalk(disk, known, states, |disk.walk|) && i < |disk.walk|
    requires ValidState(states[0]) && KnownOf(states[0].rows, known) && id in states[0].rows
    requires states[0].rows[id].available && states[0].rows[id].path == disk.walk[i] && Indexable(disk, disk.walk[i])
    ensures ValidState(states[i]) && Same(states[0], states[i], id)
  {
    WalkKeeps(disk, known, states, |disk.walk|, i);
    hide Describes, SameVisibility, Announced, AllServed;
    assert disk.walk[i] !in disk.walk[..i];
    assert id in states[i].rows;
    assert states[i].rows[id].path == disk.walk[i];
  }

  /** A row that leaves the table during the walk leaves it when its own path is re-indexed. */
  lemma {:induction false} LeavesAtItsPath(disk: Disk, known: map<Path, Record>, states: seq<State>, id: ID, n: nat)
    requires ValidDisk(disk) && IsWalk(disk, known, states, |disk.walk|) && n <= |disk.walk|
    requires ValidState(states[0]) && KnownOf(states[0].rows, known) && id in states[0].rows && id !in states[n].rows
    ensures exists i :: 0 <= i < n && disk.walk[i] == states[0].rows[id].path && id in states[i].rows
              && id !in states[i + 1].rows
    decreases n
  {
    if n > 0 {
      hide ValidDisk, ValidState, KnownOf, FileStep;
      if id !in states[n - 1].rows {
        LeavesAtItsPath(disk, known, states, id, n - 1);
        hide IsWalk;
      } else {
        LeavesHere(disk, known, states, id, n - 1);
        hide IsWalk;
      }
    }
  }

  lemma LeavesHere(disk: Disk, known: map<Path, Record>, states: seq<State>, id: ID, i: nat)
    requires ValidDisk(disk) && IsWalk(disk, known, states, |disk.walk|) && i < |disk.walk|
    requires ValidState(states[0]) && KnownOf(states[0].rows, known) && id in states[0].rows
    requires id in states[i].rows && id !in states[i + 1].rows
    ensures disk.walk[i] == states[0].rows[id].path
  {
    WalkKeeps(disk, known, states, |disk.walk|, i);
    assert FileStep(disk, known, disk.walk[i], states[i], states[i + 1]);
    var cand, saved := ReindexWrites(disk, disk.walk[i], states[i], states[i + 1]);
    hide Describes, SameVisibility, Announced, AllServed;
    assert states[i].rows[id].path == disk.walk[i];
    assert disk.walk[i] !in disk.walk[..i];
    assert Same(states[0], states[i], id);
  }

  /** At its `i`-th file the walk re-indexes the path of row `id` while moveCandidate prefers another row. */
  ghost predicate DisplacedAt(disk: Disk, s: State, run: Run, id: ID, i: int)
    requires id in s.rows && |run.walked| == |disk.walk| + 1
  {
    && 0 <= i < |disk.walk| && disk.walk[i] == s.rows[id].path
    && !Skipped(disk, run.known, disk.walk[i]) && Indexable(disk, disk.walk[i])
    && Outranked(disk, run.walked[i].rows, disk.walk[i])
  }

  lemma GoneIsDisplaced(disk: Disk, s: State, run: Run, id: ID) returns (i: nat)
    requires ValidDisk(disk) && ValidState(s) && KnownOf(s.rows, run.known)
    requires IsWalk(disk, run.known, run.walked, |disk.walk|) && run.walked[0] == s
    requires id in s.rows && s.rows[id].available && id !in run.walked[|disk.walk|].rows
    ensures DisplacedAt(disk, s, run, id, i)
  {
    LeavesAtItsPath(disk, run.known, run.walked, id, |disk.walk|);
    i :| 0 <= i < |disk.walk| && disk.walk[i] == s.rows[id].path && id in run.walked[i].rows
      && id !in run.walked[i + 1].rows;
    assert FileStep(disk, run.known, disk.walk[i], run.walked[i], run.walked[i + 1]);
    hide IsWalk, Reindex, Outranked, ValidDisk;
    WaitsForItsPath(disk, run.known, run.walked, id, i);
    DisplacedByReindex(disk, disk.walk[i], run.walked[i], run.walked[i + 1], id);
  }

  lemma DisplacedIsGone(disk: Disk, s: State, run: Run, id: ID, i: nat)
    requires ValidDisk(disk) && ValidState(s) && KnownOf(s.rows, run.known)
    requires IsWalk(disk, run.known, run.walked, |disk.walk|) && run.walked[0] == s
    requires id in s.rows && s.rows[id].available && DisplacedAt(disk, s, run, id, i)
    ensures id !in run.walked[|disk.walk|].rows
  {
    assert FileStep(disk, run.known, disk.walk[i], run.walked[i], run.walked[i + 1]);
    hide IsWalk, Reindex, Outranked, ValidDisk;
    WaitsForItsPath(disk, run.known, run.walked, id, i);
    DisplacedByReindex(disk, disk.walk[i], run.walked[i], run.walked[i + 1], id);
    GoneStaysGone(disk, run.known, run.walked, id, i + 1, |disk.walk|);
  }

  /** Exactly which available rows a Scan displaces, told when their path is reached: those whose path is re-indexed
      while moveCandidate prefers another row. */
  lemma DisplacedExactly(disk: Disk, s: State, s': State, run: Run, id: ID)
    requires ValidDisk(disk) && ValidState(s) && IsRun(disk, s, s', run)
    requires id in s.rows && s.rows[id].available
    ensures id in Dropped(s.rows, s'.rows) <==> exists i :: DisplacedAt(disk, s, run, id, i)
  {
    SweepKeepsIds(disk, s, s', run);
    hide IsWalk, IsSweep, DisplacedAt, ValidDisk;
    if id !in s'.rows {
      var i := GoneIsDisplaced(disk, s, run, id);
    }
    if i :| DisplacedAt(disk, s, run, id, i) {
      assert 0 <= i by { DisplacedInWalk(disk, s, run, id, i); }
      DisplacedIsGone(disk, s, run, id, i);
    }
  }

  lemma SweepKeepsIds(disk: Disk, s: State, s': State, run: Run)
    requires ValidDisk(disk) && ValidState(s) && IsRun(disk, s, s', run)
    ensures s'.rows.Keys == run.walked[|disk.walk|].rows.Keys
  {
    hide Walked;
    RunKeeps(disk, s, s', run);
  }

  lemma DisplacedInWalk(disk: Disk, s: State, run: Run, id: ID, i: int)
    requires id in s.rows && |run.walked| == |disk.walk| + 1 && DisplacedAt(disk, s, run, id, i)
    ensures 0 <= i < |disk.walk|
  {
  }

  lemma GoneStaysGoneStep(disk: Disk, known: map<Path, Record>, p: Path, s0: State, n: nat, s: State, s': State, id: ID)
    requires n <= |disk.walk| && Tracked(disk, s0, n, s) && FileStep(disk, known, p, s, s')
    requires id in s0.used && id !in s.rows
    ensures id !in s'.rows
  {
    if !Skipped(disk, known, p) && Indexable(disk, p) {
      var cand, saved := ReindexWrites(disk, p, s, s');
    }
  }

  lemma {:induction false} OnceGone(states: seq<State>, id: ID, k: nat, n: nat)
    requires k <= n < |states| && id !in states[k].rows
    requires forall i :: k <= i < n && id !in states[i].rows ==> id !in states[i + 1].rows
    ensures id !in states[n].rows
    decreases n
  {
    if k < n {
      OnceGone(states, id, k, n - 1);
    }
  }

  lemma GoneStaysGone(disk: Disk, known: map<Path, Record>, states: seq<State>, id: ID, k: nat, n: nat)
    requires ValidDisk(disk) && IsWalk(disk, known, states, |disk.walk|) && k <= n <= |disk.walk|
    requires ValidState(states[0]) && KnownOf(states[0].rows, known) && id in states[0].used && id !in states[k].rows
    ensures id !in states[n].rows
  {
    hide ValidState, KnownOf, ValidDisk, Tracked, FileStep;
    forall i | k <= i < n && id !in states[i].rows
      ensures id !in states[i + 1].rows
    {
      GoneAtNext(disk, known, states, i);
      GoneStaysGoneStep(disk, known, disk.walk[i], states[0], i, states[i], states[i + 1], id);
    }
    OnceGone(states, id, k, n);
  }

  lemma GoneAtNext(disk: Disk, known: map<Path, Record>, states: seq<State>, n: nat)
    requires ValidDisk(disk) && IsWalk(disk, known, states, |disk.walk|) && n < |disk.walk|
    requires ValidState(states[0]) && KnownOf(states[0].rows, known)
    ensures Tracked(disk, states[0], n, states[n]) && FileStep(disk, known, disk.walk[n], states[n], states[n + 1])
  {
    hide ValidState, KnownOf, ValidDisk, Tracked, FileStep;
    TrackedAt(disk, known, states, n);
  }

  // ----- told from the table before the Scan -----

  /** The walk re-indexes `q` before its `i`-th file. */
  ghost predicate Reached(disk: Disk, known: map<Path, Record>, q: Path, i: int)
    requires i <= |disk.walk|
  {
    exists j :: 0 <= j < i && disk.walk[j] == q && !Skipped(disk, known, q) && Indexable(disk, q)
  }

  lemma UntouchedStep(disk: Disk, p: Path, s: State, s': State, id: ID)
    requires ValidState(s) && Reindex(disk, p, s, s') && id in s.rows && s.rows[id].path != p
    requires s.rows[id].hash != HashOf(Content(disk, p))
    ensures id in s'.rows && s'.rows[id] == s.rows[id]
  {
    var cand, saved := ReindexWrites(disk, p, s, s');
    hide Describes, Stale;
  }

  /** A row with content `h` that no earlier file takes, and whose own path is not re-indexed earlier. */
  lemma {:induction false} Untouched(disk: Disk, known: map<Path, Record>, states: seq<State>, id: ID, n: nat)
    requires ValidDisk(disk) && IsWalk(disk, known, states, |disk.walk|) && n <= |disk.walk|
    requires ValidState(states[0]) && KnownOf(states[0].rows, known) && id in states[0].rows
    requires forall j :: 0 <= j < n ==> !Takes(disk, known, disk.walk[j], states[0].rows[id].hash)
    requires !Reached(disk, known, states[0].rows[id].path, n)
    ensures ValidState(states[n]) && Same(states[0], states[n], id)
  {
    if n > 0 {
      Untouched(disk, known, states, id, n - 1);
      TrackedAt(disk, known, states, n);
      var p := disk.walk[n - 1];
      assert FileStep(disk, known, p, states[n - 1], states[n]);
      assert !Takes(disk, known, disk.walk[n - 1], states[0].rows[id].hash);
      hide Reindex, IsWalk, ValidDisk;
      if !Skipped(disk, known, p) && Indexable(disk, p) {
        assert states[0].rows[id].path != p;
        UntouchedStep(disk, p, states[n - 1], states[n], id);
      }
    }
  }

  /** Row `id` of the table before the Scan has the content found at the `i`-th file and gives way to it: it is
      available at a path that no longer resolves, or missing, and its own path is not re-indexed earlier in the
      walk. */
  ghost predicate GivesWay(disk: Disk, s: State, run: Run, i: int, id: ID)
    requires 0 <= i < |disk.walk| && Indexable(disk, disk.walk[i])
  {
    && id in s.rows && s.rows[id].hash == HashOf(Content(disk, disk.walk[i]))
    && (Missing(s.rows[id], disk.walk[i]) || Stale(disk, s.rows[id], disk.walk[i]))
    && !Reached(disk, run.known, s.rows[id].path, i)
  }

  /** For the first file with its content, moveCandidate prefers another row exactly when the table before the Scan
      has one that gives way to it. */
  lemma OutrankedFromStart(disk: Disk, s: State, run: Run, i: nat)
    requires ValidDisk(disk) && ValidState(s) && KnownOf(s.rows, run.known)
    requires IsWalk(disk, run.known, run.walked, |disk.walk|) && run.walked[0] == s
    requires i < |disk.walk| && Indexable(disk, disk.walk[i])
    requires forall j :: 0 <= j < i ==> !Takes(disk, run.known, disk.walk[j], HashOf(Content(disk, disk.walk[i])))
    ensures Outranked(disk, run.walked[i].rows, disk.walk[i]) <==> exists id :: GivesWay(disk, s, run, i, id)
  {
    hide ValidDisk, KnownOf;
    var p, rows := disk.walk[i], run.walked[i].rows;
    if Outranked(disk, rows, p) {
      var id :| id in rows && rows[id].hash == HashOf(Content(disk, p))
          && (Missing(rows[id], p) || Stale(disk, rows[id], p));
      OutrankerWasThere(disk, s, run, i, id);
      assert GivesWay(disk, s, run, i, id);
    }
    if id :| GivesWay(disk, s, run, i, id) {
      Untouched(disk, run.known, run.walked, id, i);
    }
  }

  /** After a file was re-indexed, the row at its path is available. */
  lemma ReachedIsAvailable(disk: Disk, s: State, run: Run, i: nat, id: ID, j: nat)
    requires ValidDisk(disk) && ValidState(s) && KnownOf(s.rows, run.known)
    requires IsWalk(disk, run.known, run.walked, |disk.walk|) && run.walked[0] == s && j < i < |disk.walk|
    requires id in run.walked[i].rows && run.walked[i].rows[id].path == disk.walk[j] && Indexable(disk, disk.walk[j])
    ensures run.walked[i].rows[id].available
  {
    WalkKeeps(disk, run.known, run.walked, |disk.walk|, i);
    hide SameVisibility, Announced, IsWalk, Describes;
    var rows := run.walked[i].rows;
    assert Served(disk, run.known, rows, disk.walk[j]);
  }

  lemma OutrankerWasThere(disk: Disk, s: State, run: Run, i: nat, id: ID)
    requires ValidDisk(disk) && ValidState(s) && KnownOf(s.rows, run.known)
    requires IsWalk(disk, run.known, run.walked, |disk.walk|) && run.walked[0] == s && i < |disk.walk|
    requires id in run.walked[i].rows
    requires Missing(run.walked[i].rows[id], disk.walk[i]) || Stale(disk, run.walked[i].rows[id], disk.walk[i])
    ensures Same(s, run.walked[i], id) && !Reached(disk, run.known, s.rows[id].path, i)
  {
    TrackedAt(disk, run.known, run.walked, i);
    hide IsWalk, ValidDisk, ValidState, KnownOf;
    assert Same(s, run.walked[i], id);
    hide Tracked;
    if j :| 0 <= j < i && disk.walk[j] == s.rows[id].path && Indexable(disk, disk.walk[j]) {
      ReachedIsAvailable(disk, s, run, i, id, j);
    }
  }

  lemma TwoRowsOutranked(disk: Disk, s: State, s': State, run: Run, p: Path, a: ID, b: ID)
    requires ValidDisk(disk) && ValidState(s) && IsRun(disk, s, s', run) && disk.walk == [p] && Indexable(disk, p)
    requires a != b && s.rows.Keys == {a, b} && s.rows[a].path == p != s.rows[b].path
    requires s.rows[a].available && !Unchanged(disk, p, s.rows[a])
    requires !s.rows[b].available && s.rows[b].hash == HashOf(Content(disk, p))
    ensures DisplacedAt(disk, s, run, a, 0)
  {
    hide Unchanged, Content, IsSweep, FileStep;
    assert run.known[p] == s.rows[a] && run.walked[0] == s && disk.walk[0] == p;
    assert Missing(s.rows[b], p);
    assert Outranked(disk, run.walked[0].rows, disk.walk[0]);
  }

  /** A table of two rows, `a` available at the one path of the disk and `b` missing elsewhere, and new content at the
      path that `b` had: after any Scan `a` is gone without a Delete and whoever replays the events still has it. */
  lemma TwoRowsDisplace(disk: Disk, s: State, s': State, run: Run, p: Path, a: ID, b: ID)
    requires ValidDisk(disk) && ValidState(s) && IsRun(disk, s, s', run) && disk.walk == [p] && Indexable(disk, p)
    requires a != b && s.rows.Keys == {a, b} && s.rows[a].path == p != s.rows[b].path
    requires s.rows[a].available && !Unchanged(disk, p, s.rows[a])
    requires !s.rows[b].available && s.rows[b].hash == HashOf(Content(disk, p))
    ensures a !in s'.rows && Dropped(s.rows, s'.rows) == {a}
    ensures s.events <= s'.events && a in Replay(Available(s.rows), s'.events[|s.events|..])
  {
    hide IsRun, DisplacedAt, Displaced, ValidState, ValidDisk, Unchanged, Content, Indexable, Replay, Dropped;
    TwoRowsOutranked(disk, s, s', run, p, a, b);
    DisplacedExactly(disk, s, s', run, a);
    ReplayGivesAvailable(disk, s, s', run);
    OnlyOneDrops(s.rows, s'.rows, a, b);
  }

  lemma OnlyOneDrops(rows: Rows, rows': Rows, a: ID, b: ID)
    requires rows.Keys == {a, b} && !rows[b].available && a in Dropped(rows, rows')
    ensures Dropped(rows, rows') == {a} && a !in rows'
  {
    assert forall id <- Dropped(rows, rows') :: id in rows.Keys;
  }
}
