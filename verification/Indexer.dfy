/** The share index (internal/indexer/indexer.go): `Scan` reconciles the files table with the disk
    and logs the changes federation publishes. */
module Indexer {
  import opened Wrappers
  import opened FileStore
  import ShareTree

  type FileStat = ShareTree.FileStat

  datatype Kind = Create | Update | Delete

  datatype Change = Change(kind: Kind, rec: Record)

  /** What one Scan sees of a disk that does not change meanwhile: the visible regular files in walk order, the Lstat of
      each, what `ResolveUnderRoot` reaches from a relative path, and the paths at which indexing fails all the same,
      because reading the file fails or no id is to be had. */
  datatype Disk = Disk(walk: seq<Path>, lstat: Path -> FileStat, resolve: Path -> Option<ShareTree.Node>,
                       failing: set<Path>)

  ghost predicate ValidDisk(disk: Disk) {
    && ShareTree.NoDuplicates(disk.walk)
    && forall p :: disk.resolve(p).Some? && disk.resolve(p).value.File? ==> disk.resolve(p).value.stat.digest != ""
  }

  /** The path resolves to a regular file, and indexing it does not fail. */
  predicate Indexable(disk: Disk, p: Path) {
    disk.resolve(p).Some? && disk.resolve(p).value.File? && p !in disk.failing
  }

  /** The same disk with more paths at which indexing fails. */
  function Failing(disk: Disk, more: set<Path>): Disk {
    disk.(failing := disk.failing + more)
  }

  function Content(disk: Disk, p: Path): FileStat
    requires Indexable(disk, p)
  {
    disk.resolve(p).value.stat
  }

  function HashOf(st: FileStat): ContentID {
    ContentID("sha256", st.digest)
  }

  /** `files.FileUnchanged`. */
  predicate Unchanged(disk: Disk, p: Path, rec: Record) {
    && disk.lstat(p).size == rec.size
    && rec.available && rec.hash.digest != ""
    && disk.lstat(p).mtime == rec.modifiedAt
  }

  /** `filepath.Base` of a slash-separated path. */
  function Base(p: Path): string {
    if '/' in p then Base(p[AfterSlash(p)..]) else p
  }

  function AfterSlash(p: Path): (i: nat)
    requires '/' in p
    ensures 0 < i <= |p|
  {
    if p[0] == '/' then 1 else 1 + AfterSlash(p[1..])
  }

  /** The table, the ids ever stored and the log of emitted changes. */
  datatype State = State(rows: Rows, used: set<ID>, events: seq<Change>)

  ghost predicate ValidState(s: State) {
    ValidRows(s.rows) && s.rows.Keys <= s.used
  }

  predicate Missing(rec: Record, p: Path) {
    rec.path != p && !rec.available
  }

  predicate Stale(disk: Disk, rec: Record, p: Path) {
    rec.path != p && rec.available && disk.resolve(rec.path).None?
  }

  /** A legal answer of `moveCandidate`: some missing row with the content, else some stale one, else the row
      already at the path; the database's row order decides among several. */
  ghost predicate IsCandidate(disk: Disk, rows: Rows, p: Path, hash: ContentID, cand: Option<Record>) {
    && (cand.Some? ==> cand.value.id in rows && rows[cand.value.id] == cand.value && cand.value.hash == hash)
    && (cand.Some? ==> Missing(cand.value, p) || Stale(disk, cand.value, p) || cand.value.path == p)
    && ((exists id :: id in rows && rows[id].hash == hash && Missing(rows[id], p)) ==>
          cand.Some? && Missing(cand.value, p))
    && ((exists id :: id in rows && rows[id].hash == hash && Stale(disk, rows[id], p)) ==>
          cand.Some? && cand.value.path != p)
    && (cand.None? ==> forall id :: id in rows && rows[id].hash == hash ==> rows[id].path != p)
  }

  /** The record `indexFileLocked` writes at `p` when its previous row is `prev`. */
  function Indexed(p: Path, st: FileStat, prev: Option<Record>): Record {
    Record(if prev.Some? then prev.value.id else "", p, Base(p), st.mime, st.size, HashOf(st), st.mtime, ZERO_TIME,
           true, if prev.Some? && prev.value.visibility != "" then prev.value.visibility else PUBLIC)
  }

  predicate Quiet(prev: Option<Record>, saved: Record) {
    && prev.Some? && prev.value.available
    && prev.value.hash == saved.hash && prev.value.size == saved.size && prev.value.path == saved.path
  }

  function ChangeFor(prev: Option<Record>, saved: Record): seq<Change> {
    if Quiet(prev, saved) then [] else [Change(if prev.Some? then Update else Create, saved)]
  }

  /** The row a re-indexed path starts from: the move candidate, else the row at the path. */
  ghost function Previous(rows: Rows, p: Path, cand: Option<Record>): Option<Record> {
    if cand.Some? then cand else RowAt(rows, p)
  }

  /** One successful `indexFileLocked` with its choice of candidate and the record it saved. */
  ghost predicate ReindexWith(disk: Disk, p: Path, s: State, s': State, cand: Option<Record>, saved: Record) {
    && Indexable(disk, p)
    && IsCandidate(disk, s.rows, p, HashOf(Content(disk, p)), cand)
    && var prev := Previous(s.rows, p, cand);
    && SavedFrom(saved, Indexed(p, Content(disk, p), prev))
    && (if prev.Some? then saved.id == prev.value.id else saved.id != "" && saved.id !in s.used)
    && s'.rows == Put(s.rows, saved)
    && s'.used == s.used + {saved.id}
    && s'.events == s.events + ChangeFor(prev, saved)
  }

  ghost predicate Reindex(disk: Disk, p: Path, s: State, s': State) {
    exists cand, saved :: ReindexWith(disk, p, s, s', cand, saved)
  }

  /** The walk skips a path whose known row still describes it. */
  predicate Skipped(disk: Disk, known: map<Path, Record>, p: Path) {
    p in known && Unchanged(disk, p, known[p])
  }

  /** The walk callback on one visible regular file. */
  ghost predicate FileStep(disk: Disk, known: map<Path, Record>, p: Path, s: State, s': State) {
    if Skipped(disk, known, p) || !Indexable(disk, p) then s' == s else Reindex(disk, p, s, s')
  }

  /** A known row that was adopted by another path during the walk. */
  predicate MovedAway(rows: Rows, rec: Record) {
    rec.id in rows && rows[rec.id].available && rows[rec.id].path != rec.path
  }

  /** The treatment of one known path the walk did not see. */
  ghost predicate GoneStep(known: map<Path, Record>, p: Path, s: State, s': State)
    requires p in known
  {
    if MovedAway(s.rows, known[p]) then s' == s
    else
      && (exists now :: s'.rows == MarkedMissing(s.rows, p, now))
      && s'.used == s.used
      && s'.events == s.events + if known[p].available then [Change(Delete, known[p].(available := false))] else []
  }

  ghost predicate RemoveStep(p: Path, s: State, s': State) {
    && (exists now :: s'.rows == MarkedMissing(s.rows, p, now))
    && s'.used == s.used
    && var rec := RowAt(s.rows, p);
    && s'.events == s.events +
         if rec.Some? && rec.value.available then [Change(Delete, rec.value.(available := false))] else []
  }

  ghost predicate KnownOf(rows: Rows, known: map<Path, Record>) {
    && (forall id <- rows :: rows[id].path in known && known[rows[id].path] == rows[id])
    && (forall p <- known :: known[p].id in rows && rows[known[p].id] == known[p] && known[p].path == p)
  }

  /** A whole Scan: the states after each walked file, then after each vanished path. */
  datatype Run = Run(known: map<Path, Record>, walked: seq<State>, gone: seq<Path>, marked: seq<State>)

  ghost predicate IsWalk(disk: Disk, known: map<Path, Record>, states: seq<State>, n: nat) {
    && n <= |disk.walk| && |states| == n + 1
    && forall i :: 0 <= i < n ==> FileStep(disk, known, disk.walk[i], states[i], states[i + 1])
  }

  ghost predicate IsSweep(disk: Disk, known: map<Path, Record>, gone: seq<Path>, states: seq<State>) {
    && |states| == |gone| + 1
    && (forall p <- gone :: p in known && p !in disk.walk)
    && ShareTree.NoDuplicates(gone)
    && forall i :: 0 <= i < |gone| ==> GoneStep(known, gone[i], states[i], states[i + 1])
  }

  ghost predicate IsRun(disk: Disk, s: State, s': State, run: Run) {
    && KnownOf(s.rows, run.known)
    && IsWalk(disk, run.known, run.walked, |disk.walk|)
    && IsSweep(disk, run.known, run.gone, run.marked)
    && (forall p <- run.known :: p !in disk.walk ==> p in run.gone)
    && run.walked[0] == s && run.walked[|disk.walk|] == run.marked[0] && run.marked[|run.gone|] == s'
  }

  lemma WalkExtends(disk: Disk, known: map<Path, Record>, states: seq<State>, n: nat, s': State)
    requires n < |disk.walk| && IsWalk(disk, known, states, n) && FileStep(disk, known, disk.walk[n], states[n], s')
    ensures IsWalk(disk, known, states + [s'], n + 1)
  {
  }

  lemma SweepExtends(disk: Disk, known: map<Path, Record>, gone: seq<Path>, states: seq<State>, p: Path, s': State)
    requires IsSweep(disk, known, gone, states) && p in known && p !in disk.walk && p !in gone
    requires GoneStep(known, p, states[|gone|], s')
    ensures IsSweep(disk, known, gone + [p], states + [s'])
  {
  }

  /** A step at `p` depends on where indexing fails only at `p`. */
  lemma FileStepSame(disk: Disk, a: set<Path>, b: set<Path>, known: map<Path, Record>, p: Path, s: State, s': State)
    requires (p in a <==> p in b) && FileStep(Failing(disk, a), known, p, s, s')
    ensures FileStep(Failing(disk, b), known, p, s, s')
  {
    if !Skipped(disk, known, p) && Indexable(Failing(disk, a), p) {
      ReindexSame(Failing(disk, a), Failing(disk, b), p, s, s');
    }
  }

  lemma ReindexSame(a: Disk, b: Disk, p: Path, s: State, s': State)
    requires a.resolve == b.resolve && Reindex(a, p, s, s') && Indexable(b, p)
    ensures Reindex(b, p, s, s')
  {
    var cand, saved :| ReindexWith(a, p, s, s', cand, saved);
    assert IsCandidate(b, s.rows, p, HashOf(Content(b, p)), cand);
    assert ReindexWith(b, p, s, s', cand, saved);
  }

  /** What the walk does at one file, when `ok` says that indexing did not fail or was not called for. */
  lemma WalkedFile(disk: Disk, dry: set<Path>, known: map<Path, Record>, p: Path, s: State, s': State, ok: bool)
    requires Skipped(disk, known, p) ==> ok && s' == s
    requires !Skipped(disk, known, p) ==> if ok then Reindex(disk, p, s, s') && p !in dry else s' == s
    requires !ok && Indexable(disk, p) ==> p in dry
    ensures FileStep(Failing(disk, dry), known, p, s, s')
  {
    if !Skipped(disk, known, p) && ok {
      ReindexSame(disk, Failing(disk, dry), p, s, s');
    }
  }

  lemma WalkSame(disk: Disk, a: set<Path>, p: Path, known: map<Path, Record>, states: seq<State>, n: nat)
    requires IsWalk(Failing(disk, a), known, states, n) && p !in disk.walk[..n]
    ensures IsWalk(Failing(disk, a + {p}), known, states, n)
  {
    hide FileStep;
    forall i | 0 <= i < n
      ensures FileStep(Failing(disk, a + {p}), known, disk.walk[i], states[i], states[i + 1])
    {
      assert disk.walk[i] in disk.walk[..n];
      FileStepSame(disk, a, a + {p}, known, disk.walk[i], states[i], states[i + 1]);
    }
  }

  class Indexer {
    const store: Store
    var events: seq<Change>  // what the hook was called with

    ghost function Current(): State
      reads this, store
    {
      State(store.rows, store.used, events)
    }

    constructor (store: Store)
      ensures this.store == store && events == []
    {
      this.store := store;
      events := [];
    }

    method Emit(kind: Kind, rec: Record)
      modifies this`events
      ensures events == if rec.id == "" then old(events) else old(events) + [Change(kind, rec)]
    {
      if rec.id != "" {
        events := events + [Change(kind, rec)];
      }
    }

    method MoveCandidate(disk: Disk, p: Path, hash: ContentID) returns (cand: Option<Record>)
      requires store.Valid()
      ensures IsCandidate(disk, store.rows, p, hash, cand)
    {
      var matches := store.ListByHash(hash);
      var samePath: Option<Record>, missing: Option<Record>, stale: Option<Record> := None, None, None;
      for i := 0 to |matches|
        invariant samePath.Some? ==> samePath.value in matches && samePath.value.path == p
        invariant missing.Some? ==> missing.value in matches && Missing(missing.value, p)
        invariant stale.Some? ==> stale.value in matches && Stale(disk, stale.value, p)
        invariant forall j :: 0 <= j < i && matches[j].path == p ==> samePath.Some?
        invariant forall j :: 0 <= j < i && Missing(matches[j], p) ==> missing.Some?
        invariant forall j :: 0 <= j < i && Stale(disk, matches[j], p) ==> stale.Some?
      {
        var rec := matches[i];
        if rec.path == p {
          samePath := Some(rec);
        } else if !rec.available {
          if missing.None? {
            missing := Some(rec);
          }
        } else if disk.resolve(rec.path).None? {
          if stale.None? {
            stale := Some(rec);
          }
        }
      }
      assert forall id :: id in store.rows && store.rows[id].hash == hash ==> store.rows[id] in matches;
      if missing.Some? {
        return missing;
      }
      if stale.Some? {
        return stale;
      }
      return samePath;
    }

    /** Writes an indexed record: by id when it continues `prev`, by path otherwise, which needs a random id. */
    method Write(rec: Record) returns (r: Result<Record, StoreError>)
      requires store.Valid()
      requires if rec.id == "" then !HasPath(store.rows, rec.path) else rec.id in store.rows
      requires rec.indexedAt == ZERO_TIME
      modifies store
      ensures store.Valid() && |store.entropy| >= |old(store.entropy)| - 1
      ensures store.clock >= old(store.clock)
      ensures r.Ok? ==> old(store.clock) <= r.value.indexedAt <= store.clock
      ensures r.Err? <==> rec.id == "" && old(store.entropy) == []
      ensures r.Err? ==> store.rows == old(store.rows) && store.used == old(store.used)
      ensures r.Ok? ==>
                && SavedFrom(r.value, rec) && r.value.id != ""
                && (if rec.id == "" then r.value.id !in old(store.used) else r.value.id == rec.id)
                && store.rows == Put(old(store.rows), r.value)
                && store.used == old(store.used) + {r.value.id}
    {
      if rec.id != "" {
        r := store.Save(rec);
      } else {
        r := store.Upsert(rec);
        if r.Ok? {
          PutFresh(old(store.rows), r.value);
        }
      }
    }

    /** `indexFileLocked`: fails without touching anything when the path does not resolve to a regular file, or when the
        file needs a new id and the random source gives none. */
    method IndexFile(disk: Disk, p: Path) returns (ok: bool)
      requires store.Valid()
      modifies this`events, store
      ensures store.Valid() && |store.entropy| >= |old(store.entropy)| - 1
      ensures Indexable(disk, p) && old(store.entropy) != [] ==> ok
      ensures ok ==> Reindex(disk, p, old(Current()), Current())
      ensures !ok ==> Current() == old(Current())
      ensures !ok && Indexable(disk, p) ==>
                !HasPath(store.rows, p) && IsCandidate(disk, store.rows, p, HashOf(Content(disk, p)), None)
      ensures store.clock >= old(store.clock)
      ensures LookedAt(old(store.rows), store.rows, old(store.clock), store.clock)
    {
      hide LookedAt;
      if !Indexable(disk, p) {
        LookedAtSame(store.rows, store.clock, store.clock);
        return false;
      }
      var st := Content(disk, p);
      var prev := store.GetByPath(p);
      var cand := MoveCandidate(disk, p, HashOf(st));
      ghost var rows := store.rows;
      if cand.Some? {
        if prev.Some? && prev.value.id != cand.value.id {
          store.DeleteByID(prev.value.id);
        }
        prev := cand;
      }
      assert prev == Previous(rows, p, cand);
      var rec := Indexed(p, st, prev);
      ghost var between := store.rows;
      var r := Write(rec);
      if r.Err? {
        LookedAtSame(rows, old(store.clock), store.clock);
        return false;
      }
      var saved := r.value;
      LookedAtPut(rows, saved, old(store.clock), store.clock);
      if between != rows {
        PutAfterDelete(rows, IdAt(rows, p), saved);
      }
      if !Quiet(prev, saved) {
        Emit(if prev.Some? then Update else Create, saved);
      }
      assert ReindexWith(disk, p, old(Current()), Current(), cand, saved);
      return true;
    }

    /** The walk of `Scan`: re-index every visible regular file whose known row no longer describes it. `dry` are the
        paths for which the random source gave no id. */
    method WalkFiles(disk: Disk, known: map<Path, Record>) returns (ghost states: seq<State>, ghost dry: set<Path>)
      requires store.Valid() && ShareTree.NoDuplicates(disk.walk)
      modifies this`events, store
      ensures store.Valid()
      ensures |old(store.entropy)| >= |disk.walk| ==> dry == {}
      ensures IsWalk(Failing(disk, dry), known, states, |disk.walk|)
      ensures states[0] == old(Current()) && states[|disk.walk|] == Current()
      ensures store.clock >= old(store.clock)
      ensures LookedAt(old(store.rows), store.rows, old(store.clock), store.clock)
    {
      hide FileStep, LookedAt;
      LookedAtSame(store.rows, store.clock, store.clock);
      states, dry := [Current()], {};
      for i := 0 to |disk.walk|
        invariant store.Valid()
        invariant |old(store.entropy)| >= |disk.walk| ==> dry == {} && |store.entropy| >= |disk.walk| - i
        invariant forall p <- dry :: p in disk.walk[..i]
        invariant IsWalk(Failing(disk, dry), known, states, i)
        invariant states[0] == old(Current()) && states[i] == Current()
        invariant store.clock >= old(store.clock)
        invariant LookedAt(old(store.rows), store.rows, old(store.clock), store.clock)
      {
        var p := disk.walk[i];
        assert p !in disk.walk[..i] && disk.walk[..i + 1] == disk.walk[..i] + [p];
        ghost var before, start := Current(), store.clock;
        var ok := true;
        if !(p in known && Unchanged(disk, p, known[p])) {
          ok := IndexFile(disk, p);
        }
        LookedAtChain(old(store.rows), before.rows, store.rows, old(store.clock), start, start, store.clock);
        if !ok && Indexable(disk, p) {
          WalkSame(disk, dry, p, known, states, i);
          dry := dry + {p};
        }
        WalkedFile(disk, dry, known, p, before, Current(), ok);
        WalkExtends(Failing(disk, dry), known, states, i, Current());
        states := states + [Current()];
      }
    }

    /** One pass over the known paths the walk did not see, in the map's own order. */
    method SweepGone(disk: Disk, known: map<Path, Record>) returns (ghost gone: seq<Path>, ghost states: seq<State>)
      requires store.Valid()
      requires forall p <- known :: known[p].path == p && known[p].id != ""
      modifies this`events, store
      ensures store.Valid()
      ensures IsSweep(disk, known, gone, states)
      ensures forall p <- known :: p !in disk.walk ==> p in gone
      ensures states[0] == old(Current()) && states[|gone|] == Current()
      ensures store.clock >= old(store.clock)
      ensures LookedAt(old(store.rows), store.rows, old(store.clock), store.clock)
    {
      hide LookedAt;
      LookedAtSame(store.rows, store.clock, store.clock);
      states, gone := [Current()], [];
      var todo := known.Keys;
      while todo != {}
        invariant store.Valid() && todo <= known.Keys
        invariant forall p <- gone :: p !in todo
        invariant IsSweep(disk, known, gone, states)
        invariant forall p <- known.Keys - todo :: p !in disk.walk ==> p in gone
        invariant states[0] == old(Current()) && states[|gone|] == Current()
        invariant store.clock >= old(store.clock)
        invariant LookedAt(old(store.rows), store.rows, old(store.clock), store.clock)
      {
        var p :| p in todo;
        todo := todo - {p};
        if p !in disk.walk {
          var rec := known[p];
          var current := store.GetByID(rec.id);
          if !(current.Ok? && current.value.available && current.value.path != p) {
            ghost var before, start := store.rows, store.clock;
            store.MarkMissing(p);
            LookedAtChain(old(store.rows), before, store.rows, old(store.clock), start, start, store.clock);
            if rec.available {
              Emit(Delete, rec.(available := false));
            }
          }
          SweepExtends(disk, known, gone, states, p, Current());
          gone, states := gone + [p], states + [Current()];
        }
      }
    }

    method Scan(disk: Disk) returns (ghost run: Run, ghost dry: set<Path>)
      requires store.Valid() && ShareTree.NoDuplicates(disk.walk)
      modifies this`events, store
      ensures store.Valid()
      ensures |old(store.entropy)| >= |disk.walk| ==> dry == {}
      ensures IsRun(Failing(disk, dry), old(Current()), Current(), run)
      ensures store.clock >= old(store.clock)
      ensures LookedAt(old(store.rows), store.rows, old(store.clock), store.clock)
    {
      hide LookedAt;
      var known := store.KnownPaths();
      ghost var walked;
      walked, dry := WalkFiles(disk, known);
      ghost var rows, start := store.rows, store.clock;
      ghost var gone, marked := SweepGone(disk, known);
      LookedAtChain(old(store.rows), rows, store.rows, old(store.clock), start, start, store.clock);
      run := Run(known, walked, gone, marked);
    }

    /** One changed file reported by the watcher. */
    method IndexPath(disk: Disk, p: Path) returns (ok: bool)
      requires store.Valid()
      modifies this`events, store
      ensures store.Valid()
      ensures Indexable(disk, p) && old(store.entropy) != [] ==> ok
      ensures if ok then Reindex(disk, p, old(Current()), Current()) else Current() == old(Current())
      ensures LookedAt(old(store.rows), store.rows, old(store.clock), store.clock)
    {
      ok := IndexFile(disk, p);
    }

    /** One vanished file reported by the watcher, as a single atomic step. */
    method RemovePath(p: Path)
      requires store.Valid()
      modifies this`events, store
      ensures store.Valid()
      ensures RemoveStep(p, old(Current()), Current())
      ensures LookedAt(old(store.rows), store.rows, old(store.clock), store.clock)
    {
      var rec := store.GetByPath(p);
      store.MarkMissing(p);
      if rec.Some? && rec.value.available {
        Emit(Delete, rec.value.(available := false));
      }
    }
  }
}
