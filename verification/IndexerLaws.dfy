/** The invariants of a Scan, for every disk, every starting table and every order the database answers in: what each
    walked file and each vanished path keeps, row by row and event by event. The theorems about whole Scans are read off
    them elsewhere. */
module IndexerLaws {
  import opened Wrappers
  import opened FileStore
  import opened Indexer
  import ShareTree

  /** The filename of a path is its last component. */
  lemma {:induction false} BaseIsLast(dir: Path, name: string)
    requires '/' !in name
    ensures Base(name) == name && Base(dir + ['/'] + name) == name
    decreases |dir|
  {
    var p := dir + ['/'] + name;
    assert p[|dir|] == '/';
    var i := AfterSlash(p);
    AfterSlashIsFirst(p);
    if i == |dir| + 1 {
      assert p[i..] == name;
    } else {
      assert p[i..] == dir[i..] + ['/'] + name;
      BaseIsLast(dir[i..], name);
    }
  }

  lemma {:induction false} AfterSlashIsFirst(p: Path)
    requires '/' in p
    ensures var i := AfterSlash(p); p[i - 1] == '/' && '/' !in p[..i - 1]
  {
    if p[0] != '/' {
      AfterSlashIsFirst(p[1..]);
      var i := AfterSlash(p[1..]);
      assert p[..i] == [p[0]] + p[1..][..i - 1];
    }
  }

  /** `rec` describes the regular file its path resolves to. */
  ghost predicate Describes(disk: Disk, rec: Record) {
    && Indexable(disk, rec.path)
    && var st := Content(disk, rec.path);
    && rec.available && rec.filename == Base(rec.path) && rec.mime == st.mime
    && rec.size == st.size && rec.hash == HashOf(st) && rec.modifiedAt == st.mtime
  }

  /** Membership in a prefix that is one longer. */
  lemma PrefixGrows(walk: seq<Path>, n: nat)
    requires n < |walk|
    ensures forall p :: p in walk[..n + 1] <==> p in walk[..n] || p == walk[n]
  {
    assert walk[..n + 1] == walk[..n] + [walk[n]];
  }

  ghost predicate Same(s0: State, s: State, id: ID) {
    id in s0.rows && id in s.rows && s0.rows[id] == s.rows[id]
  }

  /** Row by row, what re-indexing `p` does when it saves `saved`: the row already at `p` goes unless it is the one
      that is continued, and a row continued from elsewhere had lost its file or was marked missing. */
  ghost predicate Wrote(disk: Disk, p: Path, s: State, s': State, saved: Record) {
    && ValidState(s')
    && saved.id in s'.rows && s'.rows[saved.id] == saved && saved.path == p && Describes(disk, saved)
    && s'.used == s.used + {saved.id}
    && (forall id :: id != saved.id ==> (id in s'.rows <==> id in s.rows && s.rows[id].path != p))
    && (forall id <- s'.rows :: id != saved.id ==> s'.rows[id] == s.rows[id])
    && (if saved.id in s.rows
        then s.rows[saved.id].path == p || Missing(s.rows[saved.id], p) || Stale(disk, s.rows[saved.id], p)
        else saved.id !in s.used && !HasPath(s.rows, p))
    && saved.visibility
        == (if saved.id in s.rows && s.rows[saved.id].visibility != "" then s.rows[saved.id].visibility else PUBLIC)
    && s'.events == s.events + ChangeFor(if saved.id in s.rows then Some(s.rows[saved.id]) else None, saved)
  }

  lemma ReindexWrites(disk: Disk, p: Path, s: State, s': State) returns (cand: Option<Record>, saved: Record)
    requires ValidState(s) && Reindex(disk, p, s, s')
    ensures ReindexWith(disk, p, s, s', cand, saved)
    ensures Wrote(disk, p, s, s', saved)
  {
    cand, saved :| ReindexWith(disk, p, s, s', cand, saved);
    PutValid(s.rows, saved);
    var prev := Previous(s.rows, p, cand);
    if prev.Some? {
      assert prev.value.id in s.rows && s.rows[prev.value.id] == prev.value;
    }
  }

  /** The walk has visited the first `n` files: rows elsewhere are untouched, rows there describe the disk,
      and an id that changed path had lost its file or was marked missing. */
  ghost predicate Tracked(disk: Disk, s0: State, n: nat, s: State)
    requires n <= |disk.walk|
  {
    && ValidState(s) && s0.used <= s.used
    && (forall id <- s.rows :: s.rows[id].path !in disk.walk[..n] ==> Same(s0, s, id))
    && (forall id <- s.rows :: Same(s0, s, id) || Describes(disk, s.rows[id]))
    && (forall id <- s.rows :: id in s0.rows || id !in s0.used)
    && (forall id :: id in s0.rows && id in s.rows && s0.rows[id].path != s.rows[id].path ==>
          !s0.rows[id].available || disk.resolve(s0.rows[id].path).None?)
  }

  lemma TrackedWrite(disk: Disk, s0: State, n: nat, s: State, s': State, saved: Record)
    requires ValidState(s0) && n < |disk.walk| && Tracked(disk, s0, n, s)
    requires disk.walk[n] !in disk.walk[..n] && Wrote(disk, disk.walk[n], s, s', saved)
    ensures Tracked(disk, s0, n + 1, s')
  {
    PrefixGrows(disk.walk, n);
    forall id | id in s'.rows && s'.rows[id].path !in disk.walk[..n + 1]
      ensures Same(s0, s', id)
    {
      assert id != saved.id && s'.rows[id] == s.rows[id];
    }
    forall id | id in s0.rows && id in s'.rows && s0.rows[id].path != s'.rows[id].path
      ensures !s0.rows[id].available || disk.resolve(s0.rows[id].path).None?
    {
      if id == saved.id {
        assert id in s.rows;
        if s0.rows[id].path == s.rows[id].path {
          assert Same(s0, s, id) || Describes(disk, s.rows[id]);
        }
      }
    }
  }

  /** An id can leave the table only by displacement: its path was re-indexed and given to a row adopted from
      elsewhere. */
  ghost predicate Displaced(s0: State, s: State, id: ID, adopter: ID) {
    && id in s0.rows && id !in s.rows && adopter in s0.rows && adopter in s.rows
    && s.rows[adopter].path == s0.rows[id].path && s0.rows[adopter].path != s0.rows[id].path
  }

  ghost predicate OnlyDisplaced(disk: Disk, s0: State, n: nat, s: State)
    requires n <= |disk.walk|
  {
    forall id <- s0.rows :: id !in s.rows ==> s0.rows[id].path in disk.walk[..n] && exists a :: Displaced(s0, s, id, a)
  }

  lemma DisplacedWrite(disk: Disk, s0: State, n: nat, s: State, s': State, saved: Record)
    requires ValidState(s0) && n < |disk.walk| && Tracked(disk, s0, n, s) && OnlyDisplaced(disk, s0, n, s)
    requires disk.walk[n] !in disk.walk[..n] && Wrote(disk, disk.walk[n], s, s', saved)
    ensures OnlyDisplaced(disk, s0, n + 1, s')
  {
    var p := disk.walk[n];
    PrefixGrows(disk.walk, n);
    forall id | id in s0.rows && id !in s'.rows
      ensures s0.rows[id].path in disk.walk[..n + 1] && exists a :: Displaced(s0, s', id, a)
    {
      if id in s.rows {
        assert s.rows[id].path == p && Same(s0, s, id);
        assert saved.id in s.rows && s.rows[saved.id].path != p;
        assert Same(s0, s, saved.id);
        assert Displaced(s0, s', id, saved.id);
      } else {
        var a :| Displaced(s0, s, id, a);
        assert Same(s0, s, a) || Describes(disk, s.rows[a]);
        assert Displaced(s0, s', id, a);
      }
    }
  }

  /** The row at `p` is available and either describes the disk or is the known row the walk skipped. */
  ghost predicate Served(disk: Disk, known: map<Path, Record>, rows: Rows, p: Path) {
    exists id :: id in rows && rows[id].path == p && rows[id].available
      && (Describes(disk, rows[id]) || (Skipped(disk, known, p) && rows[id] == known[p]))
  }

  ghost predicate AllServed(disk: Disk, known: map<Path, Record>, n: nat, rows: Rows)
    requires n <= |disk.walk|
  {
    forall i :: 0 <= i < n && Indexable(disk, disk.walk[i]) ==> Served(disk, known, rows, disk.walk[i])
  }

  lemma ServedWrite(disk: Disk, known: map<Path, Record>, n: nat, s: State, s': State, saved: Record)
    requires n < |disk.walk| && AllServed(disk, known, n, s.rows)
    requires disk.walk[n] !in disk.walk[..n] && Wrote(disk, disk.walk[n], s, s', saved)
    ensures AllServed(disk, known, n + 1, s'.rows)
  {
    forall i | 0 <= i < n + 1 && Indexable(disk, disk.walk[i])
      ensures Served(disk, known, s'.rows, disk.walk[i])
    {
      if i < n {
        var id :| id in s.rows && s.rows[id].path == disk.walk[i] && s.rows[id].available
          && (Describes(disk, s.rows[id]) || (Skipped(disk, known, disk.walk[i]) && s.rows[id] == known[disk.walk[i]]));
        assert disk.walk[i] in disk.walk[..n];
        assert id in s'.rows && s'.rows[id] == s.rows[id];
      } else {
        assert saved.id in s'.rows;
      }
    }
  }

  /** A known row that is available at a path that resolves stays where it is until its path is re-indexed. */
  lemma SkippedServed(disk: Disk, known: map<Path, Record>, s0: State, n: nat, s: State)
    requires ValidState(s0) && KnownOf(s0.rows, known) && n < |disk.walk|
    requires Tracked(disk, s0, n, s) && OnlyDisplaced(disk, s0, n, s)
    requires disk.walk[n] !in disk.walk[..n]
    requires Skipped(disk, known, disk.walk[n]) && Indexable(disk, disk.walk[n])
    ensures Served(disk, known, s.rows, disk.walk[n])
  {
    var id := known[disk.walk[n]].id;
    assert id in s.rows && s.rows[id].path == s0.rows[id].path;
    assert Same(s0, s, id);
  }

  /** A kept id keeps its visibility; a blank one becomes public. */
  ghost predicate SameVisibility(s0: State, s: State) {
    forall id :: id in s0.rows && id in s.rows ==>
      || s.rows[id].visibility == s0.rows[id].visibility
      || (s0.rows[id].visibility == "" && s.rows[id].visibility == PUBLIC)
  }

  /** Applying a change to the set of announced ids: Create and Update put the id, Delete removes it. */
  function Announce(ids: set<ID>, c: Change): set<ID> {
    if c.kind == Delete then ids - {c.rec.id} else ids + {c.rec.id}
  }

  function Replay(ids: set<ID>, changes: seq<Change>): set<ID> {
    if changes == [] then ids
    else Announce(Replay(ids, changes[..|changes| - 1]), changes[|changes| - 1])
  }

  function Available(rows: Rows): set<ID> {
    set id | id in rows && rows[id].available
  }

  /** Ids that were available before and are no longer in the table. */
  function Dropped(rows0: Rows, rows: Rows): set<ID> {
    set id | id in rows0 && rows0[id].available && id !in rows
  }

  ghost predicate Announced(s0: State, s: State) {
    && s0.events <= s.events
    && Replay(Available(s0.rows), s.events[|s0.events|..]) == Available(s.rows) + Dropped(s0.rows, s.rows)
  }

  lemma ReplayNext(ids: set<ID>, before: seq<Change>, log: seq<Change>, c: Change)
    requires before <= log
    ensures before <= log + [c]
    ensures Replay(ids, (log + [c])[|before|..]) == Announce(Replay(ids, log[|before|..]), c)
  {
    var all := (log + [c])[|before|..];
    assert all[..|all| - 1] == log[|before|..];
  }

  /** A write makes its id available; whatever row it removes was available before exactly if it was available at
      first. */
  lemma AvailableAfterWrite(rows0: Rows, rows: Rows, rows': Rows, saved: Record)
    requires saved.id in rows' && rows'[saved.id].available
    requires forall id :: id != saved.id ==> (id in rows' ==> id in rows && rows'[id] == rows[id])
    requires forall id :: id in rows && id !in rows' ==> id in rows0 && rows0[id] == rows[id]
    requires saved.id in rows0 ==> saved.id in rows
    ensures Available(rows') + Dropped(rows0, rows') == Available(rows) + Dropped(rows0, rows) + {saved.id}
  {
  }

  lemma AnnouncedWrite(disk: Disk, s0: State, n: nat, s: State, s': State, saved: Record)
    requires ValidState(s0) && n < |disk.walk| && Tracked(disk, s0, n, s) && Announced(s0, s)
    requires disk.walk[n] !in disk.walk[..n] && Wrote(disk, disk.walk[n], s, s', saved)
    ensures Announced(s0, s')
  {
    forall id | id in s.rows && id !in s'.rows
      ensures id in s0.rows && s0.rows[id] == s.rows[id]
    {
      assert Same(s0, s, id);
    }
    AvailableAfterWrite(s0.rows, s.rows, s'.rows, saved);
    var prev := if saved.id in s.rows then Some(s.rows[saved.id]) else None;
    if Quiet(prev, saved) {
      assert s'.events == s.events;
    } else {
      ReplayNext(Available(s0.rows), s0.events, s.events, ChangeFor(prev, saved)[0]);
    }
  }

  lemma VisibilityWrite(disk: Disk, s0: State, n: nat, s: State, s': State, saved: Record)
    requires ValidState(s0) && n < |disk.walk| && Tracked(disk, s0, n, s) && SameVisibility(s0, s)
    requires Wrote(disk, disk.walk[n], s, s', saved)
    ensures SameVisibility(s0, s')
  {
    assert saved.id in s0.rows ==> saved.id in s.rows;
  }

  /** Everything the walk keeps, after its first `n` files. */
  ghost predicate Walked(disk: Disk, known: map<Path, Record>, s0: State, n: nat, s: State)
    requires n <= |disk.walk|
  {
    && Tracked(disk, s0, n, s)
    && OnlyDisplaced(disk, s0, n, s)
    && AllServed(disk, known, n, s.rows)
    && SameVisibility(s0, s)
    && Announced(s0, s)
  }

  lemma WalkedWrite(disk: Disk, known: map<Path, Record>, s0: State, n: nat, s: State, s': State, saved: Record)
    requires ValidState(s0) && n < |disk.walk| && disk.walk[n] !in disk.walk[..n]
    requires Walked(disk, known, s0, n, s) && Wrote(disk, disk.walk[n], s, s', saved)
    ensures Walked(disk, known, s0, n + 1, s')
  {
    TrackedWrite(disk, s0, n, s, s', saved);
    DisplacedWrite(disk, s0, n, s, s', saved);
    ServedWrite(disk, known, n, s, s', saved);
    VisibilityWrite(disk, s0, n, s, s', saved);
    AnnouncedWrite(disk, s0, n, s, s', saved);
  }

  lemma TrackedPast(disk: Disk, s0: State, n: nat, s: State)
    requires n < |disk.walk| && Tracked(disk, s0, n, s) && OnlyDisplaced(disk, s0, n, s)
    ensures Tracked(disk, s0, n + 1, s) && OnlyDisplaced(disk, s0, n + 1, s)
  {
    PrefixGrows(disk.walk, n);
  }

  lemma ServedPast(disk: Disk, known: map<Path, Record>, n: nat, rows: Rows)
    requires n < |disk.walk| && AllServed(disk, known, n, rows)
    requires Indexable(disk, disk.walk[n]) ==> Served(disk, known, rows, disk.walk[n])
    ensures AllServed(disk, known, n + 1, rows)
  {
  }

  lemma WalkedPast(disk: Disk, known: map<Path, Record>, s0: State, n: nat, s: State)
    requires ValidState(s0) && KnownOf(s0.rows, known)
    requires n < |disk.walk| && disk.walk[n] !in disk.walk[..n] && Walked(disk, known, s0, n, s)
    requires Skipped(disk, known, disk.walk[n]) || !Indexable(disk, disk.walk[n])
    ensures Walked(disk, known, s0, n + 1, s)
  {
    if Indexable(disk, disk.walk[n]) {
      SkippedServed(disk, known, s0, n, s);
    }
    TrackedPast(disk, s0, n, s);
    ServedPast(disk, known, n, s.rows);
  }

  lemma WalkedStep(disk: Disk, known: map<Path, Record>, s0: State, n: nat, s: State, s': State)
    requires ValidDisk(disk) && ValidState(s0) && KnownOf(s0.rows, known)
    requires n < |disk.walk| && Walked(disk, known, s0, n, s) && FileStep(disk, known, disk.walk[n], s, s')
    ensures Walked(disk, known, s0, n + 1, s')
  {
    if Skipped(disk, known, disk.walk[n]) || !Indexable(disk, disk.walk[n]) {
      WalkedPast(disk, known, s0, n, s);
    } else {
      var cand, saved := ReindexWrites(disk, disk.walk[n], s, s');
      WalkedWrite(disk, known, s0, n, s, s', saved);
    }
  }

  lemma {:induction false} WalkKeeps(disk: Disk, known: map<Path, Record>, states: seq<State>, total: nat, n: nat)
    requires ValidDisk(disk) && n <= total && IsWalk(disk, known, states, total)
    requires ValidState(states[0]) && KnownOf(states[0].rows, known)
    ensures Walked(disk, known, states[0], n, states[n])
  {
    if n == 0 {
      assert states[0].events[|states[0].events|..] == [];
    } else {
      WalkKeeps(disk, known, states, total, n - 1);
      WalkedStep(disk, known, states[0], n - 1, states[n - 1], states[n]);
    }
  }

  /** The sweep has treated `done`: exactly the rows at those paths were marked missing. */
  ghost predicate SweptRows(rows1: Rows, done: seq<Path>, rows: Rows) {
    && rows.Keys == rows1.Keys
    && (forall id <- rows :: rows[id] ==
          if rows1[id].path in done then rows1[id].(available := false, indexedAt := rows[id].indexedAt) else rows1[id])
  }

  ghost predicate Swept(s0: State, s1: State, done: seq<Path>, s: State) {
    && ValidState(s) && s.used == s1.used
    && SweptRows(s1.rows, done, s.rows)
    && Announced(s0, s)
  }

  /** A known path outside the walk: either its row moved away into the walk, or it is still there untouched. */
  ghost predicate Unseen(walk: seq<Path>, rec: Record, rows: Rows) {
    && rec.id in rows
    && (if rows[rec.id].path == rec.path then rows[rec.id] == rec
        else rows[rec.id].available && rows[rec.id].path in walk)
    && forall id <- rows :: rows[id].path == rec.path ==> id == rec.id
  }

  lemma GoneRow(disk: Disk, known: map<Path, Record>, s0: State, s1: State, p: Path)
    requires ValidState(s0) && KnownOf(s0.rows, known) && Tracked(disk, s0, |disk.walk|, s1)
    requires OnlyDisplaced(disk, s0, |disk.walk|, s1) && p in known && p !in disk.walk
    ensures Unseen(disk.walk, known[p], s1.rows)
  {
    assert disk.walk[..|disk.walk|] == disk.walk;
    var id := known[p].id;
    assert id in s1.rows;
    assert Same(s0, s1, id) || Describes(disk, s1.rows[id]);
    forall other | other in s1.rows && s1.rows[other].path == p
      ensures other == id
    {
      assert Same(s0, s1, other);
    }
  }

  /** What the sweep does to the rows at one path. */
  ghost predicate Marked(rows: Rows, p: Path, rows': Rows) {
    && rows'.Keys == rows.Keys
    && forall id <- rows :: rows'[id] ==
         if rows[id].path == p then rows[id].(available := false, indexedAt := rows'[id].indexedAt) else rows[id]
  }

  /** One treated path: its rows are marked missing, and the Delete goes out exactly when its row was available. */
  lemma GoneMarks(walk: seq<Path>, known: map<Path, Record>, s0: State, s1: State, done: seq<Path>, p: Path, s: State,
                  s': State)
    requires p in known && known[p].path == p && p !in done && forall q <- done :: q !in walk
    requires Unseen(walk, known[p], s1.rows)
    requires Swept(s0, s1, done, s) && GoneStep(known, p, s, s')
    ensures Marked(s.rows, p, s'.rows) && s'.used == s.used
    ensures var id := known[p].id;
      s'.events == s.events +
        if id in s.rows && s.rows[id].path == p && s.rows[id].available
        then [Change(Delete, known[p].(available := false))]
        else []
  {
    var id := known[p].id;
    assert s.rows[id].path == s1.rows[id].path;
    assert MovedAway(s.rows, known[p]) <==> s1.rows[id].path != p;
  }

  lemma MarkedAnnounced(s0: State, s: State, s': State, p: Path, rec: Record)
    requires Announced(s0, s) && Marked(s.rows, p, s'.rows)
    requires forall id <- s.rows :: s.rows[id].path == p ==> id == rec.id
    requires s'.events == s.events +
        if rec.id in s.rows && s.rows[rec.id].path == p && s.rows[rec.id].available then [Change(Delete, rec)] else []
    ensures Announced(s0, s')
  {
    assert Dropped(s0.rows, s'.rows) == Dropped(s0.rows, s.rows);
    if rec.id in s.rows && s.rows[rec.id].path == p && s.rows[rec.id].available {
      ReplayNext(Available(s0.rows), s0.events, s.events, Change(Delete, rec));
      assert Available(s'.rows) == Available(s.rows) - {rec.id};
    } else {
      assert s'.events == s.events;
      assert Available(s'.rows) == Available(s.rows);
    }
  }

  lemma SweptRowsStep(rows1: Rows, done: seq<Path>, p: Path, rows: Rows, rows': Rows)
    requires SweptRows(rows1, done, rows) && Marked(rows, p, rows')
    ensures SweptRows(rows1, done + [p], rows')
  {
    forall id | id in rows'
      ensures rows'[id] == if rows1[id].path in done + [p]
                           then rows1[id].(available := false, indexedAt := rows'[id].indexedAt) else rows1[id]
    {
      assert rows[id].path == rows1[id].path;
    }
  }

  lemma MarkedValid(rows: Rows, p: Path, rows': Rows)
    requires ValidRows(rows) && Marked(rows, p, rows')
    ensures ValidRows(rows')
  {
    assert forall id <- rows :: rows'[id].path == rows[id].path && rows'[id].id == rows[id].id;
  }

  lemma SweptStep(walk: seq<Path>, known: map<Path, Record>, s0: State, s1: State, done: seq<Path>, p: Path, s: State,
                  s': State)
    requires p in known && known[p].path == p && p !in done && forall q <- done :: q !in walk
    requires Unseen(walk, known[p], s1.rows)
    requires Swept(s0, s1, done, s) && GoneStep(known, p, s, s')
    ensures Swept(s0, s1, done + [p], s')
  {
    GoneMarks(walk, known, s0, s1, done, p, s, s');
    SweptRowsStep(s1.rows, done, p, s.rows, s'.rows);
    MarkedValid(s.rows, p, s'.rows);
    MarkedAnnounced(s0, s, s', p, known[p].(available := false)) by {
      assert forall id <- s.rows :: s.rows[id].path == s1.rows[id].path;
    }
  }

  /** The sweep's input: distinct known paths outside the walk, each still as it was or moved away. */
  ghost predicate Sweepable(walk: seq<Path>, known: map<Path, Record>, gone: seq<Path>, rows1: Rows) {
    && ShareTree.NoDuplicates(gone)
    && forall p <- gone :: p !in walk && p in known && known[p].path == p && Unseen(walk, known[p], rows1)
  }

  lemma {:induction false} SweepKeeps(walk: seq<Path>, s0: State, s1: State, known: map<Path, Record>,
                                      gone: seq<Path>, marked: seq<State>, n: nat)
    requires n <= |gone| && |marked| == |gone| + 1 && Sweepable(walk, known, gone, s1.rows)
    requires forall i :: 0 <= i < |gone| ==> GoneStep(known, gone[i], marked[i], marked[i + 1])
    requires Swept(s0, s1, [], marked[0])
    ensures Swept(s0, s1, gone[..n], marked[n])
  {
    if n > 0 {
      SweepKeeps(walk, s0, s1, known, gone, marked, n - 1);
      var p, done := gone[n - 1], gone[..n - 1];
      assert gone[..n] == done + [p];
      assert p !in done && forall q <- done :: q in gone;
      SweptStep(walk, known, s0, s1, done, p, marked[n - 1], marked[n]);
    }
  }

  /** What a whole Scan establishes, before it is read off as the laws of ScanLaws. */
  lemma RunKeeps(disk: Disk, s: State, s': State, run: Run)
    requires ValidDisk(disk) && ValidState(s) && IsRun(disk, s, s', run)
    ensures Walked(disk, run.known, s, |disk.walk|, run.marked[0])
    ensures Swept(s, run.marked[0], run.gone, s')
  {
    WalkKeeps(disk, run.known, run.walked, |disk.walk|, |disk.walk|);
    forall p | p in run.gone
      ensures run.known[p].path == p && Unseen(disk.walk, run.known[p], run.marked[0].rows)
    {
      GoneRow(disk, run.known, s, run.marked[0], p);
    }
    SweepKeeps(disk.walk, s, run.marked[0], run.known, run.gone, run.marked, |run.gone|);
    assert run.gone[..|run.gone|] == run.gone;
  }
}
