/** The `files` table: rows keyed by opaque id, with unique relative paths (internal/files/store.go,
    migrations/002_files.sql). Times are whole seconds, as the table stores them. */
module FileStore {
  import opened Wrappers

  type ID = string
  type Path = string

  const PUBLIC := "public"

  /** Go's zero time in Unix seconds: the mark of an unset timestamp. */
  const ZERO_TIME := -62135596800

  datatype ContentID = ContentID(algorithm: string, digest: string)

  datatype Record = Record(
    id: ID, path: Path, filename: string, mime: string, size: nat, hash: ContentID,
    modifiedAt: int, indexedAt: int, available: bool, visibility: string)

  type Rows = map<ID, Record>

  datatype StoreError = NoRow | NoEntropy | IdTaken

  /** Each row sits under its own nonempty id, and no two rows share a path. */
  ghost predicate ValidRows(rows: Rows) {
    && (forall id <- rows :: id != "" && rows[id].id == id)
    && (forall a, b :: a in rows && b in rows && rows[a].path == rows[b].path ==> a == b)
  }

  ghost predicate HasPath(rows: Rows, path: Path) {
    exists id :: id in rows && rows[id].path == path
  }

  /** The id of the row at a path, or "" when there is none. */
  ghost function IdAt(rows: Rows, path: Path): (id: ID)
    ensures HasPath(rows, path) ==> id in rows && rows[id].path == path
  {
    if HasPath(rows, path) then var id :| id in rows && rows[id].path == path; id else ""
  }

  /** The row at a path, if there is one. */
  ghost function RowAt(rows: Rows, path: Path): Option<Record> {
    if HasPath(rows, path) then Some(rows[IdAt(rows, path)]) else None
  }

  /** Rows after `rec` is written under its id and takes its path from any other row. */
  function Put(rows: Rows, rec: Record): Rows {
    (map id | id in rows && (rows[id].path != rec.path || id == rec.id) :: rows[id])[rec.id := rec]
  }

  function MarkedMissing(rows: Rows, path: Path, now: int): Rows {
    map id | id in rows ::
      if rows[id].path == path then rows[id].(available := false, indexedAt := now) else rows[id]
  }

  /** `rec` as written: the visibility defaults to public. */
  function Defaulted(rec: Record): Record {
    if rec.visibility == "" then rec.(visibility := PUBLIC) else rec
  }

  function Stamped(rec: Record, now: int): Record {
    if rec.indexedAt == ZERO_TIME then rec.(indexedAt := now) else rec
  }

  /** `saved` is `rec` as written at some clock reading. */
  ghost predicate SavedFrom(saved: Record, rec: Record) {
    saved == Stamped(Defaulted(rec), saved.indexedAt).(id := saved.id)
  }

  /** Writing fills in three things and no more: the id, a public visibility where none is given, and, where the
      timestamp is Go's zero time, when it was written. */
  lemma SavedFromExactly(saved: Record, rec: Record)
    ensures SavedFrom(saved, rec) <==>
      && saved == rec.(id := saved.id, visibility := saved.visibility, indexedAt := saved.indexedAt)
      && saved.visibility == (if rec.visibility == "" then "public" else rec.visibility)
      && (rec.indexedAt != -62_135_596_800 ==> saved.indexedAt == rec.indexedAt)
  {
  }

  /** Every row that is new or changed was stamped between the two clock readings. */
  ghost predicate LookedAt(before: Rows, after: Rows, from: int, to: int) {
    forall id <- after :: (id in before && after[id] == before[id]) || from <= after[id].indexedAt <= to
  }

  lemma LookedAtChain(a: Rows, b: Rows, c: Rows, from: int, mid: int, mid': int, to: int)
    requires LookedAt(a, b, from, mid) && LookedAt(b, c, mid', to) && from <= mid' && mid <= to
    ensures LookedAt(a, c, from, to)
  {
  }

  lemma LookedAtSame(rows: Rows, from: int, to: int)
    ensures LookedAt(rows, rows, from, to)
  {
  }

  lemma LookedAtPut(rows: Rows, rec: Record, from: int, to: int)
    requires from <= rec.indexedAt <= to
    ensures LookedAt(rows, Put(rows, rec), from, to)
  {
  }

  /** `rows` after an insert of `rec` that overwrites the row at its path, if any, under that row's id. */
  ghost function Upserted(rows: Rows, rec: Record): Rows {
    var id := if HasPath(rows, rec.path) then IdAt(rows, rec.path) else rec.id;
    rows[id := rec.(id := id)]
  }

  lemma PutValid(rows: Rows, rec: Record)
    requires ValidRows(rows) && rec.id != ""
    ensures ValidRows(Put(rows, rec))
  {
  }

  lemma UpsertedValid(rows: Rows, rec: Record)
    requires ValidRows(rows) && rec.id != "" && (rec.id in rows ==> HasPath(rows, rec.path))
    ensures ValidRows(Upserted(rows, rec))
  {
  }

  /** The record `Upsert` returns is the one stored under its id exactly when no row with another id holds its path. */
  lemma UpsertedStores(rows: Rows, rec: Record)
    requires ValidRows(rows) && (rec.id in rows ==> HasPath(rows, rec.path))
    ensures (rec.id in Upserted(rows, rec) && Upserted(rows, rec)[rec.id] == rec)
       <==> (HasPath(rows, rec.path) ==> IdAt(rows, rec.path) == rec.id)
  {
    if HasPath(rows, rec.path) && IdAt(rows, rec.path) != rec.id && rec.id in rows {
      assert rows[rec.id].path != rec.path;
    }
  }

  /** Deleting the other row at `rec`'s path and updating `rec`'s row amounts to `Put`. */
  lemma PutByDelete(rows: Rows, rec: Record)
    requires ValidRows(rows) && rec.id in rows
    ensures var other := RowAt(rows, rec.path);
      Put(rows, rec)
          == (if other.Some? && other.value.id != rec.id then rows - {other.value.id} else rows)[rec.id := rec]
  {
  }

  /** Deleting the row `rec` displaces before writing `rec` changes nothing. */
  lemma PutAfterDelete(rows: Rows, id: ID, rec: Record)
    requires id in rows && rows[id].path == rec.path && id != rec.id
    ensures Put(rows - {id}, rec) == Put(rows, rec)
  {
  }

  /** Inserting at a free path is a `Put`. */
  lemma PutFresh(rows: Rows, rec: Record)
    requires rec.id !in rows && !HasPath(rows, rec.path)
    ensures Put(rows, rec) == rows[rec.id := rec] == Upserted(rows, rec)
  {
  }

  /** Row by row: an insert at a free path adds one row, one at a taken path overwrites the row there under its own id,
      and no other row changes. */
  lemma UpsertedExactly(rows: Rows, rec: Record, id: ID)
    requires ValidRows(rows)
    ensures id in Upserted(rows, rec) <==> id in rows || (id == rec.id && !HasPath(rows, rec.path))
    ensures id in rows && rows[id].path != rec.path && (id == rec.id ==> HasPath(rows, rec.path)) ==>
              Upserted(rows, rec)[id] == rows[id]
    ensures id in rows && rows[id].path == rec.path ==> Upserted(rows, rec)[id] == rec.(id := id)
    ensures id == rec.id && !HasPath(rows, rec.path) ==> Upserted(rows, rec)[id] == rec
  {
  }

  /** What `Upsert` does with `rec`: it fails, changing nothing, exactly when the path is free and there is no id to
      be had or the given one is taken; otherwise the row at the path, or a new one, is `rec` as written. */
  ghost predicate UpsertDid(rows: Rows, used: set<ID>, entropy: seq<ID>, rec: Record, r: Result<Record, StoreError>,
                            rows': Rows, used': set<ID>, entropy': seq<ID>) {
    var there := HasPath(rows, rec.path);
    && entropy' == (if rec.id == "" && !there && entropy != [] then entropy[1..] else entropy)
    && (r.Err? <==> !there && if rec.id == "" then entropy == [] else rec.id in rows)
    && (r.Err? ==> rows' == rows && used' == used)
    && (r.Ok? ==>
          && SavedFrom(r.value, rec) && rows' == Upserted(rows, r.value)
          && used' == (if there then used else used + {r.value.id})
          && r.value.id == if rec.id != "" then rec.id else if there then IdAt(rows, rec.path) else entropy[0])
  }

  class Store {
    var rows: Rows
    var entropy: seq<ID>  // the opaque ids the random source will produce
    ghost var used: set<ID>  // every id ever stored
    var clock: int

    /** Random ids are nonempty, distinct, and never one that was stored before. */
    ghost predicate Valid()
      reads this
    {
      && ValidRows(rows)
      && rows.Keys <= used
      && (forall i :: 0 <= i < |entropy| ==> entropy[i] != "" && entropy[i] !in used)
      && (forall i, j :: 0 <= i < j < |entropy| ==> entropy[i] != entropy[j])
    }

    /** Reading the clock: it never goes back. */
    method Now() returns (t: int)
      modifies this`clock
      ensures t == clock && old(clock) <= clock
    {
      t := *;
      if t < clock {
        t := clock;
      }
      clock := t;
    }

    method GetByID(id: ID) returns (r: Result<Record, StoreError>)
      ensures r == if id in rows then Ok(rows[id]) else Err(NoRow)
    {
      r := if id in rows then Ok(rows[id]) else Err(NoRow);
    }

    method GetByPath(path: Path) returns (r: Option<Record>)
      requires Valid()
      ensures r == RowAt(rows, path)
    {
      if id :| id in rows && rows[id].path == path {
        r := Some(rows[id]);
      } else {
        r := None;
      }
    }

    /** Rows with a given content, in whatever order the database yields them. */
    method ListByHash(hash: ContentID) returns (matches: seq<Record>)
      requires Valid()
      ensures forall rec :: rec in matches <==> rec.id in rows && rows[rec.id] == rec && rec.hash == hash
    {
      matches := [];
      var todo := rows.Keys;
      while todo != {}
        invariant todo <= rows.Keys
        invariant forall rec :: rec in matches <==>
          rec.id in rows && rec.id !in todo && rows[rec.id] == rec && rec.hash == hash
      {
        var id :| id in todo;
        if rows[id].hash == hash {
          matches := matches + [rows[id]];
        }
        todo := todo - {id};
      }
    }

    method DeleteByID(id: ID)
      requires Valid()
      modifies this`rows
      ensures Valid() && rows == old(rows) - {id}
    {
      rows := rows - {id};
    }

    method NewOpaqueID() returns (r: Result<ID, StoreError>)
      modifies this`entropy
      ensures old(entropy) == [] ==> r == Err(NoEntropy) && entropy == []
      ensures old(entropy) != [] ==> r == Ok(old(entropy)[0]) && entropy == old(entropy)[1..]
    {
      if entropy == [] {
        r := Err(NoEntropy);
      } else {
        r := Ok(entropy[0]);
        entropy := entropy[1..];
      }
    }

    /** INSERT ... ON CONFLICT(relative_path) DO UPDATE: a row already at the path is overwritten but keeps its id;
        the returned record carries the id it was called with, or a fresh one. */
    method Upsert(rec0: Record) returns (r: Result<Record, StoreError>)
      requires Valid() && rec0.id !in entropy
      modifies this
      ensures Valid() && used >= old(used) && clock >= old(clock)
      ensures UpsertDid(old(rows), old(used), old(entropy), rec0, r, rows, used, entropy)
      ensures r.Ok? && rec0.indexedAt == ZERO_TIME ==> old(clock) <= r.value.indexedAt <= clock
    {
      var existing := GetByPath(rec0.path);
      var id := rec0.id;
      if id == "" {
        if existing.Some? {
          id := existing.value.id;
        } else {
          var drawn := NewOpaqueID();
          if drawn.Err? {
            return Err(drawn.error);
          }
          id := drawn.value;
        }
      }
      var now := Now();
      var rec := Stamped(Defaulted(rec0), now).(id := id);
      if existing.None? && rec.id in rows {
        return Err(IdTaken);
      }
      UpsertedValid(rows, rec);
      if existing.Some? {
        rows := rows[existing.value.id := rec.(id := existing.value.id)];
      } else {
        rows := rows[rec.id := rec];
        used := used + {rec.id};
      }
      return Ok(rec);
    }

    /** Writes by id; a record without a stored id goes through `Upsert`. */
    method Save(rec0: Record) returns (r: Result<Record, StoreError>)
      requires Valid() && rec0.id !in entropy
      modifies this
      ensures Valid() && used >= old(used) && clock >= old(clock)
      ensures r.Ok? && rec0.indexedAt == ZERO_TIME ==> old(clock) <= r.value.indexedAt <= clock
      ensures rec0.id in old(rows) ==>
        && r.Ok? && SavedFrom(r.value, rec0) && r.value.id == rec0.id
        && rows == Put(old(rows), r.value) && used == old(used) && entropy == old(entropy)
      ensures rec0.id !in old(rows) ==>
                UpsertDid(old(rows), old(used), old(entropy), rec0, r, rows, used, entropy)
    {
      if rec0.id == "" {
        r := Upsert(rec0);
        return;
      }
      var known := GetByID(rec0.id);
      if known.Err? {
        r := Upsert(rec0);
        return;
      }
      var other := GetByPath(rec0.path);
      if other.Some? && other.value.id != rec0.id {
        DeleteByID(other.value.id);
      }
      var now := Now();
      var rec := Stamped(Defaulted(rec0), now);
      PutByDelete(old(rows), rec);
      PutValid(old(rows), rec);
      rows := rows[rec.id := rec];
      return Ok(rec);
    }

    method MarkMissing(path: Path)
      requires Valid()
      modifies this`rows, this`clock
      ensures Valid() && clock >= old(clock)
      ensures rows == MarkedMissing(old(rows), path, clock) && used == old(used)
      ensures LookedAt(old(rows), rows, old(clock), clock)
    {
      var now := Now();
      rows := MarkedMissing(rows, path, now);
    }

    /** Every row, keyed by its path. */
    method KnownPaths() returns (known: map<Path, Record>)
      requires Valid()
      ensures forall id <- rows :: rows[id].path in known && known[rows[id].path] == rows[id]
      ensures forall p <- known :: known[p].id in rows && rows[known[p].id] == known[p] && known[p].path == p
    {
      known := map[];
      var todo := rows.Keys;
      while todo != {}
        invariant todo <= rows.Keys
        invariant forall id <- rows.Keys - todo :: rows[id].path in known && known[rows[id].path] == rows[id]
        invariant forall p <- known :: known[p].id in rows && rows[known[p].id] == known[p] && known[p].path == p
      {
        var id :| id in todo;
        known := known[rows[id].path := rows[id]];
        todo := todo - {id};
      }
    }
  }
}
