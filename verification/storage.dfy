/** The snapshot store of src/storage.cpp. The SQLite database is modelled by
    the two tables its SQL statements define: `snapshots`, keyed by `id`, and
    `deltas`, keyed by (snapshot_id, file_path). Each method changes the tables
    as its SQL statements do; where SQL leaves an order open (rows with equal
    timestamps under ORDER BY, LIMIT), the model picks nondeterministically and
    the contracts hold for every choice. */
module Storage {
  import opened Wrappers
  import opened Text
  import opened Snapshots

  /** `maxSnapshots_`: fixed at 100, not read from the configuration. */
  const MaxSnapshots := 100

  /** A row of `snapshots` without its key. */
  datatype SnapshotRow = SnapshotRow(timestamp: int, autoSave: bool, message: string)

  /** The primary key of `deltas`. */
  datatype DeltaKey = DeltaKey(snapshotId: string, path: string)

  /** The other columns of `deltas`; `None` stands for SQL NULL. */
  datatype DeltaRow = DeltaRow(baseSnapshotId: Option<string>, delta: Option<seq<byte>>, action: int)

  type SnapshotTable = map<string, SnapshotRow>
  type DeltaTable = map<DeltaKey, DeltaRow>

  /** `static_cast<int>(delta.action)`. */
  function ActionCode(a: Action): (c: int)
    ensures 0 <= c < 3
  {
    match a
    case Create => 0
    case Modify => 1
    case Delete => 2
  }

  /** `static_cast<FileDelta::Action>(code)` for the codes `ActionCode` produces. */
  function ActionOf(c: int): (a: Action)
    requires 0 <= c < 3
    ensures ActionCode(a) == c
  {
    if c == 0 then Create else if c == 1 then Modify else Delete
  }

  /** Columns 2 to 4 of the snapshot insert. */
  function RowOf(s: Snapshot): SnapshotRow {
    SnapshotRow(s.timestamp, s.autoSave, s.message)
  }

  /** A snapshot read back from its row, with the given deltas. */
  function SnapshotOf(id: string, row: SnapshotRow, deltas: seq<FileDelta>): (s: Snapshot)
    ensures s.id == id && RowOf(s) == row && s.deltas == deltas
  {
    Snapshot(id, row.timestamp, row.autoSave, row.message, deltas)
  }

  /** Binding of an optional column: an empty value is bound as NULL. */
  function NullIfEmpty<T>(s: seq<T>): (c: Option<seq<T>>)
    ensures c.None? <==> s == []
    ensures c.Some? ==> c.value == s
  {
    if s == [] then None else Some(s)
  }

  /** Reading of an optional column: NULL leaves the member empty. */
  function EmptyIfNull<T>(c: Option<seq<T>>): (s: seq<T>)
    ensures c.Some? ==> s == c.value
    ensures c.None? ==> s == []
  {
    match c
    case None => []
    case Some(v) => v
  }

  /** Columns 3 to 5 as `storeDelta` binds them. */
  function EncodeDelta(d: FileDelta): (row: DeltaRow)
    ensures 0 <= row.action < 3
  {
    DeltaRow(NullIfEmpty(d.baseSnapshotId), NullIfEmpty(d.content), ActionCode(d.action))
  }

  /** A `FileDelta` as `loadDeltas` builds it from a row. */
  function DecodeDelta(path: string, row: DeltaRow): FileDelta
    requires 0 <= row.action < 3
  {
    FileDelta(path, ActionOf(row.action), EmptyIfNull(row.delta), EmptyIfNull(row.baseSnapshotId))
  }

  /** Empty base ids and empty contents go in as NULL and come back empty:
      every delta survives the trip through its row. */
  lemma DeltaRoundTrip(d: FileDelta)
    ensures DecodeDelta(d.path, EncodeDelta(d)) == d
  {
  }

  /** Every stored action code is one of the enumerators. */
  ghost predicate ValidDeltas(t: DeltaTable) {
    forall k :: k in t ==> 0 <= t[k].action < 3
  }

  /** The two tables of a database file as `Storage::init` finds them. */
  datatype Database = Database(snapshots: SnapshotTable, deltas: DeltaTable)

  /** A database whose delta rows all hold one of the three action codes,
      as every row `storeDelta` writes does. */
  type ValidDatabase = db: Database | ValidDeltas(db.deltas) witness Database(map[], map[])

  ghost predicate DistinctPaths(ds: seq<FileDelta>) {
    forall i, j :: 0 <= i < j < |ds| ==> ds[i].path != ds[j].path
  }

  /** The delta rows after `storeDelta` has run for each of `ds` in turn, or
      `None` when one of them hits an existing (snapshot_id, file_path) key. */
  function InsertDeltas(t: DeltaTable, id: string, ds: seq<FileDelta>): Option<DeltaTable>
    decreases |ds|
  {
    if ds == [] then Some(t)
    else if DeltaKey(id, ds[0].path) in t then None
    else InsertDeltas(t[DeltaKey(id, ds[0].path) := EncodeDelta(ds[0])], id, ds[1..])
  }

  /** The rows left by `DELETE FROM deltas WHERE snapshot_id = ?`. */
  function DropDeltas(t: DeltaTable, id: string): (r: DeltaTable)
    ensures forall k :: k in r <==> k in t && k.snapshotId != id
    ensures forall k :: k in r ==> r[k] == t[k]
  {
    map k | k in t && k.snapshotId != id :: t[k]
  }

  /** Inserting a snapshot's deltas succeeds exactly when its paths are
      distinct and none of its keys is already taken. */
  lemma {:induction false} InsertDeltasSucceeds(t: DeltaTable, id: string, ds: seq<FileDelta>)
    ensures InsertDeltas(t, id, ds).Some? <==>
              DistinctPaths(ds) && forall i :: 0 <= i < |ds| ==> DeltaKey(id, ds[i].path) !in t
    decreases |ds|
  {
    if ds != [] {
      var k0 := DeltaKey(id, ds[0].path);
      if k0 !in t {
        var t1 := t[k0 := EncodeDelta(ds[0])];
        InsertDeltasSucceeds(t1, id, ds[1..]);
        if DistinctPaths(ds) && forall i :: 0 <= i < |ds| ==> DeltaKey(id, ds[i].path) !in t {
          forall i | 0 <= i < |ds[1..]| ensures DeltaKey(id, ds[1..][i].path) !in t1 {
            assert ds[1..][i] == ds[i + 1];
          }
          assert DistinctPaths(ds[1..]) by {
            forall i, j | 0 <= i < j < |ds[1..]| ensures ds[1..][i].path != ds[1..][j].path {
              assert ds[1..][i] == ds[i + 1] && ds[1..][j] == ds[j + 1];
            }
          }
        }
        if InsertDeltas(t, id, ds).Some? {
          forall i, j | 0 <= i < j < |ds| ensures ds[i].path != ds[j].path {
            if i == 0 {
              assert ds[1..][j - 1] == ds[j];
            } else {
              assert ds[1..][i - 1] == ds[i] && ds[1..][j - 1] == ds[j];
            }
          }
          forall i | 0 <= i < |ds| ensures DeltaKey(id, ds[i].path) !in t {
            if i > 0 { assert ds[1..][i - 1] == ds[i]; }
          }
        }
      }
    }
  }

  /** A successful insert adds one row per delta, holding that delta, and
      keeps every earlier row. */
  lemma InsertDeltasRows(t: DeltaTable, id: string, ds: seq<FileDelta>)
    ensures InsertDeltas(t, id, ds).Some? ==>
              var t' := InsertDeltas(t, id, ds).value;
              && (forall k :: k in t ==> k in t' && t'[k] == t[k])
              && (forall i :: 0 <= i < |ds| ==> DeltaKey(id, ds[i].path) in t' && t'[DeltaKey(id, ds[i].path)] == EncodeDelta(ds[i]))
              && (forall k :: k in t' && k !in t ==> exists i :: 0 <= i < |ds| && k == DeltaKey(id, ds[i].path))
  {
    if InsertDeltas(t, id, ds).Some? {
      var t' := InsertDeltas(t, id, ds).value;
      InsertKeeps(t, id, ds, t');
      InsertHolds(t, id, ds, t');
      InsertOnly(t, id, ds, t');
    }
  }

  lemma {:induction false} InsertKeeps(t: DeltaTable, id: string, ds: seq<FileDelta>, t': DeltaTable)
    requires InsertDeltas(t, id, ds) == Some(t')
    ensures forall k :: k in t ==> k in t' && t'[k] == t[k]
    decreases |ds|
  {
    if ds != [] {
      InsertKeeps(t[DeltaKey(id, ds[0].path) := EncodeDelta(ds[0])], id, ds[1..], t');
    }
  }

  lemma {:induction false} InsertHolds(t: DeltaTable, id: string, ds: seq<FileDelta>, t': DeltaTable)
    requires InsertDeltas(t, id, ds) == Some(t')
    ensures forall i :: 0 <= i < |ds| ==> DeltaKey(id, ds[i].path) in t' && t'[DeltaKey(id, ds[i].path)] == EncodeDelta(ds[i])
    decreases |ds|
  {
    if ds != [] {
      var t1 := t[DeltaKey(id, ds[0].path) := EncodeDelta(ds[0])];
      InsertKeeps(t1, id, ds[1..], t');
      InsertHolds(t1, id, ds[1..], t');
      forall i | 0 < i < |ds|
        ensures DeltaKey(id, ds[i].path) in t' && t'[DeltaKey(id, ds[i].path)] == EncodeDelta(ds[i])
      {
        assert ds[1..][i - 1] == ds[i];
      }
    }
  }

  lemma {:induction false} InsertOnly(t: DeltaTable, id: string, ds: seq<FileDelta>, t': DeltaTable)
    requires InsertDeltas(t, id, ds) == Some(t')
    ensures forall k :: k in t' && k !in t ==> exists i :: 0 <= i < |ds| && k == DeltaKey(id, ds[i].path)
    decreases |ds|
  {
    if ds != [] {
      var k0 := DeltaKey(id, ds[0].path);
      var t1 := t[k0 := EncodeDelta(ds[0])];
      InsertOnly(t1, id, ds[1..], t');
      forall k | k in t' && k !in t
        ensures exists i :: 0 <= i < |ds| && k == DeltaKey(id, ds[i].path)
      {
        if k == k0 {
          assert k == DeltaKey(id, ds[0].path);
        } else {
          var j :| 0 <= j < |ds[1..]| && k == DeltaKey(id, ds[1..][j].path);
          assert k == DeltaKey(id, ds[j + 1].path);
        }
      }
    }
  }

  /** `cleanup`'s effect on the snapshot rows: when there are more than
      `MaxSnapshots`, exactly the excess is deleted, and no deleted row is
      newer than a kept one; otherwise nothing changes. */
  ghost predicate Evicted(before: SnapshotTable, after: SnapshotTable) {
    && after.Keys <= before.Keys
    && (forall id :: id in after ==> after[id] == before[id])
    && |after| == (if |before| > MaxSnapshots then MaxSnapshots else |before|)
    && (forall gone, kept :: gone in before && gone !in after && kept in after ==>
          before[gone].timestamp <= before[kept].timestamp)
  }

  /** What `store(s)` does to the tables (snaps, deltas), giving result `r`
      and tables (snaps', deltas'). A taken id fails the snapshot insert and
      changes nothing. A delta insert hitting a taken key makes `store` call
      `remove(s.id)` and rethrow, which deletes the new snapshot row and every
      delta row carrying `s.id`. Otherwise the rows are in and `cleanup` runs. */
  ghost predicate StoreOutcome(snaps: SnapshotTable, deltas: DeltaTable, s: Snapshot, r: Result<string>,
                               snaps': SnapshotTable, deltas': DeltaTable)
  {
    if s.id in snaps then
      r == Failure("Failed to insert snapshot") && snaps' == snaps && deltas' == deltas
    else
      match InsertDeltas(deltas, s.id, s.deltas)
      case None =>
        r == Failure("Failed to insert delta") && snaps' == snaps && deltas' == DropDeltas(deltas, s.id)
      case Some(t) =>
        r == Success(s.id) && deltas' == t && Evicted(snaps[s.id := RowOf(s)], snaps')
  }

  /** The rows `list` returns, in order: each row once, as a snapshot without
      deltas, in non-decreasing timestamp order. */
  ghost predicate IsListing(t: SnapshotTable, r: seq<Snapshot>) {
    && |r| == |t|
    && (forall i :: 0 <= i < |r| ==> r[i].id in t && r[i] == SnapshotOf(r[i].id, t[r[i].id], []))
    && (forall id :: id in t ==> exists i :: 0 <= i < |r| && r[i].id == id)
    && (forall i, j :: 0 <= i < j < |r| ==> r[i].id != r[j].id)
    && (forall i, j :: 0 <= i < j < |r| ==> r[i].timestamp <= r[j].timestamp)
  }

  /** The deltas `loadDeltas(id)` returns: exactly the rows carrying `id`,
      each once, decoded; SQL fixes no order among them. */
  ghost predicate ListsDeltas(t: DeltaTable, id: string, ds: seq<FileDelta>) {
    && ValidDeltas(t)
    && (forall i :: 0 <= i < |ds| ==>
          DeltaKey(id, ds[i].path) in t && ds[i] == DecodeDelta(ds[i].path, t[DeltaKey(id, ds[i].path)]))
    && DistinctPaths(ds)
    && (forall k :: k in t && k.snapshotId == id ==> exists i :: 0 <= i < |ds| && ds[i].path == k.path)
  }

  /** Loop invariant of `list`: `r` lists, in order, the rows of `t` that are
      no longer in `rest`, and none of them is newer than a row still in
      `rest`. */
  ghost predicate ListingSoFar(t: SnapshotTable, r: seq<Snapshot>, rest: SnapshotTable) {
    && rest.Keys <= t.Keys
    && (forall id :: id in rest ==> rest[id] == t[id])
    && |r| + |rest| == |t|
    && ListedRows(t, r, rest)
    && ListedInOrder(r, rest)
  }

  /** The rows of `t` missing from `rest` are those of `r`, each once. */
  ghost predicate ListedRows(t: SnapshotTable, r: seq<Snapshot>, rest: SnapshotTable) {
    && (forall i :: 0 <= i < |r| ==> r[i].id in t && r[i].id !in rest && r[i] == SnapshotOf(r[i].id, t[r[i].id], []))
    && (forall id :: id in t && id !in rest ==> exists i :: 0 <= i < |r| && r[i].id == id)
    && (forall i, j :: 0 <= i < j < |r| ==> r[i].id != r[j].id)
  }

  /** `r` is in timestamp order and no newer than anything in `rest`. */
  ghost predicate ListedInOrder(r: seq<Snapshot>, rest: SnapshotTable) {
    && (forall i, j :: 0 <= i < j < |r| ==> r[i].timestamp <= r[j].timestamp)
    && (forall i, id :: 0 <= i < |r| && id in rest ==> r[i].timestamp <= rest[id].timestamp)
  }

  /** One step of `list`: appending the oldest remaining row keeps the loop
      invariant. */
  lemma ListingStep(t: SnapshotTable, r: seq<Snapshot>, rest: SnapshotTable, id: string)
    requires ListingSoFar(t, r, rest)
    requires id in rest && forall k :: k in rest ==> rest[id].timestamp <= rest[k].timestamp
    ensures ListingSoFar(t, r + [SnapshotOf(id, rest[id], [])], rest - {id})
  {
    var rest' := rest - {id};
    assert rest'.Keys == rest.Keys - {id};
    ListedRowsStep(t, r, rest, id);
    ListedInOrderStep(r, rest, id);
  }

  lemma ListedRowsStep(t: SnapshotTable, r: seq<Snapshot>, rest: SnapshotTable, id: string)
    requires ListedRows(t, r, rest)
    requires id in rest && rest.Keys <= t.Keys && rest[id] == t[id]
    ensures ListedRows(t, r + [SnapshotOf(id, rest[id], [])], rest - {id})
  {
    var r' := r + [SnapshotOf(id, rest[id], [])];
    var rest' := rest - {id};
    assert forall i :: 0 <= i < |r| ==> r'[i] == r[i];
    assert r'[|r|] == SnapshotOf(id, t[id], []);
    forall k | k in t && k !in rest' ensures exists i :: 0 <= i < |r'| && r'[i].id == k {
      if k == id {
        assert r'[|r|].id == k;
      } else {
        var i :| 0 <= i < |r| && r[i].id == k;
        assert r'[i].id == k;
      }
    }
  }

  lemma ListedInOrderStep(r: seq<Snapshot>, rest: SnapshotTable, id: string)
    requires ListedInOrder(r, rest)
    requires id in rest && forall k :: k in rest ==> rest[id].timestamp <= rest[k].timestamp
    ensures ListedInOrder(r + [SnapshotOf(id, rest[id], [])], rest - {id})
  {
    var r' := r + [SnapshotOf(id, rest[id], [])];
    assert forall i :: 0 <= i < |r| ==> r'[i] == r[i];
    assert r'[|r|].timestamp == rest[id].timestamp;
  }

  /** When nothing remains, the invariant of `list` is its postcondition. */
  lemma ListingDone(t: SnapshotTable, r: seq<Snapshot>)
    requires ListingSoFar(t, r, map[])
    ensures IsListing(t, r)
  {
  }

  /** The id of a row with the smallest timestamp (the first row of
      `ORDER BY timestamp ASC`). */
  method Oldest(rows: SnapshotTable) returns (id: string)
    requires rows != map[]
    ensures id in rows
    ensures forall k :: k in rows ==> rows[id].timestamp <= rows[k].timestamp
  {
    var rest := rows.Keys;
    id :| id in rest;
    rest := rest - {id};
    while rest != {}
      invariant rest <= rows.Keys && id in rows
      invariant forall k :: k in rows.Keys - rest ==> rows[id].timestamp <= rows[k].timestamp
      decreases rest
    {
      var k :| k in rest;
      if rows[k].timestamp < rows[id].timestamp {
        id := k;
      }
      rest := rest - {k};
    }
  }

  lemma {:induction false} SubsetSize<T>(a: set<T>, b: set<T>)
    requires a <= b
    ensures |a| <= |b|
  {
    if a != {} {
      var x :| x in a;
      SubsetSize(a - {x}, b - {x});
    }
  }

  /** A successful store of a snapshot is visible afterwards unless `cleanup`
      evicted it; it cannot have been evicted when the table had room or when
      the new snapshot is strictly newer than every stored one. Loading it
      then gives back its row, and, when no delta rows of its id were left
      behind by earlier evictions, exactly its deltas in some order. */
  lemma StoreThenLoad(snaps: SnapshotTable, deltas: DeltaTable, s: Snapshot, r: Result<string>,
                      snaps': SnapshotTable, deltas': DeltaTable)
    requires StoreOutcome(snaps, deltas, s, r, snaps', deltas')
    requires r.Success?
    requires |snaps| < MaxSnapshots || forall k :: k in snaps ==> snaps[k].timestamp < s.timestamp
    ensures r.value == s.id
    ensures s.id in snaps' && SnapshotOf(s.id, snaps'[s.id], s.deltas) == s
    ensures (forall k :: k in deltas ==> k.snapshotId != s.id) ==>
              forall ds :: ListsDeltas(deltas', s.id, ds) ==>
                |ds| == |s.deltas| && forall d :: d in ds <==> d in s.deltas
  {
    StoreThenLoadRow(snaps, deltas, s, r, snaps', deltas');
    if forall k :: k in deltas ==> k.snapshotId != s.id {
      StoreThenLoadDeltas(snaps, deltas, s, r, snaps', deltas');
    }
  }

  /** The deltas loaded back after a successful store of a snapshot whose id
      had no delta rows are exactly the snapshot's deltas. */
  lemma StoreThenLoadDeltas(snaps: SnapshotTable, deltas: DeltaTable, s: Snapshot, r: Result<string>,
                            snaps': SnapshotTable, deltas': DeltaTable)
    requires StoreOutcome(snaps, deltas, s, r, snaps', deltas')
    requires r.Success?
    requires forall k :: k in deltas ==> k.snapshotId != s.id
    ensures forall ds :: ListsDeltas(deltas', s.id, ds) ==>
              |ds| == |s.deltas| && forall d :: d in ds <==> d in s.deltas
  {
    assert s.id !in snaps;
    assert InsertDeltas(deltas, s.id, s.deltas) == Some(deltas');
    forall ds | ListsDeltas(deltas', s.id, ds)
      ensures |ds| == |s.deltas| && forall d :: d in ds <==> d in s.deltas
    {
      StoredDeltasLoadBack(deltas, s.id, s.deltas, deltas', ds);
    }
  }

  /** The snapshot row of a successful store survives cleanup when the table
      had room or the snapshot is strictly the newest. */
  lemma StoreThenLoadRow(snaps: SnapshotTable, deltas: DeltaTable, s: Snapshot, r: Result<string>,
                         snaps': SnapshotTable, deltas': DeltaTable)
    requires StoreOutcome(snaps, deltas, s, r, snaps', deltas')
    requires r.Success?
    requires |snaps| < MaxSnapshots || forall k :: k in snaps ==> snaps[k].timestamp < s.timestamp
    ensures r.value == s.id
    ensures s.id in snaps' && SnapshotOf(s.id, snaps'[s.id], s.deltas) == s
  {
    var before := snaps[s.id := RowOf(s)];
    assert s.id !in snaps;
    assert |before| == |snaps| + 1;
    if s.id !in snaps' {
      if |snaps| < MaxSnapshots {
        assert snaps'.Keys <= snaps.Keys;
        SubsetSize(snaps'.Keys, snaps.Keys);
        assert false;
      }
    }
  }

  /** The case `StoreThenLoad` leaves out: storing into a full table a
      snapshot older than every stored one succeeds and returns its id, yet
      `cleanup` deletes that very row, so loading the id afterwards finds
      nothing. */
  lemma StoreEvictsOlder(snaps: SnapshotTable, deltas: DeltaTable, s: Snapshot, r: Result<string>,
                         snaps': SnapshotTable, deltas': DeltaTable)
    requires StoreOutcome(snaps, deltas, s, r, snaps', deltas')
    requires r.Success?
    requires |snaps| >= MaxSnapshots && forall k :: k in snaps ==> s.timestamp < snaps[k].timestamp
    ensures r.value == s.id && s.id !in snaps'
  {
    var before := snaps[s.id := RowOf(s)];
    assert s.id !in snaps;
    assert |before| == |snaps| + 1;
    assert InsertDeltas(deltas, s.id, s.deltas).Some?;
    assert Evicted(before, snaps');
    if before.Keys <= snaps'.Keys {
      SubsetSize(before.Keys, snaps'.Keys);
      assert false;
    }
    var gone :| gone in before.Keys && gone !in snaps'.Keys;
    assert gone != s.id ==> before[gone].timestamp > s.timestamp;
  }

  /** A failed store leaves no trace of the snapshot: no row of `s.id` in
      either table, and every row of another snapshot as it was. When no
      delta rows of `s.id` were left behind by earlier evictions, the tables
      are exactly as before. */
  lemma StoreAllOrNothing(snaps: SnapshotTable, deltas: DeltaTable, s: Snapshot, r: Result<string>,
                          snaps': SnapshotTable, deltas': DeltaTable)
    requires StoreOutcome(snaps, deltas, s, r, snaps', deltas')
    requires r.Failure?
    requires forall k :: k in deltas ==> k.snapshotId != s.id
    ensures snaps' == snaps && deltas' == deltas
  {
    if s.id !in snaps {
      assert deltas' == DropDeltas(deltas, s.id);
      assert deltas'.Keys == deltas.Keys;
    }
  }

  /** After a successful store of a snapshot whose id had no delta rows, the
      deltas `load` returns for it are exactly the snapshot's deltas, in some
      order. */
  lemma StoredDeltasLoadBack(t: DeltaTable, id: string, dels: seq<FileDelta>, t': DeltaTable, ds: seq<FileDelta>)
    requires forall k :: k in t ==> k.snapshotId != id
    requires InsertDeltas(t, id, dels) == Some(t')
    requires ListsDeltas(t', id, ds)
    ensures |ds| == |dels|
    ensures forall d :: d in ds <==> d in dels
  {
    InsertDeltasSucceeds(t, id, dels);
    InsertDeltasRows(t, id, dels);
    forall d | d in ds ensures d in dels {
      var i :| 0 <= i < |ds| && ds[i] == d;
      var k := DeltaKey(id, d.path);
      assert k in t' && k !in t;
      var j :| 0 <= j < |dels| && k == DeltaKey(id, dels[j].path);
      DeltaRoundTrip(dels[j]);
      assert d == dels[j];
    }
    forall d | d in dels ensures d in ds {
      var j :| 0 <= j < |dels| && dels[j] == d;
      var k := DeltaKey(id, d.path);
      assert k in t';
      var i :| 0 <= i < |ds| && ds[i].path == k.path;
      DeltaRoundTrip(dels[j]);
      assert ds[i] == d;
    }
    // equal sizes: both are duplicate-free by path and share their paths
    assert Paths(ds) == Paths(dels) by {
      forall p | p in Paths(ds) ensures p in Paths(dels) {
        var i :| 0 <= i < |ds| && ds[i].path == p;
        assert ds[i] in dels;
      }
      forall p | p in Paths(dels) ensures p in Paths(ds) {
        var j :| 0 <= j < |dels| && dels[j].path == p;
        assert dels[j] in ds;
      }
    }
    DistinctCount(ds);
    DistinctCount(dels);
  }

  /** The set of paths a sequence of deltas touches. */
  ghost function Paths(ds: seq<FileDelta>): set<string> {
    set i | 0 <= i < |ds| :: ds[i].path
  }

  lemma PathsSnoc(ds: seq<FileDelta>)
    requires ds != []
    ensures Paths(ds) == Paths(ds[..|ds| - 1]) + {ds[|ds| - 1].path}
  {
    var rest := ds[..|ds| - 1];
    forall x | x in Paths(ds) ensures x in Paths(rest) + {ds[|ds| - 1].path} {
      var i :| 0 <= i < |ds| && ds[i].path == x;
      if i < |ds| - 1 { assert rest[i] == ds[i]; }
    }
    forall x | x in Paths(rest) ensures x in Paths(ds) {
      var i :| 0 <= i < |rest| && rest[i].path == x;
      assert ds[i] == rest[i];
    }
  }

  lemma DistinctPrefix(ds: seq<FileDelta>)
    requires ds != [] && DistinctPaths(ds)
    ensures DistinctPaths(ds[..|ds| - 1])
    ensures ds[|ds| - 1].path !in Paths(ds[..|ds| - 1])
  {
    var rest := ds[..|ds| - 1];
    forall i, j | 0 <= i < j < |rest| ensures rest[i].path != rest[j].path {
      assert rest[i] == ds[i] && rest[j] == ds[j];
    }
  }

  /** A duplicate-free sequence of paths has as many paths as entries. */
  lemma {:induction false} DistinctCount(ds: seq<FileDelta>)
    requires DistinctPaths(ds)
    ensures |Paths(ds)| == |ds|
  {
    if ds != [] {
      DistinctPrefix(ds);
      DistinctCount(ds[..|ds| - 1]);
      PathsSnoc(ds);
    }
  }

  /** Storage::Impl over an open database. */
  class Storage {
    var snapshots: SnapshotTable
    var deltas: DeltaTable

    ghost predicate Valid()
      reads this
    {
      ValidDeltas(deltas)
    }

    /** A freshly created database: both tables empty. */
    constructor ()
      ensures Valid() && snapshots == map[] && deltas == map[]
    {
      snapshots := map[];
      deltas := map[];
    }

    /** `Storage(workspace)` followed by a successful `init`: the store now
        works on the tables of the workspace's database file. */
    method Open(db: ValidDatabase)
      modifies this
      ensures Valid() && snapshots == db.snapshots && deltas == db.deltas
    {
      snapshots := db.snapshots;
      deltas := db.deltas;
    }

    /** `store`: insert the snapshot row, then one delta row per delta; roll
        back through `remove` when a delta insert fails; run `cleanup` on
        success. */
    method Store(s: Snapshot) returns (r: Result<string>)
      requires Valid()
      modifies this
      ensures Valid()
      ensures StoreOutcome(old(snapshots), old(deltas), s, r, snapshots, deltas)
    {
      if s.id in snapshots {
        return Failure("Failed to insert snapshot");
      }
      snapshots := snapshots[s.id := RowOf(s)];
      var i := 0;
      while i < |s.deltas|
        invariant 0 <= i <= |s.deltas|
        invariant Valid()
        invariant snapshots == old(snapshots)[s.id := RowOf(s)]
        invariant InsertDeltas(old(deltas), s.id, s.deltas) == InsertDeltas(deltas, s.id, s.deltas[i..])
        invariant forall k :: k in old(deltas) ==> k in deltas && deltas[k] == old(deltas)[k]
        invariant forall k :: k in deltas && k !in old(deltas) ==> k.snapshotId == s.id
      {
        assert s.deltas[i..][0] == s.deltas[i] && s.deltas[i..][1..] == s.deltas[i + 1..];
        var ok := StoreDelta(s.id, s.deltas[i]);
        if !ok {
          ghost var before := deltas;
          var _ := Remove(s.id);
          assert DropDeltas(before, s.id) == DropDeltas(old(deltas), s.id);
          return Failure("Failed to insert delta");
        }
        i := i + 1;
      }
      Cleanup();
      r := Success(s.id);
    }

    /** `storeDelta`: insert one delta row; a taken (snapshot_id, file_path)
        key makes the insert fail and nothing changes. */
    method StoreDelta(id: string, d: FileDelta) returns (ok: bool)
      requires Valid()
      modifies this`deltas
      ensures Valid()
      ensures ok <==> DeltaKey(id, d.path) !in old(deltas)
      ensures deltas == if ok then old(deltas)[DeltaKey(id, d.path) := EncodeDelta(d)] else old(deltas)
    {
      var key := DeltaKey(id, d.path);
      if key in deltas {
        return false;
      }
      deltas := deltas[key := EncodeDelta(d)];
      ok := true;
    }

    /** `load`: the snapshot row with its delta rows, or "Snapshot not found". */
    method Load(id: string) returns (r: Result<Snapshot>)
      requires Valid()
      ensures id !in snapshots ==> r == Failure("Snapshot not found")
      ensures id in snapshots ==> r.Success? && r.value == SnapshotOf(id, snapshots[id], r.value.deltas)
      ensures id in snapshots ==> ListsDeltas(deltas, id, r.value.deltas)
    {
      if id !in snapshots {
        return Failure("Snapshot not found");
      }
      var ds := LoadDeltas(id);
      r := Success(SnapshotOf(id, snapshots[id], ds));
    }

    /** `loadDeltas`: step through the rows of `deltas`, keeping those of `id`. */
    method LoadDeltas(id: string) returns (ds: seq<FileDelta>)
      requires Valid()
      ensures ListsDeltas(deltas, id, ds)
    {
      ds := [];
      var rows := deltas.Keys;
      while rows != {}
        invariant rows <= deltas.Keys
        invariant forall i :: 0 <= i < |ds| ==>
                    DeltaKey(id, ds[i].path) in deltas && DeltaKey(id, ds[i].path) !in rows &&
                    ds[i] == DecodeDelta(ds[i].path, deltas[DeltaKey(id, ds[i].path)])
        invariant DistinctPaths(ds)
        invariant forall k :: k in deltas && k !in rows && k.snapshotId == id ==>
                    exists i :: 0 <= i < |ds| && ds[i].path == k.path
        decreases rows
      {
        var k :| k in rows;
        if k.snapshotId == id {
          ghost var before := ds;
          ds := ds + [DecodeDelta(k.path, deltas[k])];
          assert forall i :: 0 <= i < |before| ==> ds[i] == before[i];
          assert ds[|ds| - 1].path == k.path;
        }
        rows := rows - {k};
      }
    }

    /** `list`: every snapshot row, ordered by timestamp, without deltas. */
    method List() returns (r: seq<Snapshot>)
      requires Valid()
      ensures IsListing(snapshots, r)
    {
      r := [];
      var rest := snapshots;
      while rest != map[]
        invariant ListingSoFar(snapshots, r, rest)
        decreases |rest|
      {
        var id := Oldest(rest);
        ListingStep(snapshots, r, rest, id);
        r := r + [SnapshotOf(id, rest[id], [])];
        rest := rest - {id};
      }
      ListingDone(snapshots, r);
    }

    /** `remove`: delete the delta rows of `id`, then its snapshot row. The
        DELETE finishes with SQLITE_DONE whether or not a row matched, so the
        result is true. */
    method Remove(id: string) returns (ok: bool)
      requires Valid()
      modifies this
      ensures Valid()
      ensures deltas == DropDeltas(old(deltas), id)
      ensures snapshots == old(snapshots) - {id}
      ensures ok
    {
      deltas := DropDeltas(deltas, id);
      snapshots := snapshots - {id};
      ok := true;
    }

    /** `cleanup`: when the table holds more than `MaxSnapshots` rows, delete
        the `count - MaxSnapshots` oldest snapshot rows. Their delta rows are
        not deleted. */
    method Cleanup()
      requires Valid()
      modifies this
      ensures Valid() && deltas == old(deltas)
      ensures Evicted(old(snapshots), snapshots)
    {
      var count := |snapshots|;
      if count > MaxSnapshots {
        var excess := count - MaxSnapshots;
        var n := 0;
        while n < excess
          invariant 0 <= n <= excess
          invariant deltas == old(deltas)
          invariant snapshots.Keys <= old(snapshots).Keys
          invariant forall id :: id in snapshots ==> snapshots[id] == old(snapshots)[id]
          invariant |snapshots| == count - n
          invariant forall gone, kept :: gone in old(snapshots) && gone !in snapshots && kept in snapshots ==>
                      old(snapshots)[gone].timestamp <= old(snapshots)[kept].timestamp
        {
          var oldest := Oldest(snapshots);
          assert (snapshots - {oldest}).Keys == snapshots.Keys - {oldest};
          snapshots := snapshots - {oldest};
          n := n + 1;
        }
      }
    }

    /** `lastSnapshotId`: the id of a row with the greatest timestamp, or ""
        for an empty table. */
    method LastSnapshotId() returns (id: string)
      ensures snapshots == map[] ==> id == []
      ensures snapshots != map[] ==>
                id in snapshots && forall k :: k in snapshots ==> snapshots[k].timestamp <= snapshots[id].timestamp
    {
      if snapshots == map[] {
        return [];
      }
      var rest := snapshots.Keys;
      id :| id in rest;
      rest := rest - {id};
      while rest != {}
        invariant rest <= snapshots.Keys && id in snapshots
        invariant forall k :: k in snapshots.Keys - rest ==> snapshots[k].timestamp <= snapshots[id].timestamp
        decreases rest
      {
        var k :| k in rest;
        if snapshots[k].timestamp > snapshots[id].timestamp {
          id := k;
        }
        rest := rest - {k};
      }
    }
  }
}
