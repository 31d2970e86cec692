/** The persisted source table: one record per source name, and the row-level writes
    the repository issues against it. An UPDATE of a name that has no row changes nothing. */
module SourcesStore {

  /** One row of the sources table (`MangaSourceEntity`). */
  datatype Entity = Entity(
    source: string,
    isEnabled: bool,
    sortKey: int,
    addedIn: int,
    lastUsedAt: int,
    isPinned: bool)

  /** The table, keyed by source name. */
  type Store = map<string, Entity>

  /** Every row is stored under its own name. */
  predicate KeysMatch(db: Store) {
    forall k | k in db :: db[k].source == k
  }

  /** The two boolean columns a batch write can target. */
  datatype Flag = Enabled | Pinned

  function WithFlag(e: Entity, flag: Flag, value: bool): Entity {
    match flag
    case Enabled => e.(isEnabled := value)
    case Pinned => e.(isPinned := value)
  }

  function FlagOf(e: Entity, flag: Flag): bool {
    match flag
    case Enabled => e.isEnabled
    case Pinned => e.isPinned
  }

  /** `setEnabled` / `setPinned` for a single name. */
  function SetFlag(db: Store, name: string, flag: Flag, value: bool): (r: Store)
    ensures r.Keys == db.Keys
    ensures forall k | k in db :: r[k] == if k == name then WithFlag(db[k], flag, value) else db[k]
  {
    if name in db then db[name := WithFlag(db[name], flag, value)] else db
  }

  /** `setSortKey`. */
  function SetSortKey(db: Store, name: string, sortKey: int): (r: Store)
    ensures r.Keys == db.Keys
    ensures forall k | k in db :: r[k] == if k == name then db[k].(sortKey := sortKey) else db[k]
  {
    if name in db then db[name := db[name].(sortKey := sortKey)] else db
  }

  /** `setLastUsed`. */
  function SetLastUsed(db: Store, name: string, time: int): (r: Store)
    ensures r.Keys == db.Keys
    ensures forall k | k in db :: r[k] == if k == name then db[k].(lastUsedAt := time) else db[k]
  {
    if name in db then db[name := db[name].(lastUsedAt := time)] else db
  }

  /** `disableAllSources`: every row is switched off. */
  function DisableAll(db: Store): (r: Store)
    ensures r.Keys == db.Keys
    ensures forall k | k in db :: r[k] == db[k].(isEnabled := false)
  {
    map k | k in db :: db[k].(isEnabled := false)
  }

  function SourcesOf(rows: seq<Entity>): set<string> {
    set e | e in rows :: e.source
  }

  /** Rows of a batch name pairwise different sources. */
  predicate DistinctSources(rows: seq<Entity>) {
    forall i, j | 0 <= i < j < |rows| :: rows[i].source != rows[j].source
  }

  /** `insertIfAbsent`: rows are inserted in order, a row whose name is already present is ignored. */
  function InsertIfAbsent(db: Store, rows: seq<Entity>): (r: Store)
    ensures r.Keys == db.Keys + SourcesOf(rows)
    ensures forall k | k in db :: r[k] == db[k]
    ensures forall k | k in r && k !in db :: r[k] in rows && r[k].source == k
    decreases |rows|
  {
    if |rows| == 0 then db
    else
      var next := if rows[0].source in db then db else db[rows[0].source := rows[0]];
      var r := InsertIfAbsent(next, rows[1..]);
      InsertIfAbsentStep(db, rows, next, r);
      r
  }

  lemma InsertIfAbsentStep(db: Store, rows: seq<Entity>, next: Store, r: Store)
    requires |rows| > 0
    requires next == if rows[0].source in db then db else db[rows[0].source := rows[0]]
    requires r.Keys == next.Keys + SourcesOf(rows[1..])
    requires forall k | k in next :: r[k] == next[k]
    requires forall k | k in r && k !in next :: r[k] in rows[1..] && r[k].source == k
    ensures r.Keys == db.Keys + SourcesOf(rows)
    ensures forall k | k in db :: r[k] == db[k]
    ensures forall k | k in r && k !in db :: r[k] in rows && r[k].source == k
  {
    assert SourcesOf(rows) == {rows[0].source} + SourcesOf(rows[1..]) by {
      assert rows == [rows[0]] + rows[1..];
    }
    forall k | k in r && k !in db
      ensures r[k] in rows && r[k].source == k
    {
      if k in next {
        assert k == rows[0].source && r[k] == rows[0];
      } else {
        assert r[k] in rows[1..];
      }
    }
  }

  /** When the batch names distinct sources, every absent source receives exactly its row. */
  lemma InsertIfAbsentRow(db: Store, rows: seq<Entity>, i: int)
    requires DistinctSources(rows) && 0 <= i < |rows| && rows[i].source !in db
    ensures InsertIfAbsent(db, rows)[rows[i].source] == rows[i]
  {
    var r := InsertIfAbsent(db, rows);
    var e := r[rows[i].source];
    var j :| 0 <= j < |rows| && rows[j] == e;
    assert rows[j].source == rows[i].source;
  }
}
