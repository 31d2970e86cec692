/** `assimilateNewSources`: the once-per-instance insertion of a record for every catalog
    source the table does not know yet. */
module Assimilation {
  import opened Sequences
  import opened SourceCatalog
  import opened SourcesStore
  import opened Registry

  /** The sources that some stored name resolves to. */
  function StoredSources(env: Env, db: Store): set<Source> {
    set k | k in db && Resolve(env.entries, k).Some? :: Resolve(env.entries, k).value
  }

  /** `getNewSources`: the catalog minus every source a stored name resolves to, in the
      declaration order in which the `EnumSet` is iterated. */
  function GetNewSources(env: Env, db: Store): (r: seq<Source>)
    requires ValidEnv(env)
    ensures UniqueNames(r)
    ensures forall s | s in r :: s in CatalogOf(env) && s.name !in db
    ensures forall s | s in CatalogOf(env) && s.name !in db :: s in r
    ensures Subseq(r, CatalogOrder(env.entries, env.debug))
  {
    var stored := StoredSources(env, db);
    var order := CatalogOrder(env.entries, env.debug);
    var r := Filter(order, s => s !in stored);
    assert forall s | s in CatalogOf(env) :: s in stored <==> s.name in db by {
      forall s | s in CatalogOf(env)
        ensures s in stored <==> s.name in db
      {
        if s in stored {
          var k :| k in db && Resolve(env.entries, k).Some? && Resolve(env.entries, k).value == s;
        }
        if s.name in db {
          ResolveEntry(env.entries, s);
        }
      }
    }
    UniqueNamesSubseq(r, order);
    r
  }

  /** The state of a record inserted by assimilation. */
  predicate IsNewRecord(e: Entity, versionCode: int) {
    !e.isEnabled && !e.isPinned && e.lastUsedAt == 0 && e.addedIn == versionCode
  }

  /** The batch built by `new.map { ... sortKey = ++maxSortKey ... }`. */
  function NewEntities(missing: seq<Source>, maxSortKey: int, versionCode: int): (r: seq<Entity>)
    ensures |r| == |missing|
    ensures forall i | 0 <= i < |r| :: r[i].source == missing[i].name && r[i].sortKey == maxSortKey + 1 + i
    ensures forall i | 0 <= i < |r| :: IsNewRecord(r[i], versionCode)
    decreases |missing|
  {
    if |missing| == 0 then []
    else
      var next := maxSortKey + 1;
      [Entity(missing[0].name, false, next, versionCode, 0, false)] + NewEntities(missing[1..], next, versionCode)
  }

  lemma NewEntitiesDistinct(missing: seq<Source>, maxSortKey: int, versionCode: int)
    requires UniqueNames(missing)
    ensures DistinctSources(NewEntities(missing, maxSortKey, versionCode))
    ensures SourcesOf(NewEntities(missing, maxSortKey, versionCode)) == NamesOf(missing)
  {
    var es := NewEntities(missing, maxSortKey, versionCode);
    forall k | k in NamesOf(missing)
      ensures k in SourcesOf(es)
    {
      var s :| s in missing && s.name == k;
      var i :| 0 <= i < |missing| && missing[i] == s;
      assert es[i] in es;
    }
  }

  /** `getMaxSortKey`: the largest sort key in the table, 0 for an empty table. */
  method MaxSortKey(db: Store) returns (m: int)
    ensures forall k | k in db :: db[k].sortKey <= m
    ensures db == map[] ==> m == 0
    ensures db != map[] ==> exists k | k in db :: db[k].sortKey == m
  {
    m := 0;
    var seen: set<string> := {};
    var rest := db.Keys;
    while rest != {}
      invariant rest !! seen && rest + seen == db.Keys
      invariant forall k | k in seen :: db[k].sortKey <= m
      invariant seen == {} ==> m == 0
      invariant seen != {} ==> exists k | k in seen :: db[k].sortKey == m
      decreases rest
    {
      var k :| k in rest;
      if seen == {} || db[k].sortKey > m {
        m := db[k].sortKey;
      }
      seen := seen + {k};
      rest := rest - {k};
    }
    if db != map[] {
      assert seen == db.Keys;
      assert seen != {} by {
        var k :| k in db;
        assert k in seen;
      }
    }
  }

  /** Every record of `db` is still present, unchanged, in `db'`. */
  predicate KeepsRecords(db: Store, db': Store) {
    forall k | k in db :: k in db' && db'[k] == db[k]
  }

  /** Every record that `db'` adds to `db` is a fresh record of a catalog source, sorted after every old record. */
  predicate AddsNewRecords(env: Env, db: Store, db': Store) {
    forall k | k in db' && k !in db ::
      && IsNewRecord(db'[k], env.versionCode)
      && (exists s | s in CatalogOf(env) :: s.name == k)
      && forall k' | k' in db :: db[k'].sortKey < db'[k].sortKey
  }

  /** The missing sources received consecutive sort keys starting right after the old maximum
      (at 1 for an empty table). */
  predicate ConsecutiveKeys(db: Store, db': Store, missing: seq<Source>)
    requires forall s | s in missing :: s.name in db'
  {
    |missing| > 0 ==>
      var first := db'[missing[0].name].sortKey;
      && (forall i | 0 <= i < |missing| :: db'[missing[i].name].sortKey == first + i)
      && (if db == map[] then first == 1 else exists k | k in db :: db[k].sortKey + 1 == first)
  }

  /** The insertion step: the batch lands exactly on the missing names, each row fresh,
      with consecutive sort keys above every old one. */
  lemma InsertMissing(env: Env, db: Store, missing: seq<Source>, maxSortKey: int)
    requires UniqueNames(missing) && |missing| > 0
    requires forall s | s in missing :: s in CatalogOf(env) && s.name !in db
    requires forall k | k in db :: db[k].sortKey <= maxSortKey
    requires db == map[] ==> maxSortKey == 0
    requires db != map[] ==> exists k | k in db :: db[k].sortKey == maxSortKey
    ensures var r := InsertIfAbsent(db, NewEntities(missing, maxSortKey, env.versionCode));
      && r.Keys == db.Keys + NamesOf(missing)
      && KeepsRecords(db, r)
      && AddsNewRecords(env, db, r)
      && ConsecutiveKeys(db, r, missing)
  {
    var entities := NewEntities(missing, maxSortKey, env.versionCode);
    NewEntitiesDistinct(missing, maxSortKey, env.versionCode);
    var r := InsertIfAbsent(db, entities);
    forall i | 0 <= i < |missing|
      ensures r[missing[i].name] == entities[i]
    {
      assert missing[i] in missing;
      InsertIfAbsentRow(db, entities, i);
    }
    forall k | k in r && k !in db
      ensures IsNewRecord(r[k], env.versionCode) && exists s | s in CatalogOf(env) :: s.name == k
      ensures forall k' | k' in db :: db[k'].sortKey < r[k].sortKey
    {
      var i :| 0 <= i < |entities| && entities[i] == r[k];
      assert missing[i] in missing;
    }
  }

  /** `assimilateNewSources`: a no-op returning false once the flag is set; otherwise sets the
      flag and inserts every missing catalog source as a fresh, disabled, unpinned, unused
      record of this version, with sort keys counting up from the old maximum. */
  method Assimilate(env: Env, repo: Repo) returns (next: Repo, inserted: bool)
    requires ValidEnv(env) && Valid(env, repo)
    ensures Valid(env, next) && next.isNewSourcesAssimilated
    ensures repo.isNewSourcesAssimilated ==> next == repo && !inserted
    ensures KeepsRecords(repo.db, next.db)
    ensures AddsNewRecords(env, repo.db, next.db)
    ensures forall s | s in CatalogOf(env) :: s.name in next.db
    ensures !repo.isNewSourcesAssimilated ==>
              var missing := GetNewSources(env, repo.db);
              && (inserted <==> |missing| > 0)
              && next.db.Keys == repo.db.Keys + NamesOf(missing)
              && ConsecutiveKeys(repo.db, next.db, missing)
  {
    if repo.isNewSourcesAssimilated {
      return repo, false;
    }
    var missing := GetNewSources(env, repo.db);
    if |missing| == 0 {
      return Repo(repo.db, true), false;
    }
    var maxSortKey := MaxSortKey(repo.db);
    InsertMissing(env, repo.db, missing, maxSortKey);
    var db := InsertIfAbsent(repo.db, NewEntities(missing, maxSortKey, env.versionCode));
    next, inserted := Repo(db, true), true;
  }
}
