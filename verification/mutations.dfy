/** The write side of the repository: batch flag writes with their undo handles, the
    transactional exclusive enable and disable-all, manual positions and usage tracking. */
module SourceMutations {
  import opened Wrappers
  import opened SourceCatalog
  import opened SourcesStore
  import opened Registry
  import opened Assimilation

  /** The loop of `setSourcesEnabledImpl` / `setSourcesPinnedImpl`, in one transaction. */
  function WriteFlag(db: Store, sources: seq<Source>, flag: Flag, value: bool): (r: Store)
    ensures r.Keys == db.Keys
    ensures forall k | k in db :: r[k] == if k in NamesOf(sources) then WithFlag(db[k], flag, value) else db[k]
    decreases |sources|
  {
    if |sources| == 0 then db
    else
      assert NamesOf(sources) == {sources[0].name} + NamesOf(sources[1..]) by {
        assert sources == [sources[0]] + sources[1..];
      }
      WriteFlag(SetFlag(db, sources[0].name, flag, value), sources[1..], flag, value)
  }

  /** `setSourcesEnabledImpl` / `setSourcesPinnedImpl`: a single source takes the direct
      write, several take the transaction; both set the flag of every named row. */
  function SetSourcesFlag(db: Store, sources: seq<Source>, flag: Flag, value: bool): (r: Store)
    ensures r.Keys == db.Keys
    ensures forall k | k in db :: r[k] == if k in NamesOf(sources) then WithFlag(db[k], flag, value) else db[k]
  {
    if |sources| == 1 then
      assert NamesOf(sources) == {sources[0].name};
      SetFlag(db, sources[0].name, flag, value)
    else WriteFlag(db, sources, flag, value)
  }

  /** An undo handle as a value: the batch write it performs when invoked. */
  datatype ReversibleHandle = ReversibleHandle(flag: Flag, sources: seq<Source>, value: bool)

  /** Invoking a handle. */
  function Reverse(db: Store, handle: ReversibleHandle): Store {
    SetSourcesFlag(db, handle.sources, handle.flag, handle.value)
  }

  /** `setSourcesEnabled`: enables or disables the named rows and returns a handle that
      writes the opposite value to the same sources. */
  function SetSourcesEnabled(db: Store, sources: seq<Source>, isEnabled: bool): (r: (Store, ReversibleHandle))
    ensures r.0.Keys == db.Keys
    ensures forall k | k in db :: r.0[k] == if k in NamesOf(sources) then db[k].(isEnabled := isEnabled) else db[k]
    ensures r.1 == ReversibleHandle(Enabled, sources, !isEnabled)
  {
    (SetSourcesFlag(db, sources, Enabled, isEnabled), ReversibleHandle(Enabled, sources, !isEnabled))
  }

  /** Undoing `setSourcesEnabled` leaves the named rows at the opposite value and every other
      row as it was; rows that all held the opposite value beforehand are fully restored. */
  lemma UndoSetSourcesEnabled(db: Store, sources: seq<Source>, isEnabled: bool)
    ensures var (db', handle) := SetSourcesEnabled(db, sources, isEnabled);
      var undone := Reverse(db', handle);
      && undone.Keys == db.Keys
      && (forall k | k in db :: undone[k] == if k in NamesOf(sources) then db[k].(isEnabled := !isEnabled) else db[k])
      && ((forall k | k in db && k in NamesOf(sources) :: db[k].isEnabled == !isEnabled) ==> undone == db)
  {
    var (db', handle) := SetSourcesEnabled(db, sources, isEnabled);
    var undone := Reverse(db', handle);
    if forall k | k in db && k in NamesOf(sources) :: db[k].isEnabled == !isEnabled {
      assert forall k | k in db :: undone[k] == db[k];
    }
  }

  /** `setIsPinned` as the repository writes it: the handle targets the enabled flag. */
  function SetIsPinnedAsWritten(db: Store, sources: seq<Source>, isPinned: bool): (r: (Store, ReversibleHandle))
    ensures r.0.Keys == db.Keys
    ensures forall k | k in db :: r.0[k] == if k in NamesOf(sources) then db[k].(isPinned := isPinned) else db[k]
    ensures r.1.flag == Enabled && r.1.sources == sources && r.1.value == !isPinned
  {
    (SetSourcesFlag(db, sources, Pinned, isPinned), ReversibleHandle(Enabled, sources, !isPinned))
  }

  /** Undoing the as-written `setIsPinned` keeps the pin and overwrites the enabled flag. */
  lemma UndoPinAsWrittenChangesEnabled(db: Store, sources: seq<Source>, isPinned: bool)
    ensures var (db', handle) := SetIsPinnedAsWritten(db, sources, isPinned);
      var undone := Reverse(db', handle);
      forall k | k in db && k in NamesOf(sources) :: undone[k].isPinned == isPinned && undone[k].isEnabled == !isPinned
  {
  }

  /** A concrete case: pinning an enabled source and undoing leaves it pinned and disabled. */
  lemma UndoPinAsWrittenCounterexample()
    ensures var a := Source("A", "A", "en", "MANGA", false, false);
      var db := map["A" := Entity("A", true, 1, 1, 0, false)];
      var (db', handle) := SetIsPinnedAsWritten(db, [a], true);
      var undone := Reverse(db', handle);
      undone["A"].isPinned && !undone["A"].isEnabled && undone != db
  {
    var a := Source("A", "A", "en", "MANGA", false, false);
    assert NamesOf([a]) == {"A"};
  }

  /** `setIsPinned` with a handle that writes the opposite pin value back to the same
      sources. */
  function SetIsPinned(db: Store, sources: seq<Source>, isPinned: bool): (r: (Store, ReversibleHandle))
    ensures r.0.Keys == db.Keys
    ensures forall k | k in db :: r.0[k] == if k in NamesOf(sources) then db[k].(isPinned := isPinned) else db[k]
    ensures r.1 == ReversibleHandle(Pinned, sources, !isPinned)
  {
    (SetSourcesFlag(db, sources, Pinned, isPinned), ReversibleHandle(Pinned, sources, !isPinned))
  }

  /** Undoing the intended `setIsPinned` touches only the pin flags of the named rows;
      rows that all held the opposite pin value beforehand are fully restored. */
  lemma UndoSetIsPinned(db: Store, sources: seq<Source>, isPinned: bool)
    ensures var (db', handle) := SetIsPinned(db, sources, isPinned);
      var undone := Reverse(db', handle);
      && undone.Keys == db.Keys
      && (forall k | k in db :: undone[k] == if k in NamesOf(sources) then db[k].(isPinned := !isPinned) else db[k])
      && ((forall k | k in db && k in NamesOf(sources) :: db[k].isPinned == !isPinned) ==> undone == db)
  {
    var (db', handle) := SetIsPinned(db, sources, isPinned);
    var undone := Reverse(db', handle);
    if forall k | k in db && k in NamesOf(sources) :: db[k].isPinned == !isPinned {
      assert forall k | k in db :: undone[k] == db[k];
    }
  }

  /** After the first `i` catalog sources of `order` were written into `base`: only enabled
      flags differ, those written hold membership in `sources`, the rest are untouched. */
  predicate ExclusiveProgress(base: Store, db: Store, order: seq<Source>, sources: set<Source>, i: int)
    requires 0 <= i <= |order|
  {
    && db.Keys == base.Keys
    && (forall k | k in db :: db[k].(isEnabled := base[k].isEnabled) == base[k])
    && (forall j | 0 <= j < i :: order[j].name in db && db[order[j].name].isEnabled == (order[j] in sources))
    && (forall k | k in db && k !in NamesOf(order[..i]) :: db[k] == base[k])
  }

  lemma ExclusiveStep(base: Store, db: Store, order: seq<Source>, sources: set<Source>, i: int)
    requires 0 <= i < |order| && UniqueNames(order) && order[i].name in base
    requires ExclusiveProgress(base, db, order, sources, i)
    ensures ExclusiveProgress(base, SetFlag(db, order[i].name, Enabled, order[i] in sources), order, sources, i + 1)
  {
    var db' := SetFlag(db, order[i].name, Enabled, order[i] in sources);
    assert NamesOf(order[..i + 1]) == NamesOf(order[..i]) + {order[i].name} by {
      assert order[..i + 1] == order[..i] + [order[i]];
    }
    forall j | 0 <= j < i + 1
      ensures order[j].name in db' && db'[order[j].name].isEnabled == (order[j] in sources)
    {
      if j < i {
        assert order[j].name != order[i].name;
      }
    }
    forall k | k in db' && k !in NamesOf(order[..i + 1])
      ensures db'[k] == base[k]
    {
      assert k != order[i].name;
    }
  }

  /** `setSourcesEnabledExclusive`: in one transaction, assimilate, then enable exactly the
      given sources among the catalog. */
  method SetSourcesEnabledExclusive(env: Env, repo: Repo, sources: set<Source>) returns (next: Repo)
    requires ValidEnv(env) && Valid(env, repo)
    ensures Valid(env, next) && next.isNewSourcesAssimilated
    ensures forall s | s in CatalogOf(env) :: s.name in next.db && next.db[s.name].isEnabled == (s in sources)
    ensures forall k | k in repo.db :: k in next.db && next.db[k].(isEnabled := repo.db[k].isEnabled) == repo.db[k]
    ensures forall k | k in repo.db && k !in CatalogNames(env) :: next.db[k] == repo.db[k]
    ensures forall k | k in next.db && k !in repo.db :: k in CatalogNames(env)
    ensures forall k | k in next.db && k !in repo.db :: IsNewRecord(next.db[k].(isEnabled := false), env.versionCode)
  {
    var assimilated, _ := Assimilate(env, repo);
    var order := CatalogOrder(env.entries, env.debug);
    var db := assimilated.db;
    var i := 0;
    while i < |order|
      invariant 0 <= i <= |order|
      invariant ExclusiveProgress(assimilated.db, db, order, sources, i)
    {
      assert order[i] in order;
      ExclusiveStep(assimilated.db, db, order, sources, i);
      db := SetFlag(db, order[i].name, Enabled, order[i] in sources);
      i := i + 1;
    }
    ExclusiveResult(env, repo, assimilated, db, order, sources);
    next := Repo(db, true);
  }

  lemma ExclusiveResult(env: Env, repo: Repo, assimilated: Repo, db: Store, order: seq<Source>, sources: set<Source>)
    requires order == CatalogOrder(env.entries, env.debug)
    requires Valid(env, assimilated) && assimilated.isNewSourcesAssimilated
    requires KeepsRecords(repo.db, assimilated.db) && AddsNewRecords(env, repo.db, assimilated.db)
    requires ExclusiveProgress(assimilated.db, db, order, sources, |order|)
    ensures Valid(env, Repo(db, true))
    ensures forall s | s in CatalogOf(env) :: s.name in db && db[s.name].isEnabled == (s in sources)
    ensures forall k | k in repo.db :: k in db && db[k].(isEnabled := repo.db[k].isEnabled) == repo.db[k]
    ensures forall k | k in repo.db && k !in CatalogNames(env) :: db[k] == repo.db[k]
    ensures forall k | k in db && k !in repo.db :: k in CatalogNames(env)
    ensures forall k | k in db && k !in repo.db :: IsNewRecord(db[k].(isEnabled := false), env.versionCode)
  {
    assert order[..|order|] == order;
    forall s | s in CatalogOf(env)
      ensures s.name in db && db[s.name].isEnabled == (s in sources)
    {
      var j :| 0 <= j < |order| && order[j] == s;
    }
    forall k | k in db && k in NamesOf(order)
      ensures k in CatalogNames(env)
    {
      var s :| s in order && s.name == k;
    }
    forall k | k in db && k !in repo.db
      ensures k in CatalogNames(env)
    {
      var s :| s in CatalogOf(env) && s.name == k;
    }
  }

  /** `disableAllSources`: in one transaction, assimilate, then switch every row off. */
  method DisableAllSources(env: Env, repo: Repo) returns (next: Repo)
    requires ValidEnv(env) && Valid(env, repo)
    ensures Valid(env, next) && next.isNewSourcesAssimilated
    ensures forall k | k in next.db :: !next.db[k].isEnabled
    ensures forall s | s in CatalogOf(env) :: s.name in next.db
    ensures forall k | k in repo.db :: k in next.db && next.db[k] == repo.db[k].(isEnabled := false)
    ensures forall k | k in next.db && k !in repo.db :: k in CatalogNames(env) && IsNewRecord(next.db[k], env.versionCode)
  {
    var assimilated, _ := Assimilate(env, repo);
    next := Repo(DisableAll(assimilated.db), true);
  }

  /** The index `setPositions` leaves in the record named `name`: the last position of
      that name in `sources`, or none when it is not listed. */
  function LastIndexOf(sources: seq<Source>, name: string): (r: Option<nat>)
    ensures r.Some? ==> r.value < |sources| && sources[r.value].name == name
    ensures r.Some? ==> forall j | r.value < j < |sources| :: sources[j].name != name
    ensures r.None? ==> forall j | 0 <= j < |sources| :: sources[j].name != name
    decreases |sources|
  {
    if |sources| == 0 then None
    else if sources[|sources| - 1].name == name then Some(|sources| - 1)
    else LastIndexOf(sources[..|sources| - 1], name)
  }

  /** A record after `setPositions`, given the index its name was last listed at. */
  function Positioned(e: Entity, at: Option<nat>): Entity {
    if at.Some? then e.(sortKey := at.value) else e
  }

  /** `r` is `db` after the positions of `listed` were written. */
  predicate PositionsWritten(db: Store, r: Store, listed: seq<Source>) {
    && r.Keys == db.Keys
    && forall k | k in db :: r[k] == Positioned(db[k], LastIndexOf(listed, k))
  }

  lemma PositionsStep(db: Store, r: Store, sources: seq<Source>, n: nat)
    requires n < |sources| && PositionsWritten(db, r, sources[..n])
    ensures PositionsWritten(db, SetSortKey(r, sources[n].name, n), sources[..n + 1])
  {
    assert sources[..n + 1][..n] == sources[..n];
    forall k | k in db
      ensures LastIndexOf(sources[..n + 1], k) == if sources[n].name == k then Some(n) else LastIndexOf(sources[..n], k)
    {
    }
  }

  /** With distinct names, the last listing of `sources[i]` is `i` itself. */
  lemma LastIndexOfUnique(sources: seq<Source>, i: int)
    requires UniqueNames(sources) && 0 <= i < |sources|
    ensures LastIndexOf(sources, sources[i].name) == Some(i)
  {
  }

  /** `setPositions`: each listed source's record takes the index of its last listing as
      sort key, so with distinct names `sources[i]` gets `i`; nothing else changes. */
  method SetPositions(db: Store, sources: seq<Source>) returns (r: Store)
    ensures r.Keys == db.Keys
    ensures forall k | k in db :: r[k] == Positioned(db[k], LastIndexOf(sources, k))
    ensures UniqueNames(sources) ==> forall i | 0 <= i < |sources| && sources[i].name in db :: r[sources[i].name].sortKey == i
  {
    r := db;
    var n := 0;
    while n < |sources|
      invariant 0 <= n <= |sources|
      invariant PositionsWritten(db, r, sources[..n])
    {
      PositionsStep(db, r, sources, n);
      r := SetSortKey(r, sources[n].name, n);
      n := n + 1;
    }
    assert sources[..n] == sources;
    if UniqueNames(sources) {
      forall i | 0 <= i < |sources| && sources[i].name in db
        ensures r[sources[i].name].sortKey == i
      {
        LastIndexOfUnique(sources, i);
      }
    }
  }

  /** Whether `trackUsage` records the use: not in incognito mode, and not an NSFW source
      while NSFW sources are excluded from history. */
  predicate ShouldTrack(settings: Settings, source: Source) {
    !settings.isIncognitoModeEnabled && !(settings.isHistoryExcludeNsfw && source.isNsfw)
  }

  /** `trackUsage`: stamps the source's row with `now` exactly when the use is tracked;
      no other column and no other row changes. */
  function TrackUsage(db: Store, settings: Settings, source: Source, now: int): (r: Store)
    ensures r.Keys == db.Keys
    ensures forall k | k in db :: r[k].(lastUsedAt := db[k].lastUsedAt) == db[k]
    ensures forall k | k in db :: r[k].lastUsedAt == if k == source.name && ShouldTrack(settings, source) then now else db[k].lastUsedAt
  {
    if ShouldTrack(settings, source) then SetLastUsed(db, source.name, now) else db
  }
}
