/** The read side of the repository: one-shot queries and the pure parts of the observed
    streams, each a function of the rows the table returned and of the settings. */
module SourceQueries {
  import opened Wrappers
  import opened Sequences
  import opened SourceCatalog
  import opened SourcesStore
  import opened Registry
  import opened AlphabeticSort
  import opened Projection
  import opened Text

  /** What a listing query of the table promises: `rows` are exactly the records that
      satisfy `p`, each as stored. */
  predicate Lists(rows: seq<Entity>, db: Store, p: Entity -> bool) {
    && (forall i | 0 <= i < |rows| :: rows[i].source in db && db[rows[i].source] == rows[i] && p(rows[i]))
    && (forall k | k in db && p(db[k]) :: exists i | 0 <= i < |rows| :: rows[i].source == k)
  }

  /** `names` are exactly the names of the enabled records (`findAllEnabledNames`). */
  predicate ListsEnabledNames(names: seq<string>, db: Store) {
    && (forall k | k in names :: k in db && db[k].isEnabled)
    && (forall k | k in db && db[k].isEnabled :: k in names)
  }

  /** Over a listing, a source is kept exactly when it is a visible catalog source whose record satisfies `p`. */
  lemma KeptFromListing(env: Env, rows: seq<Entity>, db: Store, p: Entity -> bool, skipNsfw: bool, s: Source)
    requires ValidEnv(env) && KeysMatch(db) && Lists(rows, db, p)
    ensures (exists i | 0 <= i < |rows| :: Kept(env, rows[i], skipNsfw) == Some(s))
        <==> s in CatalogOf(env) && s.name in db && p(db[s.name]) && !(skipNsfw && s.isNsfw)
  {
    if s in CatalogOf(env) && s.name in db && p(db[s.name]) && !(skipNsfw && s.isNsfw) {
      var i :| 0 <= i < |rows| && rows[i].source == s.name;
      ResolveEntry(env.entries, s);
      assert Kept(env, rows[i], skipNsfw) == Some(s);
    }
  }

  /** `getEnabledSources` and the list of `observeEnabledSources`: the enabled rows projected
      with the user's NSFW setting and sort order. */
  function GetEnabledSources(env: Env, settings: Settings, rows: seq<Entity>): (r: seq<Source>)
    ensures forall s | s in r :: s in CatalogOf(env) && !(settings.isNsfwContentDisabled && s.isNsfw)
    ensures settings.sourcesSortOrder == Alphabetic ==>
              var skip := settings.isNsfwContentDisabled;
              && Sorted(r, PinnedOf(env, rows, skip))
              && multiset(r) == multiset(Collect(env, rows, skip))
              && forall k :: WithKey(r, PinnedOf(env, rows, skip), k) == WithKey(Collect(env, rows, skip), PinnedOf(env, rows, skip), k)
    ensures settings.sourcesSortOrder != Alphabetic ==> Embeds(r, rows)
  {
    ToSources(env, rows, settings.isNsfwContentDisabled, Some(settings.sourcesSortOrder))
  }

  /** Over the enabled records, the result holds exactly the enabled, visible catalog sources. */
  lemma EnabledSourcesOfStore(env: Env, settings: Settings, rows: seq<Entity>, db: Store, s: Source)
    requires ValidEnv(env) && KeysMatch(db) && Lists(rows, db, (e: Entity) => e.isEnabled)
    ensures s in GetEnabledSources(env, settings, rows)
        <==> s in CatalogOf(env) && s.name in db && db[s.name].isEnabled && !(settings.isNsfwContentDisabled && s.isNsfw)
  {
    KeptFromListing(env, rows, db, (e: Entity) => e.isEnabled, settings.isNsfwContentDisabled, s);
  }

  /** `getPinnedSources`: the resolvable names of the pinned rows, minus hidden NSFW sources.
      Unlike `toSources` it does not intersect with the catalog. */
  function GetPinnedSources(env: Env, rows: seq<Entity>, skipNsfw: bool): (r: set<Source>)
    ensures forall s | s in r :: s in env.entries && !(skipNsfw && s.isNsfw)
  {
    set i | 0 <= i < |rows| && Resolve(env.entries, rows[i].source).Some?
                            && !(skipNsfw && Resolve(env.entries, rows[i].source).value.isNsfw)
          :: Resolve(env.entries, rows[i].source).value
  }

  /** Over the pinned records, the result holds exactly the pinned, visible enumeration entries. */
  lemma PinnedSourcesOfStore(env: Env, rows: seq<Entity>, db: Store, skipNsfw: bool, s: Source)
    requires ValidEnv(env) && KeysMatch(db) && Lists(rows, db, (e: Entity) => e.isPinned)
    ensures s in GetPinnedSources(env, rows, skipNsfw)
        <==> s in env.entries && s.name in db && db[s.name].isPinned && !(skipNsfw && s.isNsfw)
  {
    if s in env.entries && s.name in db && db[s.name].isPinned && !(skipNsfw && s.isNsfw) {
      var i :| 0 <= i < |rows| && rows[i].source == s.name;
      ResolveEntry(env.entries, s);
    }
  }

  /** `getTopSources`: the most recently used rows, projected without re-sorting. */
  function GetTopSources(env: Env, rows: seq<Entity>, skipNsfw: bool): (r: seq<Source>)
    ensures |r| <= |rows|
    ensures Embeds(r, rows)
    ensures forall s | s in r :: s in CatalogOf(env) && !(skipNsfw && s.isNsfw)
    ensures forall s | s in r :: exists i | 0 <= i < |rows| :: Kept(env, rows[i], skipNsfw) == Some(s)
    ensures forall i | 0 <= i < |rows| && Kept(env, rows[i], skipNsfw).Some? :: Kept(env, rows[i], skipNsfw).value in r
  {
    ToSources(env, rows, skipNsfw, None)
  }

  /** `getDisabledSources`: the catalog minus every source an enabled name resolves to;
      names that resolve to nothing are skipped. */
  function GetDisabledSources(env: Env, enabledNames: seq<string>): (r: set<Source>)
    ensures forall s | s in r :: s in CatalogOf(env)
    ensures forall s | s in r :: forall i | 0 <= i < |enabledNames| :: Resolve(env.entries, enabledNames[i]) != Some(s)
    ensures forall s | s in CatalogOf(env) && (forall i | 0 <= i < |enabledNames| :: Resolve(env.entries, enabledNames[i]) != Some(s)) :: s in r
    decreases |enabledNames|
  {
    if |enabledNames| == 0 then CatalogOf(env)
    else
      var last := |enabledNames| - 1;
      var rest := GetDisabledSources(env, enabledNames[..last]);
      assert forall i | 0 <= i < last :: enabledNames[..last][i] == enabledNames[i];
      match Resolve(env.entries, enabledNames[last])
      case None => rest
      case Some(s) => rest - {s}
  }

  /** Over the enabled names of the table, the disabled sources are the catalog sources
      without an enabled record. */
  lemma DisabledSourcesOfStore(env: Env, enabledNames: seq<string>, db: Store)
    requires ValidEnv(env) && ListsEnabledNames(enabledNames, db)
    ensures GetDisabledSources(env, enabledNames)
         == set s | s in CatalogOf(env) && !(s.name in db && db[s.name].isEnabled)
  {
    var r := GetDisabledSources(env, enabledNames);
    forall s | s in CatalogOf(env)
      ensures s in r <==> !(s.name in db && db[s.name].isEnabled)
    {
      forall i | 0 <= i < |enabledNames|
        ensures Resolve(env.entries, enabledNames[i]) == Some(s) <==> s.name == enabledNames[i]
      {
        ResolveIff(env.entries, enabledNames[i], s);
      }
      if s.name in db && db[s.name].isEnabled {
        assert s.name in enabledNames;
        var i :| 0 <= i < |enabledNames| && enabledNames[i] == s.name;
      }
    }
  }

  /** The parameters of `getAvailableSources`. */
  datatype AvailableFilter = AvailableFilter(
    isDisabledOnly: bool,
    isNewOnly: bool,
    excludeBroken: bool,
    types: set<ContentType>,
    query: Option<string>,
    locale: Option<string>,
    sortOrder: Option<SortOrder>)

  /** The row-level filters: only disabled rows, only rows added in this version. */
  predicate RowSelected(e: Entity, f: AvailableFilter, versionCode: int) {
    && (!f.isDisabledOnly || !e.isEnabled)
    && (!f.isNewOnly || e.addedIn == versionCode)
  }

  /** The query matches the title or the name, ignoring case. */
  predicate MatchesQuery(s: Source, query: string) {
    ContainsIgnoreCase(s.title, query) || ContainsIgnoreCase(s.name, query)
  }

  /** The source-level filters: locale, broken, content type, text query. */
  predicate SourceSelected(s: Source, f: AvailableFilter) {
    && (f.locale.None? || s.locale == f.locale.value)
    && (!f.excludeBroken || !s.isBroken)
    && (|f.types| == 0 || s.contentType in f.types)
    && (f.query.None? || |f.query.value| == 0 || MatchesQuery(s, f.query.value))
  }

  /** The rows left after `removeAll { it.isEnabled }` and `retainAll { it.addedIn == VERSION_CODE }`. */
  function SelectedRows(rows: seq<Entity>, f: AvailableFilter, versionCode: int): (r: seq<Entity>)
    ensures Subseq(r, rows)
    ensures forall e | e in r :: e in rows && RowSelected(e, f, versionCode)
    ensures forall e | e in rows && RowSelected(e, f, versionCode) :: e in r
  {
    var notEnabled := if f.isDisabledOnly then Filter(rows, (e: Entity) => !e.isEnabled) else rows;
    var added := if f.isNewOnly then Filter(notEnabled, (e: Entity) => e.addedIn == versionCode) else notEnabled;
    SubseqReflexive(rows);
    SubseqReflexive(notEnabled);
    SubseqTransitive(added, notEnabled, rows);
    added
  }

  /** The `retainAll` / `removeAll` steps applied to the projected list. */
  function NarrowSources(sources: seq<Source>, f: AvailableFilter): (r: seq<Source>)
    ensures Subseq(r, sources)
    ensures forall s | s in r :: s in sources && SourceSelected(s, f)
    ensures forall s | s in sources && SourceSelected(s, f) :: s in r
  {
    var byLocale := FilterIf(f.locale.Some?, sources, (s: Source) => f.locale.Some? && s.locale == f.locale.value);
    var working := FilterIf(f.excludeBroken, byLocale, (s: Source) => !s.isBroken);
    var typed := FilterIf(|f.types| > 0, working, (s: Source) => s.contentType in f.types);
    var r := FilterIf(f.query.Some? && |f.query.value| > 0, typed, (s: Source) => f.query.Some? && MatchesQuery(s, f.query.value));
    SubseqTransitive(working, byLocale, sources);
    SubseqTransitive(typed, working, sources);
    SubseqTransitive(r, typed, sources);
    NarrowSourcesMembers(sources, f, byLocale, working, typed, r);
    r
  }

  lemma NarrowSourcesMembers(sources: seq<Source>, f: AvailableFilter, byLocale: seq<Source>, working: seq<Source>,
                             typed: seq<Source>, r: seq<Source>)
    requires forall s | s in byLocale :: s in sources && (f.locale.None? || s.locale == f.locale.value)
    requires forall s | s in sources && (f.locale.None? || s.locale == f.locale.value) :: s in byLocale
    requires forall s | s in working :: s in byLocale && (!f.excludeBroken || !s.isBroken)
    requires forall s | s in byLocale && (!f.excludeBroken || !s.isBroken) :: s in working
    requires forall s | s in typed :: s in working && (|f.types| == 0 || s.contentType in f.types)
    requires forall s | s in working && (|f.types| == 0 || s.contentType in f.types) :: s in typed
    requires forall s | s in r :: s in typed && (f.query.None? || |f.query.value| == 0 || MatchesQuery(s, f.query.value))
    requires forall s | s in typed && (f.query.None? || |f.query.value| == 0 || MatchesQuery(s, f.query.value)) :: s in r
    ensures forall s | s in r :: s in sources && SourceSelected(s, f)
    ensures forall s | s in sources && SourceSelected(s, f) :: s in r
  {
  }

  /** `getAvailableSources`: the filter chain narrows the table, then the projection, and
      every later step keeps the projection's order. */
  function GetAvailableSources(env: Env, rows: seq<Entity>, skipNsfw: bool, f: AvailableFilter): (r: seq<Source>)
    ensures |r| <= |rows|
    ensures forall s | s in r :: SourceSelected(s, f)
    ensures forall s | s in r :: exists e | e in rows :: RowSelected(e, f, env.versionCode) && Kept(env, e, skipNsfw) == Some(s)
    ensures forall e | e in rows && RowSelected(e, f, env.versionCode) && Kept(env, e, skipNsfw).Some?
                         && SourceSelected(Kept(env, e, skipNsfw).value, f) :: Kept(env, e, skipNsfw).value in r
    ensures f.sortOrder != Some(Alphabetic) ==> Embeds(r, rows)
    ensures f.sortOrder == Some(Alphabetic) ==> Sorted(r, PinnedOf(env, SelectedRows(rows, f, env.versionCode), skipNsfw))
    ensures Subseq(r, ToSources(env, SelectedRows(rows, f, env.versionCode), skipNsfw, f.sortOrder))
  {
    var selected := SelectedRows(rows, f, env.versionCode);
    SubseqLength(selected, rows);
    var sources := ToSources(env, selected, skipNsfw, f.sortOrder);
    var r := NarrowSources(sources, f);
    SubseqLength(r, sources);
    AvailableFromRows(env, rows, skipNsfw, f, selected, sources, r);
    if f.sortOrder == Some(Alphabetic) then
      SortedSubseq(r, sources, PinnedOf(env, selected, skipNsfw));
      r
    else
      EmbedsAfterSubseq(r, sources, selected);
      EmbedsIntoSuperseq(r, selected, rows);
      r
  }

  /** The membership half of `getAvailableSources`, over the selected rows, the projected
      list and the narrowed list. */
  lemma AvailableFromRows(env: Env, rows: seq<Entity>, skipNsfw: bool, f: AvailableFilter,
                          selected: seq<Entity>, sources: seq<Source>, r: seq<Source>)
    requires forall e | e in selected :: e in rows && RowSelected(e, f, env.versionCode)
    requires forall e | e in rows && RowSelected(e, f, env.versionCode) :: e in selected
    requires forall s | s in sources :: exists i | 0 <= i < |selected| :: Kept(env, selected[i], skipNsfw) == Some(s)
    requires forall i | 0 <= i < |selected| && Kept(env, selected[i], skipNsfw).Some? :: Kept(env, selected[i], skipNsfw).value in sources
    requires forall s | s in r :: s in sources && SourceSelected(s, f)
    requires forall s | s in sources && SourceSelected(s, f) :: s in r
    ensures forall s | s in r :: exists e | e in rows :: RowSelected(e, f, env.versionCode) && Kept(env, e, skipNsfw) == Some(s)
    ensures forall e | e in rows && RowSelected(e, f, env.versionCode) && Kept(env, e, skipNsfw).Some?
                         && SourceSelected(Kept(env, e, skipNsfw).value, f) :: Kept(env, e, skipNsfw).value in r
  {
    forall s | s in r
      ensures exists e | e in rows :: RowSelected(e, f, env.versionCode) && Kept(env, e, skipNsfw) == Some(s)
    {
      var i :| 0 <= i < |selected| && Kept(env, selected[i], skipNsfw) == Some(s);
      assert selected[i] in selected;
    }
    forall e | e in rows && RowSelected(e, f, env.versionCode) && Kept(env, e, skipNsfw).Some?
                 && SourceSelected(Kept(env, e, skipNsfw).value, f)
      ensures Kept(env, e, skipNsfw).value in r
    {
      assert e in selected;
      var i :| 0 <= i < |selected| && selected[i] == e;
    }
  }

  /** A row counted by `observeEnabledSourcesCount`: its name resolves and it is not a hidden NSFW source. */
  predicate Counted(env: Env, e: Entity, skipNsfw: bool) {
    match Resolve(env.entries, e.source)
    case None => false
    case Some(s) => !skipNsfw || !s.isNsfw
  }

  /** The count lambda of `observeEnabledSourcesCount`. */
  function EnabledSourcesCount(env: Env, rows: seq<Entity>, skipNsfw: bool): (n: nat)
    ensures n <= |rows|
    ensures n == |Filter(rows, (e: Entity) => Counted(env, e, skipNsfw))|
    ensures n == 0 <==> forall i | 0 <= i < |rows| :: !Counted(env, rows[i], skipNsfw)
    decreases |rows|
  {
    if |rows| == 0 then 0
    else
      assert forall i | 1 <= i < |rows| :: rows[1..][i - 1] == rows[i];
      (if Counted(env, rows[0], skipNsfw) then 1 else 0) + EnabledSourcesCount(env, rows[1..], skipNsfw)
  }

  /** The count is at least the length of the listed enabled sources, and equal to it when
      every resolvable row names a catalog source. */
  lemma {:induction false} EnabledCountCoversList(env: Env, rows: seq<Entity>, skipNsfw: bool)
    ensures |Collect(env, rows, skipNsfw)| <= EnabledSourcesCount(env, rows, skipNsfw)
    ensures (forall i | 0 <= i < |rows| :: Resolve(env.entries, rows[i].source).Some? ==> Resolve(env.entries, rows[i].source).value in CatalogOf(env))
            ==> |Collect(env, rows, skipNsfw)| == EnabledSourcesCount(env, rows, skipNsfw)
    decreases |rows|
  {
    if |rows| > 0 {
      assert forall i | 1 <= i < |rows| :: rows[1..][i - 1] == rows[i];
      EnabledCountCoversList(env, rows[1..], skipNsfw);
      assert |Collect(env, rows, skipNsfw)| == (if Kept(env, rows[0], skipNsfw).Some? then 1 else 0) + |Collect(env, rows[1..], skipNsfw)|;
      assert EnabledSourcesCount(env, rows, skipNsfw) == (if Counted(env, rows[0], skipNsfw) then 1 else 0) + EnabledSourcesCount(env, rows[1..], skipNsfw);
    }
  }

  /** The count lambda of `observeAvailableSourcesCount`: catalog sources without an enabled
      row, minus hidden NSFW sources. */
  function AvailableSourcesCount(env: Env, enabledRows: seq<Entity>, skipNsfw: bool): (n: nat)
    ensures n <= |CatalogOf(env)|
  {
    var available := set x | x in CatalogOf(env) && x.name !in SourcesOf(enabledRows) && (!skipNsfw || !x.isNsfw);
    assert CatalogOf(env) == available + (CatalogOf(env) - available);
    |available|
  }

  /** The available count is the number of disabled sources, less the hidden NSFW ones. */
  lemma AvailableCountMatchesDisabled(env: Env, enabledRows: seq<Entity>, enabledNames: seq<string>, skipNsfw: bool)
    requires ValidEnv(env)
    requires forall i | 0 <= i < |enabledNames| :: enabledNames[i] in SourcesOf(enabledRows)
    requires forall k | k in SourcesOf(enabledRows) :: k in enabledNames
    ensures AvailableSourcesCount(env, enabledRows, skipNsfw)
            == |set s | s in GetDisabledSources(env, enabledNames) && !(skipNsfw && s.isNsfw)|
  {
    var available := set x | x in CatalogOf(env) && x.name !in SourcesOf(enabledRows) && (!skipNsfw || !x.isNsfw);
    var disabled := GetDisabledSources(env, enabledNames);
    forall s | s in CatalogOf(env)
      ensures s in disabled <==> s.name !in SourcesOf(enabledRows)
    {
      forall i | 0 <= i < |enabledNames|
        ensures Resolve(env.entries, enabledNames[i]) == Some(s) <==> s.name == enabledNames[i]
      {
        ResolveIff(env.entries, enabledNames[i], s);
      }
      if s.name in SourcesOf(enabledRows) {
        var i :| 0 <= i < |enabledNames| && enabledNames[i] == s.name;
      }
    }
    assert (set s | s in disabled && !(skipNsfw && s.isNsfw)) == available;
  }

  /** `observeAll`: each catalog row with its enabled flag, in the table's order. */
  function AllSources(env: Env, rows: seq<Entity>): (r: seq<(Source, bool)>)
    ensures |r| <= |rows|
    ensures forall p | p in r :: p.0 in CatalogOf(env) && exists e | e in rows :: e.source == p.0.name && e.isEnabled == p.1
    ensures forall e | e in rows && Resolve(env.entries, e.source).Some? && Resolve(env.entries, e.source).value in CatalogOf(env)
              :: (Resolve(env.entries, e.source).value, e.isEnabled) in r
    ensures PairsEmbed(r, rows)
    decreases |rows|
  {
    if |rows| == 0 then []
    else
      var rest := AllSources(env, rows[1..]);
      var head := match Resolve(env.entries, rows[0].source)
        case None => []
        case Some(s) => if s in CatalogOf(env) then [(s, rows[0].isEnabled)] else [];
      AllSourcesStep(env, rows, rest, head);
      PairsEmbedCons(head, rest, rows);
      head + rest
  }

  /** `pairs` appear in `rows`, in the same order, each as the row of its own name with
      that row's enabled flag. */
  predicate PairsEmbed(pairs: seq<(Source, bool)>, rows: seq<Entity>)
    decreases |rows|
  {
    if |pairs| == 0 then true
    else if |rows| == 0 then false
    else
      || (pairs[0].0.name == rows[0].source && pairs[0].1 == rows[0].isEnabled && PairsEmbed(pairs[1..], rows[1..]))
      || PairsEmbed(pairs, rows[1..])
  }

  /** Prepending the pair of the first row, or nothing, keeps the embedding. */
  lemma PairsEmbedCons(head: seq<(Source, bool)>, rest: seq<(Source, bool)>, rows: seq<Entity>)
    requires |rows| > 0 && PairsEmbed(rest, rows[1..])
    requires head == [] || (|head| == 1 && head[0].0.name == rows[0].source && head[0].1 == rows[0].isEnabled)
    ensures PairsEmbed(head + rest, rows)
  {
    if head == [] {
      assert head + rest == rest;
    } else {
      assert (head + rest)[1..] == rest;
    }
  }

  lemma AllSourcesStep(env: Env, rows: seq<Entity>, rest: seq<(Source, bool)>, head: seq<(Source, bool)>)
    requires |rows| > 0
    requires head == match Resolve(env.entries, rows[0].source)
        case None => []
        case Some(s) => if s in CatalogOf(env) then [(s, rows[0].isEnabled)] else []
    requires |rest| <= |rows| - 1
    requires forall p | p in rest :: p.0 in CatalogOf(env) && exists e | e in rows[1..] :: e.source == p.0.name && e.isEnabled == p.1
    requires forall e | e in rows[1..] && Resolve(env.entries, e.source).Some? && Resolve(env.entries, e.source).value in CatalogOf(env)
               :: (Resolve(env.entries, e.source).value, e.isEnabled) in rest
    ensures |head + rest| <= |rows|
    ensures forall p | p in head + rest :: p.0 in CatalogOf(env) && exists e | e in rows :: e.source == p.0.name && e.isEnabled == p.1
    ensures forall e | e in rows && Resolve(env.entries, e.source).Some? && Resolve(env.entries, e.source).value in CatalogOf(env)
              :: (Resolve(env.entries, e.source).value, e.isEnabled) in head + rest
  {
    assert rows == [rows[0]] + rows[1..];
    forall p | p in head + rest
      ensures p.0 in CatalogOf(env) && exists e | e in rows :: e.source == p.0.name && e.isEnabled == p.1
    {
      if p in head {
        assert rows[0] in rows;
      } else {
        var e :| e in rows[1..] && e.source == p.0.name && e.isEnabled == p.1;
        assert e in rows;
      }
    }
    forall e | e in rows && Resolve(env.entries, e.source).Some? && Resolve(env.entries, e.source).value in CatalogOf(env)
      ensures (Resolve(env.entries, e.source).value, e.isEnabled) in head + rest
    {
      if e != rows[0] {
        assert e in rows[1..];
      }
    }
  }

  /** The catalog sources the user can see: all of them, or only the non-NSFW ones when
      NSFW content is hidden. */
  function VisibleCatalog(env: Env, skipNsfw: bool): set<Source> {
    set s | s in CatalogOf(env) && !(skipNsfw && s.isNsfw)
  }

  /** On rows with one record per name that cover the whole catalog, the projected list
      holds each visible catalog source exactly once; records of other names drop out. */
  lemma CollectOfCatalogRows(env: Env, rows: seq<Entity>, skipNsfw: bool)
    requires ValidEnv(env) && DistinctSources(rows)
    requires forall s | s in CatalogOf(env) :: s.name in SourcesOf(rows)
    ensures |Collect(env, rows, skipNsfw)| == |VisibleCatalog(env, skipNsfw)|
  {
    var c := Collect(env, rows, skipNsfw);
    EmbedsDistinct(c, rows);
    UniqueNamesCardinality(c);
    forall s | s in VisibleCatalog(env, skipNsfw)
      ensures s in c
    {
      var e :| e in rows && e.source == s.name;
      var i :| 0 <= i < |rows| && rows[i] == e;
      KeptCatalogSource(env, rows[i], s, skipNsfw);
    }
    assert (set s | s in c) == VisibleCatalog(env, skipNsfw);
  }

  /** The predicate of `observeHasNewSources`, over the rows added in this version, as
      written: the projected list is compared with the whole catalog even when NSFW
      sources are hidden from it. */
  function HasNewSources(env: Env, newRows: seq<Entity>, skipNsfw: bool): (b: bool)
    ensures b <==> && (exists i | 0 <= i < |newRows| :: Kept(env, newRows[i], skipNsfw).Some?)
                   && |ToSources(env, newRows, skipNsfw, None)| != |CatalogOf(env)|
  {
    var sources := ToSources(env, newRows, skipNsfw, None);
    if |sources| > 0 then
      assert sources[0] in sources;
      |sources| != |CatalogOf(env)|
    else false
  }

  /** Right after a fresh install every catalog source was added in this version; with NSFW
      sources shown the projected list is the whole catalog, so nothing counts as new. */
  lemma FreshInstallHasNoNewSources(env: Env, newRows: seq<Entity>)
    requires ValidEnv(env) && DistinctSources(newRows)
    requires forall s | s in CatalogOf(env) :: s.name in SourcesOf(newRows)
    ensures !HasNewSources(env, newRows, false)
  {
    CollectOfCatalogRows(env, newRows, false);
    assert VisibleCatalog(env, false) == CatalogOf(env);
  }

  /** With NSFW sources hidden, a fresh install of a catalog that holds both NSFW and other
      sources reports new sources: the list lacks the hidden ones, so its size differs
      from the catalog's. */
  lemma FreshInstallNsfwHiddenReportsNewSources(env: Env, newRows: seq<Entity>, hidden: Source, shown: Source)
    requires ValidEnv(env) && DistinctSources(newRows)
    requires forall s | s in CatalogOf(env) :: s.name in SourcesOf(newRows)
    requires hidden in CatalogOf(env) && hidden.isNsfw
    requires shown in CatalogOf(env) && !shown.isNsfw
    ensures HasNewSources(env, newRows, true)
  {
    CollectOfCatalogRows(env, newRows, true);
    VisibleCatalogLacksHidden(env, hidden);
    assert |ToSources(env, newRows, true, None)| != |CatalogOf(env)|;
    assert shown.name in SourcesOf(newRows);
    var e :| e in newRows && e.source == shown.name;
    var i :| 0 <= i < |newRows| && newRows[i] == e;
    KeptCatalogSource(env, newRows[i], shown, true);
  }

  /** Hiding one NSFW catalog source makes the visible catalog smaller than the catalog. */
  lemma VisibleCatalogLacksHidden(env: Env, hidden: Source)
    requires hidden in CatalogOf(env) && hidden.isNsfw
    ensures |VisibleCatalog(env, true)| < |CatalogOf(env)|
  {
    var visible := VisibleCatalog(env, true);
    assert CatalogOf(env) == visible + (CatalogOf(env) - visible);
    assert hidden in CatalogOf(env) - visible;
  }

  /** The smallest such catalog: one NSFW source and one other. */
  lemma FreshInstallNsfwHiddenCounterexample()
    ensures HasNewSources(
              Env([Source("A", "A", "en", "MANGA", true, false), Source("B", "B", "en", "MANGA", false, false)], false, 1),
              [Entity("A", false, 1, 1, 0, false), Entity("B", false, 2, 1, 0, false)],
              true)
  {
    var a := Source("A", "A", "en", "MANGA", true, false);
    var b := Source("B", "B", "en", "MANGA", false, false);
    var env := Env([a, b], false, 1);
    var newRows := [Entity("A", false, 1, 1, 0, false), Entity("B", false, 2, 1, 0, false)];
    CatalogMembership(env.entries, false, a);
    CatalogMembership(env.entries, false, b);
    assert newRows[0] in newRows && newRows[1] in newRows;
    FreshInstallNsfwHiddenReportsNewSources(env, newRows, a, b);
  }

  /** `observeHasNewSources` comparing the projected list with the catalog the user can
      see, so that hidden NSFW sources do not count as missing. */
  function HasVisibleNewSources(env: Env, newRows: seq<Entity>, skipNsfw: bool): (b: bool)
    ensures b <==> && (exists i | 0 <= i < |newRows| :: Kept(env, newRows[i], skipNsfw).Some?)
                   && |ToSources(env, newRows, skipNsfw, None)| != |VisibleCatalog(env, skipNsfw)|
  {
    var sources := ToSources(env, newRows, skipNsfw, None);
    if |sources| > 0 then
      assert sources[0] in sources;
      |sources| != |VisibleCatalog(env, skipNsfw)|
    else false
  }

  /** Whatever the NSFW setting, a fresh install reports no new sources. */
  lemma FreshInstallHasNoVisibleNewSources(env: Env, newRows: seq<Entity>, skipNsfw: bool)
    requires ValidEnv(env) && DistinctSources(newRows)
    requires forall s | s in CatalogOf(env) :: s.name in SourcesOf(newRows)
    ensures !HasVisibleNewSources(env, newRows, skipNsfw)
  {
    CollectOfCatalogRows(env, newRows, skipNsfw);
  }

  /** With NSFW sources shown the two predicates agree. */
  lemma VisibleNewSourcesWhenShown(env: Env, newRows: seq<Entity>)
    ensures HasVisibleNewSources(env, newRows, false) == HasNewSources(env, newRows, false)
  {
    assert VisibleCatalog(env, false) == CatalogOf(env);
  }

  /** The predicate of `observeHasNewSourcesForBadge`, over the rows added since the
      acknowledged version. */
  function HasNewSourcesForBadge(env: Env, sourcesVersion: int, rows: seq<Entity>, skipNsfw: bool): (b: bool)
    ensures b <==> sourcesVersion < env.versionCode && exists i | 0 <= i < |rows| :: Kept(env, rows[i], skipNsfw).Some?
  {
    if sourcesVersion < env.versionCode then
      var sources := ToSources(env, rows, skipNsfw, None);
      assert |sources| > 0 ==> sources[0] in sources;
      |sources| > 0
    else false
  }

  /** `clearNewSourcesBadge`: acknowledges the current version, nothing else changes. */
  function ClearNewSourcesBadge(env: Env, settings: Settings): (r: Settings)
    ensures r.sourcesVersion == env.versionCode
    ensures r.(sourcesVersion := settings.sourcesVersion) == settings
  {
    settings.(sourcesVersion := env.versionCode)
  }

  /** After the badge is cleared it no longer shows, whatever the table holds. */
  lemma BadgeClearedAfterClear(env: Env, settings: Settings, rows: seq<Entity>, skipNsfw: bool)
    ensures !HasNewSourcesForBadge(env, ClearNewSourcesBadge(env, settings).sourcesVersion, rows, skipNsfw)
  {
  }

  /** `isSetupRequired`: the acknowledged version is still 0 and no source is enabled. */
  function IsSetupRequired(settings: Settings, enabledNames: seq<string>): (b: bool)
    ensures b ==> settings.sourcesVersion == 0
  {
    settings.sourcesVersion == 0 && |enabledNames| == 0
  }

  /** Setup is required exactly on an unacknowledged version with no enabled record. */
  lemma SetupRequiredOfStore(settings: Settings, enabledNames: seq<string>, db: Store)
    requires ListsEnabledNames(enabledNames, db)
    ensures IsSetupRequired(settings, enabledNames)
        <==> settings.sourcesVersion == 0 && forall k | k in db :: !db[k].isEnabled
  {
    if |enabledNames| > 0 {
      assert enabledNames[0] in enabledNames;
    }
  }
}
