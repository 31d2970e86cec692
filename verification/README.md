# Kotatsu manga-source registry, modelled in Dafny

This project models the core of Kotatsu's manga-source registry. The registry is the
repository that keeps one database record per manga source (a website backend). Each
record says whether the source is enabled, its manual sort position, the app version
that added it, when it was last used, and whether it is pinned. The project also models
the quick-filter state holder used by manga lists.

The model covers:

- the remote-source catalogue: every source of the build except the `LOCAL` and
  `UNKNOWN` sentinels, and except `DUMMY` in release builds;
- name resolution: a stored name maps to the first enum entry with that name;
- the projection of database rows to visible sources. Unknown names are dropped, NSFW
  sources are dropped when NSFW content is disabled, and non-catalogue sources are
  dropped. The alphabetic order sorts unpinned before pinned and then by title, and the
  sort is stable;
- every query: enabled, pinned, top, disabled and available sources, the two counters,
  the "all" listing, the two "new sources" predicates, and the setup check;
- lazy assimilation of sources new in this build. Missing sources are appended disabled
  with consecutive sort keys above the current maximum, and the once-per-instance flag is
  set before any work;
- every mutation: enabled/pinned writes with their reversible handles, the exclusive
  enable, disable-all, manual positions, usage tracking, and clearing the badge;
- the quick filter: set, toggle and clear an option, and build the chip list.

Modules: `Wrappers` (Option), `Sequences` (filter and subsequence), `SourceCatalog`
(the source catalogue and name resolution), `TitleOrder` (Java string order), `AlphabeticSort`
(the stable sort), `SourcesStore` (the table as a map keyed by source name),
`Registry` (settings, build environment, repository state and its invariant),
`Projection` (rows to sources), `Text` (case-insensitive matching), `SourceQueries`,
`Assimilation`, `SourceMutations`, `QuickFilter`.

The table is a `map<string, Entity>` keyed by source name. A DAO query's result is an
input `seq<Entity>` in the order the DAO returns it. Lemmas tie those rows to the map
through `Lists`/`ListsEnabledNames`: a query lists exactly the records with its flag set.
The build constants (`BuildConfig.DEBUG`, `BuildConfig.VERSION_CODE`) and the enum's
entries are the `Env` parameter. The clock reading in `trackUsage` is the `now`
parameter. A reversible handle is the data value `ReversibleHandle(flag, sources, value)`,
and `Reverse` applies it.

Behaviours of the code that the model keeps as they are:

- The once-per-instance assimilation flag is set by `getAndSet(true)` before any work
  (line 216), so a failed assimilation is not retried. `Assimilation.Assimilate` does
  the same.
- `getPinnedSources` (lines 54-60) and the enabled count (lines 120-129) resolve names
  against all enum entries, not only the catalogue, so they can include `LOCAL`,
  `UNKNOWN` or `DUMMY` records. `SourceQueries.GetPinnedSources` and
  `SourceQueries.EnabledSourcesCount` keep that behaviour, and
  `SourceQueries.EnabledCountCoversList` relates the count to the list.
- Records whose names are no longer in the catalogue stay in the table after
  assimilation, so the record count can exceed the catalogue size. The model proves only
  that every catalogue source has a record.
- The pin handle and the "new sources" comparison are listed under "## Findings".

## Model

All paths are relative to the repository root.

| member | source | states |
|---|---|---|
| SourceCatalog.Resolve | app/src/main/kotlin/org/koitharu/kotatsu/explore/data/MangaSourcesRepository.kt:320 | a resolved source is an entry carrying the looked-up name; no result means no entry has that name |
| SourceCatalog.ResolveEntry | app/src/main/kotlin/org/koitharu/kotatsu/explore/data/MangaSourcesRepository.kt:320 | with unique enum names, resolving an entry's own name returns that entry |
| SourceCatalog.RemoteSources | app/src/main/kotlin/org/koitharu/kotatsu/explore/data/MangaSourcesRepository.kt:37-43 | the catalogue never holds LOCAL or UNKNOWN, holds DUMMY only in debug builds, and holds every other entry |
| SourceCatalog.CatalogMembership | app/src/main/kotlin/org/koitharu/kotatsu/explore/data/MangaSourcesRepository.kt:37-43 | per entry: sentinels are excluded, DUMMY is present exactly in debug builds, everything else is present |
| SourceCatalog.CatalogOrder | app/src/main/kotlin/org/koitharu/kotatsu/explore/data/MangaSourcesRepository.kt:37-46 | the enum-order iteration of the catalogue keeps the declaration order of the entries, has the same members as the catalogue set, and keeps names unique |
| SourceCatalog.CatalogOrderCardinality | app/src/main/kotlin/org/koitharu/kotatsu/explore/data/MangaSourcesRepository.kt:37-46 | the catalogue's size equals the length of its enum-order iteration |
| Projection.Kept | app/src/main/kotlin/org/koitharu/kotatsu/explore/data/MangaSourcesRepository.kt:294-304 | a kept row yields a catalogue source with the row's name, never an NSFW one when NSFW is skipped |
| Projection.Collect | app/src/main/kotlin/org/koitharu/kotatsu/explore/data/MangaSourcesRepository.kt:292-305 | the projection holds exactly the sources of kept rows, no more than the rows, in row order |
| Projection.ToSources | app/src/main/kotlin/org/koitharu/kotatsu/explore/data/MangaSourcesRepository.kt:288-310 | result holds exactly the kept rows' sources; row order unless alphabetic; alphabetic output is sorted by (pinned, title), a permutation of the row order, and stable per key |
| AlphabeticSort.SortIsSorted | app/src/main/kotlin/org/koitharu/kotatsu/explore/data/MangaSourcesRepository.kt:306-308 | the sort puts unpinned sources before pinned ones and orders each group by title |
| AlphabeticSort.SortIsStable | app/src/main/kotlin/org/koitharu/kotatsu/explore/data/MangaSourcesRepository.kt:306-308 | sources with equal keys keep their input order |
| AlphabeticSort.Sort | app/src/main/kotlin/org/koitharu/kotatsu/explore/data/MangaSourcesRepository.kt:306-308 | the sorted list is a permutation of the input |
| AlphabeticSort.SortedSubseq | app/src/main/kotlin/org/koitharu/kotatsu/explore/data/MangaSourcesRepository.kt:99-112 | removing sources from a sorted list keeps it sorted |
| TitleOrder.LessTransitive | app/src/main/kotlin/org/koitharu/kotatsu/explore/data/MangaSourcesRepository.kt:307 | title order is transitive |
| TitleOrder.LessTotal | app/src/main/kotlin/org/koitharu/kotatsu/explore/data/MangaSourcesRepository.kt:307 | any two distinct titles are ordered one way or the other |
| SourceQueries.GetEnabledSources | app/src/main/kotlin/org/koitharu/kotatsu/explore/data/MangaSourcesRepository.kt:48-52 | only catalogue sources allowed by the NSFW setting; in DAO order, or under the alphabetic order a sorted, stable permutation of the projected rows |
| SourceQueries.EnabledSourcesOfStore | app/src/main/kotlin/org/koitharu/kotatsu/explore/data/MangaSourcesRepository.kt:48-52 | a source is listed exactly when its record is enabled, it is in the catalogue, and the NSFW setting allows it; `observeEnabledSources` (lines 143-150) emits the same list |
| SourceQueries.GetPinnedSources | app/src/main/kotlin/org/koitharu/kotatsu/explore/data/MangaSourcesRepository.kt:54-60 | only resolvable sources allowed by the NSFW setting (not restricted to the catalogue) |
| SourceQueries.PinnedSourcesOfStore | app/src/main/kotlin/org/koitharu/kotatsu/explore/data/MangaSourcesRepository.kt:54-60 | an enum entry is in the set exactly when its record is pinned and the NSFW setting allows it |
| SourceQueries.GetTopSources | app/src/main/kotlin/org/koitharu/kotatsu/explore/data/MangaSourcesRepository.kt:62-65 | exactly the sources of the rows that are kept (resolvable, in the catalogue, allowed by the NSFW setting), in the DAO's last-used order, no more than the rows |
| SourceQueries.GetDisabledSources | app/src/main/kotlin/org/koitharu/kotatsu/explore/data/MangaSourcesRepository.kt:67-76 | exactly the catalogue sources that no enabled name resolves to |
| SourceQueries.DisabledSourcesOfStore | app/src/main/kotlin/org/koitharu/kotatsu/explore/data/MangaSourcesRepository.kt:67-76 | a catalogue source is disabled exactly when it has no record or its record is not enabled |
| SourceQueries.SelectedRows | app/src/main/kotlin/org/koitharu/kotatsu/explore/data/MangaSourcesRepository.kt:88-94 | keeps, in order, exactly the rows passing the disabled-only and new-only filters |
| SourceQueries.NarrowSources | app/src/main/kotlin/org/koitharu/kotatsu/explore/data/MangaSourcesRepository.kt:99-112 | keeps, in order, exactly the sources passing the locale, broken, type and query filters |
| SourceQueries.GetAvailableSources | app/src/main/kotlin/org/koitharu/kotatsu/explore/data/MangaSourcesRepository.kt:78-114 | a source is returned exactly when some row passing the row filters projects to it and it passes the source filters; the result only narrows the projected (and possibly sorted) list, so it is in DAO order or sorted |
| SourceQueries.EnabledSourcesCount | app/src/main/kotlin/org/koitharu/kotatsu/explore/data/MangaSourcesRepository.kt:120-129 | the count equals the number of rows whose name resolves to an enum entry allowed by the NSFW setting; it is zero exactly when no row does |
| SourceQueries.EnabledCountCoversList | app/src/main/kotlin/org/koitharu/kotatsu/explore/data/MangaSourcesRepository.kt:120-129 | the count is at least the length of the projected enabled list, because it does not require catalogue membership |
| SourceQueries.AvailableSourcesCount | app/src/main/kotlin/org/koitharu/kotatsu/explore/data/MangaSourcesRepository.kt:131-141 | the count never exceeds the catalogue size |
| SourceQueries.AvailableCountMatchesDisabled | app/src/main/kotlin/org/koitharu/kotatsu/explore/data/MangaSourcesRepository.kt:131-141 | for either NSFW setting, the available count equals the number of disabled sources that the setting does not hide |
| SourceQueries.AllSources | app/src/main/kotlin/org/koitharu/kotatsu/explore/data/MangaSourcesRepository.kt:152-161 | exactly the catalogue sources of the rows, each paired with its row's enabled flag, in row order |
| SourceQueries.HasNewSources | app/src/main/kotlin/org/koitharu/kotatsu/explore/data/MangaSourcesRepository.kt:194-197 | true exactly when some new row projects to a visible source and the projected list's length differs from the whole catalogue's size |
| SourceQueries.FreshInstallHasNoNewSources | app/src/main/kotlin/org/koitharu/kotatsu/explore/data/MangaSourcesRepository.kt:194-197 | with NSFW sources shown, when the new rows name every catalogue source once, the predicate is false |
| SourceQueries.CollectOfCatalogRows | app/src/main/kotlin/org/koitharu/kotatsu/explore/data/MangaSourcesRepository.kt:288-305 | on rows with one record per name covering the catalogue, the projected list is as long as the visible catalogue |
| SourceQueries.FreshInstallNsfwHiddenReportsNewSources | app/src/main/kotlin/org/koitharu/kotatsu/explore/data/MangaSourcesRepository.kt:194-197 | with NSFW sources hidden, a fresh install whose catalogue holds an NSFW source and another source reports new sources |
| SourceQueries.FreshInstallNsfwHiddenCounterexample | app/src/main/kotlin/org/koitharu/kotatsu/explore/data/MangaSourcesRepository.kt:194-197 | the catalogue of one NSFW source "A" and one other source "B", both added in this version, reports new sources when NSFW is hidden |
| SourceQueries.HasVisibleNewSources | app/src/main/kotlin/org/koitharu/kotatsu/explore/data/MangaSourcesRepository.kt:194-197 | the corrected predicate: some new row projects to a visible source and the list's length differs from the visible catalogue's size |
| SourceQueries.FreshInstallHasNoVisibleNewSources | app/src/main/kotlin/org/koitharu/kotatsu/explore/data/MangaSourcesRepository.kt:194-197 | under either NSFW setting, when the new rows name every catalogue source once, the corrected predicate is false |
| SourceQueries.VisibleNewSourcesWhenShown | app/src/main/kotlin/org/koitharu/kotatsu/explore/data/MangaSourcesRepository.kt:194-197 | with NSFW sources shown, the corrected predicate and the code's predicate agree |
| SourceQueries.HasNewSourcesForBadge | app/src/main/kotlin/org/koitharu/kotatsu/explore/data/MangaSourcesRepository.kt:199-209 | true exactly when the stored version is older than the build and some row since then is visible |
| SourceQueries.ClearNewSourcesBadge | app/src/main/kotlin/org/koitharu/kotatsu/explore/data/MangaSourcesRepository.kt:211-213 | stores the build's version code and changes no other setting |
| SourceQueries.BadgeClearedAfterClear | app/src/main/kotlin/org/koitharu/kotatsu/explore/data/MangaSourcesRepository.kt:199-213 | after clearing, the badge predicate is false |
| SourceQueries.IsSetupRequired | app/src/main/kotlin/org/koitharu/kotatsu/explore/data/MangaSourcesRepository.kt:238-240 | setup is required only while the stored sources version is zero |
| SourceQueries.SetupRequiredOfStore | app/src/main/kotlin/org/koitharu/kotatsu/explore/data/MangaSourcesRepository.kt:238-240 | setup is required exactly when the version is zero and no record is enabled |
| Assimilation.GetNewSources | app/src/main/kotlin/org/koitharu/kotatsu/explore/data/MangaSourcesRepository.kt:279-286 | exactly the catalogue sources without a record, without duplicates, in declaration order, so earlier-declared sources receive the lower new sort keys |
| Assimilation.NewEntities | app/src/main/kotlin/org/koitharu/kotatsu/explore/data/MangaSourcesRepository.kt:223-233 | one disabled, unpinned, unused record per missing source, tagged with this version, with sort keys max+1, max+2, ... |
| Assimilation.MaxSortKey | app/src/main/kotlin/org/koitharu/kotatsu/explore/data/MangaSourcesRepository.kt:223 | the result bounds every sort key and is attained, or is 0 for an empty table |
| SourcesStore.InsertIfAbsent | app/src/main/kotlin/org/koitharu/kotatsu/explore/data/MangaSourcesRepository.kt:234 | existing records are untouched and each new name gets a record carrying that name |
| Assimilation.Assimilate | app/src/main/kotlin/org/koitharu/kotatsu/explore/data/MangaSourcesRepository.kt:215-236 | a second call is a no-op; the first keeps old records, adds exactly the missing catalogue names as fresh disabled records with consecutive keys above the old maximum, and reports whether it inserted |
| SourceMutations.SetSourcesFlag | app/src/main/kotlin/org/koitharu/kotatsu/explore/data/MangaSourcesRepository.kt:255-277 | writes the flag on the named existing records and changes nothing else, on the single-source fast path and the loop alike |
| SourceMutations.SetSourcesEnabled | app/src/main/kotlin/org/koitharu/kotatsu/explore/data/MangaSourcesRepository.kt:163-168 | sets the enabled flag of the named records and returns a handle that writes the opposite value |
| SourceMutations.UndoSetSourcesEnabled | app/src/main/kotlin/org/koitharu/kotatsu/explore/data/MangaSourcesRepository.kt:163-168 | running the handle leaves every named record with the opposite enabled flag and every other record unchanged; a uniform prior value is restored |
| SourceMutations.SetIsPinnedAsWritten | app/src/main/kotlin/org/koitharu/kotatsu/explore/data/MangaSourcesRepository.kt:242-247 | pins or unpins the named records; the returned handle targets the enabled flag |
| SourceMutations.UndoPinAsWrittenCounterexample | app/src/main/kotlin/org/koitharu/kotatsu/explore/data/MangaSourcesRepository.kt:242-247 | pinning an enabled source and running the handle leaves it pinned and disabled |
| SourceMutations.SetIsPinned | app/src/main/kotlin/org/koitharu/kotatsu/explore/data/MangaSourcesRepository.kt:242-247 | pins or unpins the named records and returns a handle on the pinned flag |
| SourceMutations.UndoSetIsPinned | app/src/main/kotlin/org/koitharu/kotatsu/explore/data/MangaSourcesRepository.kt:242-247 | running the corrected handle after pinning restores the pin flag and leaves the enabled flag alone |
| SourceMutations.SetSourcesEnabledExclusive | app/src/main/kotlin/org/koitharu/kotatsu/explore/data/MangaSourcesRepository.kt:170-177 | after assimilation, every catalogue source is enabled exactly when it is in the given set; only enabled flags change; non-catalogue records are untouched; records added by the assimilation are fresh (unpinned, unused, tagged with this version) |
| SourceMutations.DisableAllSources | app/src/main/kotlin/org/koitharu/kotatsu/explore/data/MangaSourcesRepository.kt:179-184 | after assimilation, no record is enabled and every other field is kept |
| SourceMutations.SetPositions | app/src/main/kotlin/org/koitharu/kotatsu/explore/data/MangaSourcesRepository.kt:186-192 | every record equals its old value with the sort key replaced by the index of the name's last listing, or is unchanged when unlisted; with distinct names the i-th listed source gets key i |
| SourceMutations.LastIndexOf | app/src/main/kotlin/org/koitharu/kotatsu/explore/data/MangaSourcesRepository.kt:188-190 | the index found names the source and no later listing does; none means the name is not listed |
| SourceMutations.TrackUsage | app/src/main/kotlin/org/koitharu/kotatsu/explore/data/MangaSourcesRepository.kt:249-253 | stamps the source's last-used time unless incognito, or history excludes NSFW and the source is NSFW; nothing else changes |
| Text.ContainsUpperCased | app/src/main/kotlin/org/koitharu/kotatsu/explore/data/MangaSourcesRepository.kt:110 | the case-insensitive search succeeds exactly when some position of the title matches the query after ASCII upper-casing both |
| Text.CharEqualsIgnoreCaseIff | app/src/main/kotlin/org/koitharu/kotatsu/explore/data/MangaSourcesRepository.kt:110 | two characters are equal ignoring case exactly when their ASCII upper-cased forms are equal |
| QuickFilter.InitialFilter | app/src/main/kotlin/org/koitharu/kotatsu/list/domain/MangaListQuickFilter.kt:12 | the applied filter starts empty |
| QuickFilter.SetFilterOption | app/src/main/kotlin/org/koitharu/kotatsu/list/domain/MangaListQuickFilter.kt:20-28 | the option is present exactly when applied; other options are unchanged |
| QuickFilter.SetThenUnset | app/src/main/kotlin/org/koitharu/kotatsu/list/domain/MangaListQuickFilter.kt:20-28 | setting adds the option; setting and then unsetting removes it |
| QuickFilter.ToggleFilterOption | app/src/main/kotlin/org/koitharu/kotatsu/list/domain/MangaListQuickFilter.kt:30-38 | the option's membership flips; other options are unchanged |
| QuickFilter.ToggleTwice | app/src/main/kotlin/org/koitharu/kotatsu/list/domain/MangaListQuickFilter.kt:30-38 | toggling is setting to the opposite of the current membership, and toggling twice is the identity |
| QuickFilter.ClearFilter | app/src/main/kotlin/org/koitharu/kotatsu/list/domain/MangaListQuickFilter.kt:40-42 | the filter becomes empty, the initial state |
| QuickFilter.FilterItem | app/src/main/kotlin/org/koitharu/kotatsu/list/domain/MangaListQuickFilter.kt:44-57 | no chips when options are unavailable; otherwise one checkable chip per option, in order, checked exactly when selected |
| QuickFilter.CheckedChipsAreSelection | app/src/main/kotlin/org/koitharu/kotatsu/list/domain/MangaListQuickFilter.kt:44-57 | the checked chips carry exactly the selected options that are offered |

## Left out

- Flows and coroutines: `combine`, `distinctUntilChanged`, `flatMapLatest` and `onStart` are not modelled. Each observer is the function its lambda computes for one emission.
- `observeIsEnabled` (lines 116-118) only passes through a DAO stream after assimilation, so it has no logic of its own to model.
- Transactions and concurrency: `withTransaction` atomicity and the `AtomicBoolean` are modelled as sequential state, and the flag is one `Repo` field.
- A failing assimilation is not modelled. The code sets the once-per-instance flag before the work, so a failure would not be retried; the model sets the flag first in the same way.
- The DAO's SQL is not part of this model. Query results are inputs in DAO order. The write semantics are assumed: an UPDATE on a missing row does nothing, insert-if-absent keeps existing rows, and `getMaxSortKey` on an empty table yields 0.
- SourceQueries.GetTopSources: the `limit` is applied inside the DAO query, so the model receives the limited rows.
- The queries (`getEnabledSources`, `getPinnedSources`, `getTopSources`, `getDisabledSources`, `getAvailableSources`, lines 49, 55, 63, 68 and 87) and the observers call `assimilateNewSources()` first. The model does not compose that call with the query: a query's rows are the table after `Assimilation.Assimilate`, whose own contract states what it inserts.
- Assimilation.NewEntities: sort keys are unbounded integers. The code's `++maxSortKey` (line 228) is a Kotlin `Int` and would wrap past `Int.MAX_VALUE`; the model does not represent that overflow.
- Enum metadata (`title`, `locale`, `contentType`, `isNsfw()`, `isBroken`) is modelled as fields of `Source`.
- `BuildConfig.DEBUG`, `BuildConfig.VERSION_CODE` and `System.currentTimeMillis()` are parameters.
- `SuspendLazy.tryGet().getOrNull()` is modelled as an `Option`. A failed load and a missing value both yield `None`.
- Chip titles, title resources and icons are not modelled; only `data`, `isCheckable` and `isChecked` are.
- SourceQueries.MatchesQuery: `contains(ignoreCase = true)` is modelled with ASCII case mapping only. Unicode case folding is not modelled.
- TitleOrder.Less: titles compare by character code. Java's `String.compareTo` compares UTF-16 code units, which orders characters outside the Basic Multilingual Plane differently from U+E000 to U+FFFF.
- SourceQueries.IsSetupRequired: its own contract states only the version half. The full equivalence with the store is SourceQueries.SetupRequiredOfStore.
- SourceMutations.UndoSetSourcesEnabled: the handle writes `!isEnabled`, so it restores the prior state only when every named record held `!isEnabled` before. The lemma states what the handle writes rather than a full restore.
- SourceMutations.SetPositions: when a source is listed twice, its key becomes the last index, as sequential updates do.
- The surrounding UI and parser files (explore screen, chapters screen, progress button, debug tracker adapter, `MangaParser`, `ReaderControl`) are not part of this model.

## Findings

| source | as written | input that shows it | evidently intended | confidence | as-written member | corrected member |
|---|---|---|---|---|---|---|
| app/src/main/kotlin/org/koitharu/kotatsu/explore/data/MangaSourcesRepository.kt:242-247 | the handle returned by `setIsPinned` calls `setSourcesEnabledImpl(sources, !isPinned)` | pin an enabled, unpinned source A, then run the handle: A stays pinned and becomes disabled | the handle calls `setSourcesPinnedImpl(sources, !isPinned)` and restores the pin flag | high, not executed | SourceMutations.UndoPinAsWrittenCounterexample | SourceMutations.UndoSetIsPinned |
| app/src/main/kotlin/org/koitharu/kotatsu/explore/data/MangaSourcesRepository.kt:194-197 | `observeHasNewSources` compares the size of the NSFW-filtered list of new sources with `remoteSources.size`, which counts NSFW sources too | a fresh install with NSFW content hidden and a catalogue holding one NSFW source "A" and one other source "B": the list is [B], its size 1 differs from 2, so new sources are reported | the list is compared with the number of catalogue sources the user can see, so a fresh install reports nothing under either setting | medium, not executed | SourceQueries.FreshInstallNsfwHiddenCounterexample | SourceQueries.FreshInstallHasNoVisibleNewSources |
