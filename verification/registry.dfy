/** The repository's state and its fixed surroundings: the build constants, the settings
    it reads, and the table plus the once-only assimilation flag. */
module Registry {
  import opened SourceCatalog
  import opened SourcesStore

  /** `SourcesSortOrder`; every order other than ALPHABETIC is applied by the database query. */
  datatype SortOrder = Alphabetic | Manual | Popularity

  /** The settings the repository reads and writes. */
  datatype Settings = Settings(
    isNsfwContentDisabled: bool,
    sourcesSortOrder: SortOrder,
    sourcesVersion: int,
    isIncognitoModeEnabled: bool,
    isHistoryExcludeNsfw: bool)

  /** The source enumeration and the build constants `BuildConfig.DEBUG` and `VERSION_CODE`. */
  datatype Env = Env(entries: seq<Source>, debug: bool, versionCode: int)

  predicate ValidEnv(env: Env) {
    UniqueNames(env.entries)
  }

  /** `remoteSources` of this build. */
  function CatalogOf(env: Env): set<Source> {
    RemoteSources(env.entries, env.debug)
  }

  function CatalogNames(env: Env): set<string> {
    set s | s in CatalogOf(env) :: s.name
  }

  /** The table and the `isNewSourcesAssimilated` flag of one repository instance. */
  datatype Repo = Repo(db: Store, isNewSourcesAssimilated: bool)

  /** Rows are keyed by name, and once assimilation has run every catalog source has a row. */
  predicate Valid(env: Env, repo: Repo) {
    && KeysMatch(repo.db)
    && (repo.isNewSourcesAssimilated ==> forall s | s in CatalogOf(env) :: s.name in repo.db)
  }
}
