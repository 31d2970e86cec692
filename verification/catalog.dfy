/** The source enumeration and the catalog of remote sources derived from it.
    Each entry carries the static metadata the parser library attaches to it. */
module SourceCatalog {
  import opened Wrappers
  import opened Sequences

  type ContentType = string

  /** One entry of the source enumeration. */
  datatype Source = Source(
    name: string,
    title: string,
    locale: string,
    contentType: ContentType,
    isNsfw: bool,
    isBroken: bool)

  /** Names of the three pseudo-sources the catalog treats specially. */
  const LocalName: string := "LOCAL"
  const UnknownName: string := "UNKNOWN"
  const DummyName: string := "DUMMY"

  /** Enumeration entries have pairwise different names. */
  predicate UniqueNames(entries: seq<Source>) {
    forall i, j | 0 <= i < j < |entries| :: entries[i].name != entries[j].name
  }

  function NamesOf(sources: seq<Source>): set<string> {
    set s | s in sources :: s.name
  }

  /** Lookup of an enumeration entry by name; a miss is `None` (`toMangaSourceOrNull`). */
  function Resolve(entries: seq<Source>, name: string): (r: Option<Source>)
    ensures r.Some? ==> r.value in entries && r.value.name == name
    ensures r.None? ==> forall s | s in entries :: s.name != name
  {
    if |entries| == 0 then None
    else if entries[0].name == name then Some(entries[0])
    else Resolve(entries[1..], name)
  }

  lemma UniqueNamesTail(entries: seq<Source>)
    requires |entries| > 0 && UniqueNames(entries)
    ensures UniqueNames(entries[1..])
    ensures forall s | s in entries[1..] :: s.name != entries[0].name
  {
    forall i, j | 0 <= i < j < |entries| - 1
      ensures entries[1..][i].name != entries[1..][j].name
    {
      assert entries[1..][i] == entries[i + 1] && entries[1..][j] == entries[j + 1];
    }
    forall s | s in entries[1..]
      ensures s.name != entries[0].name
    {
      var j :| 0 <= j < |entries[1..]| && entries[1..][j] == s;
      assert s == entries[j + 1];
    }
  }

  /** With unique names, every entry is found under its own name. */
  lemma {:induction false} ResolveEntry(entries: seq<Source>, s: Source)
    requires UniqueNames(entries) && s in entries
    ensures Resolve(entries, s.name) == Some(s)
  {
    if entries[0] != s {
      assert s in entries[1..];
      UniqueNamesTail(entries);
      ResolveEntry(entries[1..], s);
    }
  }

  /** With unique names, a name resolves to an entry exactly when it is that entry's name. */
  lemma ResolveIff(entries: seq<Source>, name: string, s: Source)
    requires UniqueNames(entries) && s in entries
    ensures Resolve(entries, name) == Some(s) <==> s.name == name
  {
    if s.name == name {
      ResolveEntry(entries, s);
    }
  }

  lemma {:induction false} UniqueNamesSubseq(a: seq<Source>, b: seq<Source>)
    requires Subseq(a, b) && UniqueNames(b)
    ensures UniqueNames(a)
    decreases |b|
  {
    if |a| > 0 {
      UniqueNamesTail(b);
      if a[0] == b[0] && Subseq(a[1..], b[1..]) {
        UniqueNamesSubseq(a[1..], b[1..]);
        SubseqMembers(a[1..], b[1..]);
        forall i, j | 0 <= i < j < |a|
          ensures a[i].name != a[j].name
        {
          assert a[j] == a[1..][j - 1];
          if i > 0 {
            assert a[i] == a[1..][i - 1];
          }
        }
      } else {
        UniqueNamesSubseq(a, b[1..]);
      }
    }
  }

  /** Entries with unique names are pairwise different, so a list of them has as many
      elements as the set it spans. */
  lemma {:induction false} UniqueNamesCardinality(entries: seq<Source>)
    requires UniqueNames(entries)
    ensures |set s | s in entries| == |entries|
    decreases |entries|
  {
    if |entries| > 0 {
      UniqueNamesTail(entries);
      UniqueNamesCardinality(entries[1..]);
      assert (set s | s in entries) == {entries[0]} + set s | s in entries[1..];
      assert entries[0] !in set s | s in entries[1..];
    }
  }

  /** A pseudo-source removed from the catalog: LOCAL and UNKNOWN always, DUMMY outside debug builds. */
  predicate IsSentinel(s: Source, debug: bool) {
    s.name == LocalName || s.name == UnknownName || (!debug && s.name == DummyName)
  }

  /** The enumeration constant with the given name, as a set of at most one entry. */
  function Named(entries: seq<Source>, name: string): set<Source> {
    set s | s in entries && s.name == name
  }

  /** `remoteSources`: every entry of the enumeration, minus LOCAL and UNKNOWN, minus DUMMY
      unless the build is a debug build. */
  function RemoteSources(entries: seq<Source>, debug: bool): (r: set<Source>)
    ensures forall s | s in r :: s in entries && s.name != LocalName && s.name != UnknownName
    ensures forall s | s in r && s.name == DummyName :: debug
    ensures forall s | s in entries && !IsSentinel(s, debug) :: s in r
  {
    var remote := (set s | s in entries) - Named(entries, LocalName) - Named(entries, UnknownName);
    if debug then remote else remote - Named(entries, DummyName)
  }

  /** The catalog in declaration order, the iteration order of an `EnumSet`. */
  function CatalogOrder(entries: seq<Source>, debug: bool): (r: seq<Source>)
    ensures forall s | s in r :: s in RemoteSources(entries, debug)
    ensures forall s | s in RemoteSources(entries, debug) :: s in r
    ensures UniqueNames(entries) ==> UniqueNames(r)
    ensures Subseq(r, entries)
  {
    var r := Filter(entries, s => !IsSentinel(s, debug));
    if UniqueNames(entries) then UniqueNamesSubseq(r, entries); r else r
  }

  /** The ordered catalog lists every catalog source exactly once. */
  lemma CatalogOrderCardinality(entries: seq<Source>, debug: bool)
    requires UniqueNames(entries)
    ensures |CatalogOrder(entries, debug)| == |RemoteSources(entries, debug)|
  {
    var order := CatalogOrder(entries, debug);
    UniqueNamesCardinality(order);
    assert (set s | s in order) == RemoteSources(entries, debug);
  }

  /** The catalog never holds LOCAL or UNKNOWN, holds DUMMY exactly in debug builds,
      and holds every other entry of the enumeration. */
  lemma CatalogMembership(entries: seq<Source>, debug: bool, s: Source)
    requires s in entries
    ensures s.name == LocalName || s.name == UnknownName ==> s !in RemoteSources(entries, debug)
    ensures s.name == DummyName ==> (s in RemoteSources(entries, debug) <==> debug)
    ensures !IsSentinel(s, debug) ==> s in RemoteSources(entries, debug)
  {
  }
}
