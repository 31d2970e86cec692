/** `toSources`: the projection of a list of table rows to the list of catalog sources they name. */
module Projection {
  import opened Wrappers
  import opened Sequences
  import opened SourceCatalog
  import opened SourcesStore
  import opened Registry
  import opened AlphabeticSort

  /** The source a row contributes: its name must resolve, the source must not be hidden
      as NSFW, and it must belong to the catalog. */
  function Kept(env: Env, e: Entity, skipNsfw: bool): (r: Option<Source>)
    ensures r.Some? ==> r.value in CatalogOf(env) && r.value.name == e.source
    ensures r.Some? ==> !(skipNsfw && r.value.isNsfw)
  {
    match Resolve(env.entries, e.source)
    case None => None
    case Some(s) => if skipNsfw && s.isNsfw then None else if s in CatalogOf(env) then Some(s) else None
  }

  /** A row naming a visible catalog source keeps exactly that source. */
  lemma KeptCatalogSource(env: Env, e: Entity, s: Source, skipNsfw: bool)
    requires ValidEnv(env) && s in CatalogOf(env) && e.source == s.name && !(skipNsfw && s.isNsfw)
    ensures Kept(env, e, skipNsfw) == Some(s)
  {
    ResolveEntry(env.entries, s);
  }

  /** `sources` appear in `rows`, in the same order, each as the row of its own name. */
  predicate Embeds(sources: seq<Source>, rows: seq<Entity>)
    decreases |rows|
  {
    if |sources| == 0 then true
    else if |rows| == 0 then false
    else (sources[0].name == rows[0].source && Embeds(sources[1..], rows[1..])) || Embeds(sources, rows[1..])
  }

  lemma {:induction false} EmbedsAfterSubseq(a: seq<Source>, b: seq<Source>, rows: seq<Entity>)
    requires Subseq(a, b) && Embeds(b, rows)
    ensures Embeds(a, rows)
    decreases |rows|
  {
    if |a| > 0 {
      SubseqLength(a, b);
      if b[0].name == rows[0].source && Embeds(b[1..], rows[1..]) {
        if a[0] == b[0] && Subseq(a[1..], b[1..]) {
          EmbedsAfterSubseq(a[1..], b[1..], rows[1..]);
        } else {
          EmbedsAfterSubseq(a, b[1..], rows[1..]);
        }
      } else {
        EmbedsAfterSubseq(a, b, rows[1..]);
      }
    }
  }

  lemma {:induction false} EmbedsIntoSuperseq(a: seq<Source>, rows: seq<Entity>, all: seq<Entity>)
    requires Embeds(a, rows) && Subseq(rows, all)
    ensures Embeds(a, all)
    decreases |all|
  {
    if |a| > 0 {
      if rows[0] == all[0] && Subseq(rows[1..], all[1..]) {
        if a[0].name == rows[0].source && Embeds(a[1..], rows[1..]) {
          EmbedsIntoSuperseq(a[1..], rows[1..], all[1..]);
        } else {
          EmbedsIntoSuperseq(a, rows[1..], all[1..]);
        }
      } else {
        EmbedsIntoSuperseq(a, rows, all[1..]);
      }
    }
  }

  /** Every source of an embedding names one of the rows. */
  lemma {:induction false} EmbedsNames(a: seq<Source>, rows: seq<Entity>)
    requires Embeds(a, rows)
    ensures forall s | s in a :: s.name in SourcesOf(rows)
    decreases |rows|
  {
    if |a| > 0 {
      assert rows == [rows[0]] + rows[1..];
      assert SourcesOf(rows) == {rows[0].source} + SourcesOf(rows[1..]);
      if a[0].name == rows[0].source && Embeds(a[1..], rows[1..]) {
        EmbedsNames(a[1..], rows[1..]);
        assert a == [a[0]] + a[1..];
      } else {
        EmbedsNames(a, rows[1..]);
      }
    }
  }

  /** Sources embedded in rows that name pairwise different sources have unique names. */
  lemma {:induction false} EmbedsDistinct(a: seq<Source>, rows: seq<Entity>)
    requires Embeds(a, rows) && DistinctSources(rows)
    ensures UniqueNames(a)
    decreases |rows|
  {
    if |a| > 0 {
      assert DistinctSources(rows[1..]) by {
        assert forall i | 1 <= i < |rows| :: rows[1..][i - 1] == rows[i];
      }
      if a[0].name == rows[0].source && Embeds(a[1..], rows[1..]) {
        EmbedsDistinct(a[1..], rows[1..]);
        EmbedsNames(a[1..], rows[1..]);
        assert rows[0].source !in SourcesOf(rows[1..]) by {
          forall e | e in rows[1..]
            ensures e.source != rows[0].source
          {
            var j :| 0 <= j < |rows[1..]| && rows[1..][j] == e;
            assert e == rows[j + 1];
          }
        }
        forall i, j | 0 <= i < j < |a|
          ensures a[i].name != a[j].name
        {
          assert a[j] == a[1..][j - 1];
          if i > 0 {
            assert a[i] == a[1..][i - 1];
          }
        }
      } else {
        EmbedsDistinct(a, rows[1..]);
      }
    }
  }

  /** The loop of `toSources` before sorting. */
  function Collect(env: Env, rows: seq<Entity>, skipNsfw: bool): (r: seq<Source>)
    ensures |r| <= |rows|
    ensures forall s | s in r :: exists i | 0 <= i < |rows| :: Kept(env, rows[i], skipNsfw) == Some(s)
    ensures forall i | 0 <= i < |rows| && Kept(env, rows[i], skipNsfw).Some? :: Kept(env, rows[i], skipNsfw).value in r
    ensures Embeds(r, rows)
    decreases |rows|
  {
    if |rows| == 0 then []
    else
      var rest := Collect(env, rows[1..], skipNsfw);
      assert forall i | 1 <= i < |rows| :: rows[1..][i - 1] == rows[i];
      match Kept(env, rows[0], skipNsfw)
      case None => rest
      case Some(s) =>
        assert ([s] + rest)[1..] == rest;
        [s] + rest
  }

  /** The set `pinned` built by the same loop. */
  function PinnedOf(env: Env, rows: seq<Entity>, skipNsfw: bool): set<Source> {
    set i | 0 <= i < |rows| && rows[i].isPinned && Kept(env, rows[i], skipNsfw).Some? :: Kept(env, rows[i], skipNsfw).value
  }

  /** `toSources`: only catalog sources whose names resolve and which are not hidden as NSFW;
      in the table's order, or for ALPHABETIC stably sorted unpinned first, then by title. */
  function ToSources(env: Env, rows: seq<Entity>, skipNsfw: bool, order: Option<SortOrder>): (r: seq<Source>)
    ensures |r| <= |rows|
    ensures forall s | s in r :: exists i | 0 <= i < |rows| :: Kept(env, rows[i], skipNsfw) == Some(s)
    ensures forall i | 0 <= i < |rows| && Kept(env, rows[i], skipNsfw).Some? :: Kept(env, rows[i], skipNsfw).value in r
    ensures forall s | s in r :: s in CatalogOf(env) && !(skipNsfw && s.isNsfw)
    ensures order != Some(Alphabetic) ==> Embeds(r, rows)
    ensures order == Some(Alphabetic) ==>
              && Sorted(r, PinnedOf(env, rows, skipNsfw))
              && multiset(r) == multiset(Collect(env, rows, skipNsfw))
              && forall k :: WithKey(r, PinnedOf(env, rows, skipNsfw), k) == WithKey(Collect(env, rows, skipNsfw), PinnedOf(env, rows, skipNsfw), k)
  {
    var result := Collect(env, rows, skipNsfw);
    if order == Some(Alphabetic) then
      var pinned := PinnedOf(env, rows, skipNsfw);
      var sorted := Sort(result, pinned);
      SortIsStablePermutation(result, pinned);
      sorted
    else result
  }
}
