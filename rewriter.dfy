/**
 * `DoctrineRewriter`: slug <-> route resolution over a cached bidirectional
 * index, with a scored fallback over the persisted URIs.
 *
 * Every database query is a parameter holding its array result. The index
 * query and the fallback query arrive filtered and sorted (by priority, then
 * insertion date, both descending); the path query (at most one row, its slug
 * being unique) and the page query of `getPageIdByRoute` have no ORDER BY and
 * arrive in database order. The Nette cache region is the `store` field, three
 * optional maps.
 */
module Rewriter {
  import opened Wrappers
  import opened PhpStrings
  import opened PageEntity
  import opened UriEntity

  // ----- Query results ------------------------------------------------------

  /** A row of the index query: an active, two-way Uri with a parameter id, and its page's presenter and action. */
  datatype IndexRow = IndexRow(slug: string, locale: Option<string>, parameterId: string, presenter: string, action: string)

  /** A row of the fallback query: an active, two-way Uri of the target page. */
  datatype CandidateRow = CandidateRow(slug: string, locale: Option<string>, parameterId: Option<string>)

  /** A row of the path query: an active Uri with the given slug, joined to its page. */
  datatype PathRow = PathRow(locale: Option<string>, parameterId: Option<string>, moduleName: string, presenter: string, action: string)

  /** A row of the page query: the route `module:presenter:action` and the page id. */
  datatype PageRow = PageRow(route: string, id: Option<string>)

  /** The link request: `presenter`, `action` and the optional `locale` and `id` parameters. */
  datatype LinkParams = LinkParams(presenter: string, action: string, locale: Option<string>, id: Option<string>)

  /** A `RewriterParametersMatch`: the slug, its locale and the parameters the slug stands for. */
  datatype ParametersMatch = ParametersMatch(slug: string, locale: Option<string>, parameters: map<string, string>)

  // ----- The index ----------------------------------------------------------

  /** The PHP array locale => slug of one parameter id, in insertion order. */
  type Entries = seq<(string, string)>

  type IdToSlug = map<string, Entries>
  type IdToRoute = map<string, string>
  type SlugToId = map<string, map<string, string>>

  /** The three index maps, each possibly not loaded (`null`). */
  datatype Tables = Tables(idToSlug: Option<IdToSlug>, idToRoute: Option<IdToRoute>, slugToId: Option<SlugToId>)

  /** The three index maps as one build produces them. */
  datatype Index = Index(idToSlug: IdToSlug, idToRoute: IdToRoute, slugToId: SlugToId)

  /** The key a record's locale takes in the index: `null` becomes `''`. */
  function LocaleKey(locale: Option<string>): (key: string)
    ensures locale.Some? ==> key == locale.value
    ensures locale.None? ==> key == ""
  {
    locale.GetOr("")
  }

  /** The slug stored under `key`; the last entry wins if a key were repeated. */
  function Lookup(entries: Entries, key: string): (r: Option<string>)
    ensures r.Some? ==> (key, r.value) in entries
    ensures r.None? <==> forall i :: 0 <= i < |entries| ==> entries[i].0 != key
    decreases |entries|
  {
    if entries == [] then None
    else if entries[|entries| - 1].0 == key then Some(entries[|entries| - 1].1)
    else Lookup(entries[..|entries| - 1], key)
  }

  /** One step of the build: first slug per (id, locale), last route per id, first id per (slug, locale). */
  function AddRow(ix: Index, row: IndexRow): (r: Index)
    ensures row.parameterId in r.idToRoute && r.idToRoute[row.parameterId] == row.presenter + ":" + row.action
    ensures row.slug in r.slugToId && LocaleKey(row.locale) in r.slugToId[row.slug]
    ensures row.slug in ix.slugToId && LocaleKey(row.locale) in ix.slugToId[row.slug] ==>
      r.slugToId[row.slug][LocaleKey(row.locale)] == ix.slugToId[row.slug][LocaleKey(row.locale)]
    ensures !(row.slug in ix.slugToId && LocaleKey(row.locale) in ix.slugToId[row.slug]) ==>
      r.slugToId[row.slug][LocaleKey(row.locale)] == row.parameterId
  {
    var locale := LocaleKey(row.locale);
    var slugs := if row.parameterId in ix.idToSlug then ix.idToSlug[row.parameterId] else [];
    var slugs' := if Lookup(slugs, locale).Some? then slugs else slugs + [(locale, row.slug)];
    var ids := if row.slug in ix.slugToId then ix.slugToId[row.slug] else map[];
    var ids' := if locale in ids then ids else ids[locale := row.parameterId];
    Index(ix.idToSlug[row.parameterId := slugs'],
          ix.idToRoute[row.parameterId := row.presenter + ":" + row.action],
          ix.slugToId[row.slug := ids'])
  }

  /** The index built from the rows in order. */
  function IndexOf(rows: seq<IndexRow>): Index
    decreases |rows|
  {
    if rows == [] then Index(map[], map[], map[])
    else AddRow(IndexOf(rows[..|rows| - 1]), rows[|rows| - 1])
  }

  /** The `foreach` of `initCache` that fills the three maps. */
  method BuildIndex(rows: seq<IndexRow>) returns (ix: Index)
    ensures ix == IndexOf(rows)
  {
    var idToSlug: IdToSlug := map[];
    var idToRoute: IdToRoute := map[];
    var slugToId: SlugToId := map[];
    for i := 0 to |rows|
      invariant Index(idToSlug, idToRoute, slugToId) == IndexOf(rows[..i])
    {
      var row := rows[i];
      var locale := LocaleKey(row.locale);
      assert rows[..i + 1][..i] == rows[..i];
      var slugs := if row.parameterId in idToSlug then idToSlug[row.parameterId] else [];
      if Lookup(slugs, locale).None? {
        slugs := slugs + [(locale, row.slug)];
      }
      idToSlug := idToSlug[row.parameterId := slugs];
      idToRoute := idToRoute[row.parameterId := row.presenter + ":" + row.action];
      var ids := if row.slug in slugToId then slugToId[row.slug] else map[];
      if locale !in ids {
        ids := ids[locale := row.parameterId];
      }
      slugToId := slugToId[row.slug := ids];
    }
    assert rows[..|rows|] == rows;
    ix := Index(idToSlug, idToRoute, slugToId);
  }

  /** Rows `a` and `b` compete for the same `idToSlug` cell. */
  predicate SameIdLocale(a: IndexRow, b: IndexRow) {
    a.parameterId == b.parameterId && LocaleKey(a.locale) == LocaleKey(b.locale)
  }

  /** Rows `a` and `b` compete for the same `slugToId` cell. */
  predicate SameSlugLocale(a: IndexRow, b: IndexRow) {
    a.slug == b.slug && LocaleKey(a.locale) == LocaleKey(b.locale)
  }

  /** Appending an entry for a key not yet present makes it the one found for that key. */
  lemma AppendedEntryFound(entries: Entries, key: string, slug: string, locale: string)
    requires Lookup(entries, key).None?
    ensures Lookup(entries + [(key, slug)], locale) == if key == locale then Some(slug) else Lookup(entries, locale)
  {
    assert (entries + [(key, slug)])[..|entries|] == entries;
  }

  /** One build step on the `idToSlug` and `idToRoute` cells of `pid`. */
  lemma AddRowIdCells(ix: Index, row: IndexRow, pid: string, locale: string)
    ensures pid in AddRow(ix, row).idToSlug <==> pid in ix.idToSlug || row.parameterId == pid
    ensures pid in AddRow(ix, row).idToRoute <==> pid in ix.idToRoute || row.parameterId == pid
    ensures (pid in ix.idToSlug ==> ix.idToSlug[pid] != []) ==>
      (pid in AddRow(ix, row).idToSlug ==> AddRow(ix, row).idToSlug[pid] != [])
    ensures (pid in AddRow(ix, row).idToSlug && Lookup(AddRow(ix, row).idToSlug[pid], locale).Some?) <==>
      (pid in ix.idToSlug && Lookup(ix.idToSlug[pid], locale).Some?) || (row.parameterId == pid && LocaleKey(row.locale) == locale)
  {
    if row.parameterId == pid {
      var slugs := if pid in ix.idToSlug then ix.idToSlug[pid] else [];
      if Lookup(slugs, LocaleKey(row.locale)).None? {
        AppendedEntryFound(slugs, LocaleKey(row.locale), row.slug, locale);
      }
    }
  }

  /** The ids in `idToSlug` and in `idToRoute` are those of the rows, and every id has a slug. */
  lemma {:induction false} IdToSlugIds(rows: seq<IndexRow>, pid: string)
    ensures pid in IndexOf(rows).idToSlug <==> exists i :: 0 <= i < |rows| && rows[i].parameterId == pid
    ensures pid in IndexOf(rows).idToRoute <==> pid in IndexOf(rows).idToSlug
    ensures pid in IndexOf(rows).idToSlug ==> IndexOf(rows).idToSlug[pid] != []
    decreases |rows|
  {
    if rows != [] {
      var init := rows[..|rows| - 1];
      IdToSlugIds(init, pid);
      AddRowIdCells(IndexOf(init), rows[|rows| - 1], pid, "");
      forall i | 0 <= i < |init| ensures init[i] == rows[i] { }
    }
  }

  /** An (id, locale) cell of `idToSlug` is set exactly when some row has both. */
  lemma {:induction false} IdToSlugCells(rows: seq<IndexRow>, pid: string, locale: string)
    ensures (pid in IndexOf(rows).idToSlug && Lookup(IndexOf(rows).idToSlug[pid], locale).Some?) <==>
      exists i :: 0 <= i < |rows| && rows[i].parameterId == pid && LocaleKey(rows[i].locale) == locale
    decreases |rows|
  {
    if rows != [] {
      var init := rows[..|rows| - 1];
      IdToSlugCells(init, pid, locale);
      AddRowIdCells(IndexOf(init), rows[|rows| - 1], pid, locale);
      forall i | 0 <= i < |init| ensures init[i] == rows[i] { }
    }
  }

  /**
   * The ids in `idToSlug` and in `idToRoute` are those of the rows, every id has at
   * least one slug, and an (id, locale) cell is set exactly when some row has both.
   */
  lemma IdToSlugDomain(rows: seq<IndexRow>, pid: string, locale: string)
    ensures pid in IndexOf(rows).idToSlug <==> exists i :: 0 <= i < |rows| && rows[i].parameterId == pid
    ensures pid in IndexOf(rows).idToRoute <==> pid in IndexOf(rows).idToSlug
    ensures pid in IndexOf(rows).idToSlug ==> IndexOf(rows).idToSlug[pid] != []
    ensures (pid in IndexOf(rows).idToSlug && Lookup(IndexOf(rows).idToSlug[pid], locale).Some?) <==>
      exists i :: 0 <= i < |rows| && rows[i].parameterId == pid && LocaleKey(rows[i].locale) == locale
  {
    IdToSlugIds(rows, pid);
    IdToSlugCells(rows, pid, locale);
  }

  /** A build step keeps a slug already stored for (pid, locale). */
  lemma AddRowKeepsSlug(ix: Index, row: IndexRow, pid: string, locale: string)
    requires pid in ix.idToSlug && Lookup(ix.idToSlug[pid], locale).Some?
    ensures pid in AddRow(ix, row).idToSlug
    ensures Lookup(AddRow(ix, row).idToSlug[pid], locale) == Lookup(ix.idToSlug[pid], locale)
  {
    if row.parameterId == pid && Lookup(ix.idToSlug[pid], LocaleKey(row.locale)).None? {
      AppendedEntryFound(ix.idToSlug[pid], LocaleKey(row.locale), row.slug, locale);
    }
  }

  /** A build step stores the row's slug in an (id, locale) cell that was empty. */
  lemma AddRowStoresSlug(ix: Index, row: IndexRow)
    requires !(row.parameterId in ix.idToSlug && Lookup(ix.idToSlug[row.parameterId], LocaleKey(row.locale)).Some?)
    ensures row.parameterId in AddRow(ix, row).idToSlug
    ensures Lookup(AddRow(ix, row).idToSlug[row.parameterId], LocaleKey(row.locale)) == Some(row.slug)
  {
    var slugs := if row.parameterId in ix.idToSlug then ix.idToSlug[row.parameterId] else [];
    AppendedEntryFound(slugs, LocaleKey(row.locale), row.slug, LocaleKey(row.locale));
  }

  /** `idToSlug[id][locale]` holds the slug of the FIRST row with that id and locale. */
  lemma {:induction false} IdToSlugFirstWins(rows: seq<IndexRow>, j: nat)
    requires j < |rows|
    requires forall i :: 0 <= i < j ==> !SameIdLocale(rows[i], rows[j])
    ensures rows[j].parameterId in IndexOf(rows).idToSlug
    ensures Lookup(IndexOf(rows).idToSlug[rows[j].parameterId], LocaleKey(rows[j].locale)) == Some(rows[j].slug)
    decreases |rows|
  {
    var init := rows[..|rows| - 1];
    if j == |rows| - 1 {
      IdToSlugCells(init, rows[j].parameterId, LocaleKey(rows[j].locale));
      forall i | 0 <= i < |init| ensures !SameIdLocale(init[i], rows[j]) {
        assert init[i] == rows[i];
      }
      AddRowStoresSlug(IndexOf(init), rows[j]);
    } else {
      forall i | 0 <= i < j ensures !SameIdLocale(init[i], init[j]) {
        assert init[i] == rows[i];
      }
      IdToSlugFirstWins(init, j);
      AddRowKeepsSlug(IndexOf(init), rows[|rows| - 1], rows[j].parameterId, LocaleKey(rows[j].locale));
    }
  }

  /** The first entry of `idToSlug[id]` comes from the FIRST row with that id. */
  lemma {:induction false} IdToSlugHeadIsFirstRow(rows: seq<IndexRow>, j: nat)
    requires j < |rows|
    requires forall i :: 0 <= i < j ==> rows[i].parameterId != rows[j].parameterId
    ensures rows[j].parameterId in IndexOf(rows).idToSlug
    ensures IndexOf(rows).idToSlug[rows[j].parameterId] != []
    ensures IndexOf(rows).idToSlug[rows[j].parameterId][0] == (LocaleKey(rows[j].locale), rows[j].slug)
    decreases |rows|
  {
    var init := rows[..|rows| - 1];
    var pid := rows[j].parameterId;
    if j == |rows| - 1 {
      IdToSlugDomain(init, pid, "");
      forall i | 0 <= i < |init| ensures init[i] == rows[i] { }
    } else {
      forall i | 0 <= i < j ensures init[i].parameterId != init[j].parameterId {
        assert init[i] == rows[i];
      }
      IdToSlugHeadIsFirstRow(init, j);
    }
  }

  /** `idToRoute[id]` is `presenter:action` of the LAST row with that id. */
  lemma {:induction false} IdToRouteLastWins(rows: seq<IndexRow>, j: nat)
    requires j < |rows|
    requires forall i :: j < i < |rows| ==> rows[i].parameterId != rows[j].parameterId
    ensures rows[j].parameterId in IndexOf(rows).idToRoute
    ensures IndexOf(rows).idToRoute[rows[j].parameterId] == rows[j].presenter + ":" + rows[j].action
    decreases |rows|
  {
    if j < |rows| - 1 {
      var init := rows[..|rows| - 1];
      forall i | j < i < |init| ensures init[i].parameterId != init[j].parameterId {
        assert init[i] == rows[i];
      }
      IdToRouteLastWins(init, j);
    }
  }

  /** A (slug, locale) cell of `slugToId` is set exactly when some row has that slug and locale. */
  lemma {:induction false} SlugToIdDomain(rows: seq<IndexRow>, slug: string, locale: string)
    ensures (slug in IndexOf(rows).slugToId && locale in IndexOf(rows).slugToId[slug]) <==>
      exists i :: 0 <= i < |rows| && rows[i].slug == slug && LocaleKey(rows[i].locale) == locale
    decreases |rows|
  {
    if rows != [] {
      var init := rows[..|rows| - 1];
      SlugToIdDomain(init, slug, locale);
      forall i | 0 <= i < |init| ensures init[i] == rows[i] { }
    }
  }

  /** `slugToId[slug][locale]` holds the id of the FIRST row with that slug and locale. */
  lemma {:induction false} SlugToIdFirstWins(rows: seq<IndexRow>, j: nat)
    requires j < |rows|
    requires forall i :: 0 <= i < j ==> !SameSlugLocale(rows[i], rows[j])
    ensures rows[j].slug in IndexOf(rows).slugToId
    ensures LocaleKey(rows[j].locale) in IndexOf(rows).slugToId[rows[j].slug]
    ensures IndexOf(rows).slugToId[rows[j].slug][LocaleKey(rows[j].locale)] == rows[j].parameterId
    decreases |rows|
  {
    var init := rows[..|rows| - 1];
    var slug := rows[j].slug;
    var locale := LocaleKey(rows[j].locale);
    if j == |rows| - 1 {
      SlugToIdDomain(init, slug, locale);
      forall i | 0 <= i < |init| ensures init[i] == rows[i] { }
    } else {
      forall i | 0 <= i < j ensures !SameSlugLocale(init[i], init[j]) {
        assert init[i] == rows[i];
      }
      SlugToIdFirstWins(init, j);
    }
  }

  /** Every row's (id, locale) and (slug, locale) cells are set after the build. */
  lemma EveryRowIndexed(rows: seq<IndexRow>, j: nat)
    requires j < |rows|
    ensures rows[j].parameterId in IndexOf(rows).idToSlug
    ensures Lookup(IndexOf(rows).idToSlug[rows[j].parameterId], LocaleKey(rows[j].locale)).Some?
    ensures rows[j].parameterId in IndexOf(rows).idToRoute
    ensures rows[j].slug in IndexOf(rows).slugToId
    ensures LocaleKey(rows[j].locale) in IndexOf(rows).slugToId[rows[j].slug]
  {
    IdToSlugDomain(rows, rows[j].parameterId, LocaleKey(rows[j].locale));
    SlugToIdDomain(rows, rows[j].slug, LocaleKey(rows[j].locale));
  }

  // ----- The cache lifecycle (initCache) --------------------------------------

  /** The process-local maps and the entries of the external cache store. */
  datatype CacheState = CacheState(local: Tables, store: Tables)

  /** The tables a build writes, both to the object and to the store. */
  function BuiltTables(rows: seq<IndexRow>): Tables {
    var ix := IndexOf(rows);
    Tables(Some(ix.idToSlug), Some(ix.idToRoute), Some(ix.slugToId))
  }

  /**
   * What `initCache` does: nothing when `idToSlug` and `slugToId` are both set;
   * otherwise load each of them from the store where present (never `idToRoute`);
   * and only when one of them is still missing, build all three and save them.
   */
  function InitCacheEffect(s: CacheState, rows: seq<IndexRow>): (r: CacheState)
    ensures r.local.idToSlug.Some? && r.local.slugToId.Some?
  {
    if s.local.idToSlug.Some? && s.local.slugToId.Some? then s
    else
      var loaded := Tables(
        if s.store.idToSlug.Some? then s.store.idToSlug else s.local.idToSlug,
        s.local.idToRoute,
        if s.store.slugToId.Some? then s.store.slugToId else s.local.slugToId);
      if loaded.idToSlug.Some? && loaded.slugToId.Some? then CacheState(loaded, s.store)
      else CacheState(BuiltTables(rows), BuiltTables(rows))
  }

  /** With both `idToSlug` and `slugToId` set, `initCache` returns at once: nothing changes. */
  lemma InitCacheEarlyReturn(s: CacheState, rows: seq<IndexRow>)
    requires s.local.idToSlug.Some? && s.local.slugToId.Some?
    ensures InitCacheEffect(s, rows) == s
  {
  }

  /** Once initialised, initialising again (with whatever rows) changes nothing. */
  lemma InitCacheIdempotent(s: CacheState, rows: seq<IndexRow>, rows': seq<IndexRow>)
    ensures InitCacheEffect(InitCacheEffect(s, rows), rows') == InitCacheEffect(s, rows)
  {
  }

  /**
   * When both maps come from the store the index is not rebuilt, the store is not
   * written and `idToRoute` keeps its old value, `null` for a new rewriter.
   */
  lemma StoreLoadKeepsRoute(s: CacheState, rows: seq<IndexRow>)
    requires !(s.local.idToSlug.Some? && s.local.slugToId.Some?)
    requires s.store.idToSlug.Some? && s.store.slugToId.Some?
    ensures InitCacheEffect(s, rows).local.idToRoute == s.local.idToRoute
    ensures InitCacheEffect(s, rows).store == s.store
    ensures InitCacheEffect(s, rows).local.idToSlug == s.store.idToSlug
    ensures InitCacheEffect(s, rows).local.slugToId == s.store.slugToId
  {
  }

  /** A rebuild leaves the object and the store with the same three maps, built from the rows. */
  lemma RebuildWritesStore(s: CacheState, rows: seq<IndexRow>)
    requires !(s.local.idToSlug.Some? && s.local.slugToId.Some?)
    requires (s.store.idToSlug.None? && s.local.idToSlug.None?) || (s.store.slugToId.None? && s.local.slugToId.None?)
    ensures InitCacheEffect(s, rows).local == InitCacheEffect(s, rows).store == BuiltTables(rows)
  {
  }

  // ----- The fast path of rewriteByParameters ---------------------------------

  /** `presenter:action`, the form of `idToRoute`'s values. */
  function PresenterRoute(params: LinkParams): string {
    params.presenter + ":" + params.action
  }

  /** The fast path is taken only for an id whose cached route is the requested one. */
  predicate FastPathApplies(t: Tables, params: LinkParams) {
    && params.id.Some?
    && t.idToSlug.Some? && params.id.value in t.idToSlug.value
    && t.idToRoute.Some? && params.id.value in t.idToRoute.value
    && t.idToRoute.value[params.id.value] == PresenterRoute(params)
  }

  /**
   * The (locale, slug) entry the fast path picks: the one stored for the requested
   * locale if there is one, otherwise the first entry.
   */
  function PreferredEntry(entries: Entries, locale: Option<string>): (r: Option<(string, string)>)
    ensures r.Some? <==> entries != []
    ensures r.Some? ==> r.value in entries
    ensures r.Some? && locale.Some? && Lookup(entries, locale.value).Some? ==> r.value == (locale.value, Lookup(entries, locale.value).value)
    ensures r.Some? && (locale.None? || Lookup(entries, locale.value).None?) ==> r.value == entries[0]
  {
    if entries == [] then None
    else if locale.Some? && Lookup(entries, locale.value).Some? then Some((locale.value, Lookup(entries, locale.value).value))
    else Some(entries[0])
  }

  /** The scan over `idToSlug[id]`: the first entry as a default, an exact locale match overriding it. */
  method PickCachedSlug(entries: Entries, locale: Option<string>) returns (bestMatch: Option<string>, bestMatchLocale: Option<string>)
    ensures entries == [] ==> bestMatch.None? && bestMatchLocale.None?
    ensures entries != [] ==> (bestMatch.Some? && bestMatchLocale.Some? &&
      PreferredEntry(entries, locale) == Some((bestMatchLocale.value, bestMatch.value)))
  {
    bestMatch := None;
    bestMatchLocale := None;
    for i := 0 to |entries|
      invariant i == 0 ==> bestMatch.None? && bestMatchLocale.None?
      invariant i > 0 ==> (bestMatch.Some? && bestMatchLocale.Some? &&
        PreferredEntry(entries[..i], locale) == Some((bestMatchLocale.value, bestMatch.value)))
    {
      var (cacheLocale, cacheSlug) := entries[i];
      assert entries[..i + 1][..i] == entries[..i];
      if bestMatch.None? {
        bestMatch := Some(cacheSlug);
        bestMatchLocale := Some(cacheLocale);
      }
      if locale == Some(cacheLocale) {
        bestMatchLocale := Some(cacheLocale);
        bestMatch := Some(cacheSlug);
      }
    }
    assert entries[..|entries|] == entries;
  }

  /** The match the fast path returns for the entries of the requested id. */
  function FastPathMatch(entries: Entries, params: LinkParams): (r: ParametersMatch)
    requires params.id.Some?
    ensures r.parameters == IdParameters(params.id)
  {
    var best := PreferredEntry(entries, params.locale);
    ParametersMatch(
      if best.Some? then best.value.1 else "",
      if best.Some? then Some(best.value.0) else None,
      map["id" := params.id.value])
  }

  /**
   * Locale preference: with a built index, a request whose locale has a slug for
   * the id gets the slug of the first (highest-priority, newest) such row.
   */
  lemma FastPathPrefersLocale(rows: seq<IndexRow>, params: LinkParams, j: nat)
    requires params.id.Some? && params.locale.Some?
    requires j < |rows| && rows[j].parameterId == params.id.value && LocaleKey(rows[j].locale) == params.locale.value
    requires forall i :: 0 <= i < j ==> !SameIdLocale(rows[i], rows[j])
    ensures params.id.value in IndexOf(rows).idToSlug
    ensures FastPathMatch(IndexOf(rows).idToSlug[params.id.value], params)
      == ParametersMatch(rows[j].slug, params.locale, map["id" := params.id.value])
  {
    IdToSlugFirstWins(rows, j);
  }

  /**
   * Without a slug in the requested locale, the fast path falls back to the first
   * entry: the slug and locale key of the first row with that id.
   */
  lemma FastPathDefaultsToFirstRow(rows: seq<IndexRow>, params: LinkParams, j: nat)
    requires params.id.Some?
    requires j < |rows| && rows[j].parameterId == params.id.value
    requires forall i :: 0 <= i < j ==> rows[i].parameterId != params.id.value
    requires forall i :: 0 <= i < |rows| && rows[i].parameterId == params.id.value ==> params.locale != Some(LocaleKey(rows[i].locale))
    ensures params.id.value in IndexOf(rows).idToSlug
    ensures FastPathMatch(IndexOf(rows).idToSlug[params.id.value], params)
      == ParametersMatch(rows[j].slug, Some(LocaleKey(rows[j].locale)), map["id" := params.id.value])
  {
    IdToSlugHeadIsFirstRow(rows, j);
    if params.locale.Some? {
      IdToSlugDomain(rows, params.id.value, params.locale.value);
    }
  }

  /** A rewriter whose two maps came from the store never takes the fast path. */
  lemma StoreLoadedSkipsFastPath(store: Tables, rows: seq<IndexRow>, params: LinkParams)
    requires store.idToSlug.Some? && store.slugToId.Some?
    ensures !FastPathApplies(InitCacheEffect(CacheState(Tables(None, None, None), store), rows).local, params)
  {
  }

  // ----- The fallback path: findBestMatch ------------------------------------

  /** The candidate's locale is set and equals the requested one. */
  predicate LocaleMatches(row: CandidateRow, locale: Option<string>) {
    row.locale.Some? && locale == row.locale
  }

  /** No candidate of `rows` has the requested locale. */
  predicate NoLocaleMatch(rows: seq<CandidateRow>, locale: Option<string>) {
    forall i :: 0 <= i < |rows| ==> !LocaleMatches(rows[i], locale)
  }

  /** The first candidate whose locale matches, in list order. */
  function FirstLocaleMatch(rows: seq<CandidateRow>, locale: Option<string>): (r: Option<CandidateRow>)
    ensures r.Some? ==> r.value in rows && LocaleMatches(r.value, locale)
    ensures r.Some? ==> exists j :: 0 <= j < |rows| && rows[j] == r.value && NoLocaleMatch(rows[..j], locale)
    ensures r.None? <==> forall i :: 0 <= i < |rows| ==> !LocaleMatches(rows[i], locale)
    decreases |rows|
  {
    if rows == [] then None
    else if LocaleMatches(rows[0], locale) then
      assert rows[0] == rows[0] && NoLocaleMatch(rows[..0], locale);
      Some(rows[0])
    else
      var r := FirstLocaleMatch(rows[1..], locale);
      assert r.Some? ==> exists j :: 0 <= j < |rows| && rows[j] == r.value && NoLocaleMatch(rows[..j], locale) by {
        if r.Some? {
          var j :| 0 <= j < |rows[1..]| && rows[1..][j] == r.value && NoLocaleMatch(rows[1..][..j], locale);
          assert rows[..j + 1] == [rows[0]] + rows[1..][..j];
          assert rows[j + 1] == r.value && NoLocaleMatch(rows[..j + 1], locale);
        }
      }
      r
  }

  /**
   * The candidate `findBestMatch` selects: the first one with a matching locale,
   * otherwise the first one; none for an empty list.
   */
  function BestMatch(rows: seq<CandidateRow>, locale: Option<string>): (r: Option<CandidateRow>)
    ensures r.None? <==> rows == []
    ensures r.Some? ==> r.value in rows
  {
    if FirstLocaleMatch(rows, locale).Some? then FirstLocaleMatch(rows, locale)
    else if rows == [] then None
    else Some(rows[0])
  }

  /** Extending the list at the end keeps an earlier locale match. */
  lemma {:induction false} FirstLocaleMatchAppend(rows: seq<CandidateRow>, row: CandidateRow, locale: Option<string>)
    ensures FirstLocaleMatch(rows + [row], locale) ==
      if FirstLocaleMatch(rows, locale).Some? then FirstLocaleMatch(rows, locale)
      else if LocaleMatches(row, locale) then Some(row) else None
    decreases |rows|
  {
    if rows != [] {
      assert (rows + [row])[1..] == rows[1..] + [row];
      FirstLocaleMatchAppend(rows[1..], row, locale);
    }
  }

  /** The running best score after a prefix of the candidates. */
  function RunningScore(rows: seq<CandidateRow>, locale: Option<string>): int {
    if rows == [] then 0
    else if FirstLocaleMatch(rows, locale).None? then 1
    else if LocaleMatches(rows[0], locale) then 6
    else 5
  }

  /** One candidate more: the score it gets, and the choice and running score after it. */
  lemma ScoringStep(rows: seq<CandidateRow>, row: CandidateRow, locale: Option<string>)
    ensures var score := (if rows == [] then 1 else 0) + (if LocaleMatches(row, locale) then 5 else 0);
      && BestMatch(rows + [row], locale) == (if RunningScore(rows, locale) < score then Some(row) else BestMatch(rows, locale))
      && RunningScore(rows + [row], locale) == (if RunningScore(rows, locale) < score then score else RunningScore(rows, locale))
  {
    FirstLocaleMatchAppend(rows, row, locale);
    if rows != [] {
      assert (rows + [row])[0] == rows[0];
    }
  }

  /** The scoring pass of `findBestMatch`: +1 while nothing is chosen, +5 for a locale match, strict `<`. */
  method FindBestMatch(results: seq<CandidateRow>, locale: Option<string>) returns (topResult: Option<CandidateRow>)
    ensures topResult == BestMatch(results, locale)
  {
    topResult := None;
    var topResultScore := 0;
    for i := 0 to |results|
      invariant topResult == BestMatch(results[..i], locale)
      invariant topResultScore == RunningScore(results[..i], locale)
    {
      var result := results[i];
      var done := results[..i];
      assert results[..i + 1] == done + [result];
      assert topResult.None? <==> done == [];
      ScoringStep(done, result, locale);
      var score := 0;
      if topResult.None? {
        score := score + 1;
      }
      if result.locale.Some? && locale == result.locale {
        score := score + 5;
      }
      assert score == (if done == [] then 1 else 0) + (if LocaleMatches(result, locale) then 5 else 0);
      if topResultScore < score {
        topResult := Some(result);
        topResultScore := score;
      }
    }
    assert results[..|results|] == results;
  }

  /** A locale match beats list order: the first matching candidate wins. */
  lemma {:induction false} LocaleMatchWins(rows: seq<CandidateRow>, locale: Option<string>, j: nat)
    requires j < |rows| && LocaleMatches(rows[j], locale)
    requires forall i :: 0 <= i < j ==> !LocaleMatches(rows[i], locale)
    ensures BestMatch(rows, locale) == Some(rows[j])
    decreases j
  {
    if j > 0 {
      forall i | 0 <= i < j - 1 ensures !LocaleMatches(rows[1..][i], locale) {
        assert rows[1..][i] == rows[i + 1];
      }
      LocaleMatchWins(rows[1..], locale, j - 1);
      assert !LocaleMatches(rows[0], locale);
    }
  }

  /** Without any locale match the first (highest-priority, newest) candidate wins. */
  lemma NoLocaleMatchTakesFirst(rows: seq<CandidateRow>, locale: Option<string>)
    requires rows != []
    requires forall i :: 0 <= i < |rows| ==> !LocaleMatches(rows[i], locale)
    ensures BestMatch(rows, locale) == Some(rows[0])
  {
  }

  /** The result of the fallback path for the selected candidate. */
  function FallbackMatch(best: Option<CandidateRow>): (r: Option<ParametersMatch>)
    ensures r.Some? <==> best.Some?
    ensures r.Some? ==> r.value.slug == best.value.slug && r.value.locale == best.value.locale
    ensures r.Some? ==> r.value.parameters == IdParameters(best.value.parameterId)
  {
    if best.Some? then Some(ParametersMatch(best.value.slug, best.value.locale, IdParameters(best.value.parameterId)))
    else None
  }

  // ----- getPageIdByRoute ----------------------------------------------------

  /** The memo as first filled from the page query: route => id, a later row overriding. */
  function MemoOf(pages: seq<PageRow>): (memo: map<string, Option<string>>)
    ensures memo.Keys == set i | 0 <= i < |pages| :: pages[i].route
    decreases |pages|
  {
    if pages == [] then map[]
    else MemoOf(pages[..|pages| - 1])[pages[|pages| - 1].route := pages[|pages| - 1].id]
  }

  /** The memo has a page id for the route (`isset`: present and not null). */
  predicate MemoHit(memo: map<string, Option<string>>, route: string) {
    route in memo && memo[route].Some?
  }

  /** The page `getPageIdByRoute` provisions: parts 0, 1 and 2 of the route split on `:`. */
  function PageFromRoute(route: string, id: string): (p: Page)
    requires |Explode(route, ':')| >= 3
    ensures p.id == id && p.uris == []
    ensures p.moduleName == Explode(route, ':')[0] && p.presenter == Explode(route, ':')[1] && p.action == Explode(route, ':')[2]
  {
    var parts := Explode(route, ':');
    NewPage(id, Some(parts[0]), parts[1], Some(parts[2]))
  }

  /** The memo after `getPageIdByRoute(route)`, given the memo before it (`None`: not yet filled). */
  function MemoAfter(memo: Option<map<string, Option<string>>>, pages: seq<PageRow>, route: string, freshId: string): (r: map<string, Option<string>>)
    ensures MemoHit(r, route)
  {
    var filled := if memo.Some? then memo.value else MemoOf(pages);
    if MemoHit(filled, route) then filled else filled[route := Some(freshId)]
  }

  /** The route-to-page-id memo of `getPageIdByRoute`, shared by every rewriter as a static is. */
  class RouteMemo {
    var routes: Option<map<string, Option<string>>>

    constructor ()
      ensures routes.None?
    {
      routes := None;
    }

    /**
     * `getPageIdByRoute(route)`: fill the memo from the page query on first use; on
     * a miss provision a page from the route's parts (returned in `created`, to be
     * persisted) and remember its id.
     */
    method PageIdByRoute(route: string, pages: seq<PageRow>, freshId: string) returns (id: string, created: Option<Page>)
      requires |Explode(route, ':')| >= 3
      modifies this
      ensures routes == Some(MemoAfter(old(routes), pages, route, freshId))
      ensures Some(id) == routes.value[route]
      ensures created.Some? <==> !MemoHit(if old(routes).Some? then old(routes).value else MemoOf(pages), route)
      ensures created.Some? ==> created.value == PageFromRoute(route, freshId) && id == freshId
    {
      var memo: map<string, Option<string>>;
      if routes.None? {
        memo := map[];
        for i := 0 to |pages|
          invariant memo == MemoOf(pages[..i])
        {
          assert pages[..i + 1][..i] == pages[..i];
          memo := memo[pages[i].route := pages[i].id];
        }
        assert pages[..|pages|] == pages;
      } else {
        memo := routes.value;
      }
      created := None;
      if !(route in memo && memo[route].Some?) {
        var parts := Explode(route, ':');
        var page := NewPage(freshId, Some(parts[0]), parts[1], Some(parts[2]));
        created := Some(page);
        memo := memo[route := Some(page.id)];
      }
      routes := Some(memo);
      id := memo[route].value;
    }
  }

  /** The memo keeps the id of the LAST page row with a route. */
  lemma {:induction false} MemoOfLastWins(pages: seq<PageRow>, j: nat)
    requires j < |pages|
    requires forall i :: j < i < |pages| ==> pages[i].route != pages[j].route
    ensures pages[j].route in MemoOf(pages) && MemoOf(pages)[pages[j].route] == pages[j].id
    decreases |pages|
  {
    if j < |pages| - 1 {
      var init := pages[..|pages| - 1];
      forall i | j < i < |init| ensures init[i].route != init[j].route {
        assert init[i] == pages[i];
      }
      MemoOfLastWins(init, j);
    }
  }

  /** A hit returns the remembered id and leaves the memo as it was. */
  lemma MemoHitUnchanged(memo: map<string, Option<string>>, pages: seq<PageRow>, route: string, freshId: string)
    requires MemoHit(memo, route)
    ensures MemoAfter(Some(memo), pages, route, freshId) == memo
  {
  }

  /** The route `getPageIdByRoute` is asked for: `Front:presenter:action`. */
  function FrontRoute(presenter: string, action: string): string {
    "Front:" + presenter + ":" + action
  }

  /** The fallback's route `Front:presenter:action` always splits into at least three parts. */
  lemma FrontRouteSplits(presenter: string, action: string)
    ensures |Explode("Front:" + presenter + ":" + action, ':')| >= 3
    ensures Explode("Front:" + presenter + ":" + action, ':')[0] == "Front"
  {
    var rest := presenter + [':'] + action;
    assert "Front:" + presenter + ":" + action == "Front" + [':'] + rest;
    ExplodeAround("Front", rest, ':');
    ExplodeAround(presenter, action, ':');
    ExplodeWithoutSeparator("Front", ':');
  }

  /** A page of module `Front` routes to `Front:presenter:action`. */
  lemma FrontPageRoute(id: string, presenter: string, action: string)
    ensures GetRoute(NewPage(id, Some("Front"), presenter, Some(action))) == FrontRoute(presenter, action)
  {
    var page := NewPage(id, Some("Front"), presenter, Some(action));
    assert GetModule(page) == "Front";
    assert GetRoute(page) == "Front" + ":" + presenter + ":" + action;
  }

  /** `Front:presenter:action` with `:`-free parts splits into its three parts. */
  lemma FrontRouteParts(presenter: string, action: string)
    requires ':' !in presenter && ':' !in action
    ensures Explode(FrontRoute(presenter, action), ':') == ["Front", presenter, action]
  {
    var rest := presenter + [':'] + action;
    assert FrontRoute(presenter, action) == "Front" + [':'] + rest;
    ExplodeWithoutSeparator(presenter, ':');
    ExplodeWithoutSeparator(action, ':');
    ExplodeAround(presenter, action, ':');
    ExplodeWithoutSeparator("Front", ':');
    ExplodeAround("Front", rest, ':');
  }

  /**
   * For a presenter and an action free of `:`, the provisioned page is
   * `Front:presenter:action` and routes back to exactly the memo key.
   */
  lemma ProvisionedPageRoutesBack(presenter: string, action: string, id: string)
    requires ':' !in presenter && ':' !in action
    ensures |Explode(FrontRoute(presenter, action), ':')| >= 3 &&
      PageFromRoute(FrontRoute(presenter, action), id) == NewPage(id, Some("Front"), presenter, Some(action))
    ensures |Explode(FrontRoute(presenter, action), ':')| >= 3 &&
      GetRoute(PageFromRoute(FrontRoute(presenter, action), id)) == FrontRoute(presenter, action)
  {
    FrontRouteParts(presenter, action);
    FrontPageRoute(id, presenter, action);
  }

  /** `Front:m:q:action` with `:`-free parts splits into its four parts. */
  lemma QualifiedRouteParts(m: string, q: string, action: string)
    requires ':' !in m && ':' !in q && ':' !in action
    ensures Explode(FrontRoute(m + ":" + q, action), ':') == ["Front", m, q, action]
  {
    var tail := q + [':'] + action;
    var rest := m + [':'] + tail;
    assert FrontRoute(m + ":" + q, action) == "Front" + [':'] + rest;
    ExplodeWithoutSeparator(q, ':');
    ExplodeWithoutSeparator(action, ':');
    ExplodeAround(q, action, ':');
    assert Explode(tail, ':') == [q, action];
    ExplodeWithoutSeparator(m, ':');
    ExplodeAround(m, tail, ':');
    assert Explode(rest, ':') == [m, q, action];
    ExplodeWithoutSeparator("Front", ':');
    ExplodeAround("Front", rest, ':');
  }

  /**
   * A module-qualified presenter `m:q` splits into one part too many: the page
   * provisioned for `Front:m:q:action` is the page `Front:m:q`.
   */
  lemma QualifiedPresenterProvisionedPage(m: string, q: string, action: string, id: string)
    requires ':' !in m && ':' !in q && ':' !in action
    ensures |Explode(FrontRoute(m + ":" + q, action), ':')| >= 3
    ensures PageFromRoute(FrontRoute(m + ":" + q, action), id) == NewPage(id, Some("Front"), m, Some(q))
    ensures GetRoute(PageFromRoute(FrontRoute(m + ":" + q, action), id)) == FrontRoute(m, q)
  {
    QualifiedRouteParts(m, q, action);
    FrontPageRoute(id, m, q);
  }

  /**
   * ... so the provisioned page's route is not the memo key, and a memo later filled
   * from the page rows misses that key again.
   */
  lemma QualifiedPresenterRouteMismatch(m: string, q: string, action: string, id: string)
    requires ':' !in m && ':' !in q && ':' !in action
    ensures |Explode(FrontRoute(m + ":" + q, action), ':')| >= 3
    ensures GetRoute(PageFromRoute(FrontRoute(m + ":" + q, action), id)) != FrontRoute(m + ":" + q, action)
  {
    QualifiedPresenterProvisionedPage(m, q, action, id);
  }

  // ----- rewriteByPath result shaping ---------------------------------------

  /** The array `rewriteByPath` returns for the found record. */
  function PathMatch(row: PathRow): (r: map<string, Option<string>>)
    ensures r.Keys == {"presenter", "action", "locale"} + (if row.parameterId.Some? then {"id"} else {})
    ensures r["presenter"] == Some(row.moduleName + ":" + row.presenter)
    ensures r["action"] == Some(row.action) && r["locale"] == row.locale
    ensures "id" in r ==> r["id"] == row.parameterId
  {
    var base := map["presenter" := Some(row.moduleName + ":" + row.presenter), "action" := Some(row.action), "locale" := row.locale];
    if row.parameterId.Some? then base["id" := row.parameterId] else base
  }

  /** The path-query row of a Uri and its page. */
  function PathRowOf(u: Uri): PathRow
    reads u
  {
    PathRow(u.locale, u.parameterId, u.page.moduleName, u.page.presenter, u.page.action)
  }

  /**
   * Forward round trip: resolving a Uri's slug gives its page's route (module
   * qualified presenter, then action), its locale, and its parameters.
   */
  lemma PathMatchOfUri(u: Uri)
    requires !IsFalsy(u.page.moduleName)
    ensures PathMatch(PathRowOf(u))["presenter"].value + ":" + PathMatch(PathRowOf(u))["action"].value == u.GetRoute()
    ensures PathMatch(PathRowOf(u))["locale"] == u.locale
    ensures "id" in PathMatch(PathRowOf(u)) <==> "id" in u.GetParameters()
    ensures "id" in PathMatch(PathRowOf(u)) ==> PathMatch(PathRowOf(u))["id"] == Some(u.GetParameters()["id"])
  {
  }

  // ----- The rewriter --------------------------------------------------------

  class DoctrineRewriter {
    var idToSlug: Option<IdToSlug>
    var idToRoute: Option<IdToRoute>
    var slugToId: Option<SlugToId>
    /** The entries `id-to-slug`, `id-to-route`, `slug-to-id` of the cache region. */
    var store: Tables
    const routeMemo: RouteMemo

    constructor (store: Tables, routeMemo: RouteMemo)
      ensures idToSlug.None? && idToRoute.None? && slugToId.None?
      ensures this.store == store && this.routeMemo == routeMemo
    {
      idToSlug, idToRoute, slugToId := None, None, None;
      this.store := store;
      this.routeMemo := routeMemo;
    }

    function Local(): Tables
      reads this
    {
      Tables(idToSlug, idToRoute, slugToId)
    }

    function State(): CacheState
      reads this
    {
      CacheState(Local(), store)
    }

    /** `initCache()`; `rows` is the result of the index query. */
    method InitCache(rows: seq<IndexRow>)
      modifies this
      ensures State() == InitCacheEffect(old(State()), rows)
    {
      if idToSlug.Some? && slugToId.Some? {
        return;
      }
      if store.idToSlug.Some? {
        idToSlug := store.idToSlug;
      }
      if store.slugToId.Some? {
        slugToId := store.slugToId;
      }
      if idToSlug.Some? && slugToId.Some? {
        return;
      }
      var ix := BuildIndex(rows);
      store := Tables(Some(ix.idToSlug), store.idToRoute, store.slugToId);
      idToSlug := Some(ix.idToSlug);
      store := Tables(store.idToSlug, Some(ix.idToRoute), store.slugToId);
      idToRoute := Some(ix.idToRoute);
      store := Tables(store.idToSlug, store.idToRoute, Some(ix.slugToId));
      slugToId := Some(ix.slugToId);
    }

    /**
     * `rewriteByPath(path)`: `found` is the result of the path query for `path`;
     * its first row, if any, is shaped into the result.
     */
    method RewriteByPath(rows: seq<IndexRow>, found: seq<PathRow>) returns (r: Option<map<string, Option<string>>>)
      modifies this
      ensures State() == InitCacheEffect(old(State()), rows)
      ensures found == [] ==> r.None?
      ensures found != [] ==> r == Some(PathMatch(found[0]))
    {
      InitCache(rows);
      if found == [] {
        return None;
      }
      r := Some(PathMatch(found[0]));
    }

    /**
     * `rewriteByParameters(params)`: the fast path over the cached index, else the
     * fallback: the page id of `Front:presenter:action` (provisioning the page on a
     * miss; `provisioned` is the page to persist), the candidates the fallback query
     * `candidates(pageId, id)` returns, and the best of them.
     */
    method RewriteByParameters(params: LinkParams, rows: seq<IndexRow>, pages: seq<PageRow>, freshPageId: string,
                               candidates: (string, Option<string>) -> seq<CandidateRow>)
      returns (r: Option<ParametersMatch>, provisioned: Option<Page>)
      modifies this, routeMemo
      ensures State() == InitCacheEffect(old(State()), rows)
      ensures FastPathApplies(Local(), params) ==>
        && routeMemo.routes == old(routeMemo.routes)
        && provisioned.None?
        && r == Some(FastPathMatch(idToSlug.value[params.id.value], params))
      ensures !FastPathApplies(Local(), params) ==>
        var route := "Front:" + PresenterRoute(params);
        var memo := MemoAfter(old(routeMemo.routes), pages, route, freshPageId);
        && routeMemo.routes == Some(memo)
        && r == FallbackMatch(BestMatch(candidates(memo[route].value, params.id), params.locale))
      ensures !FastPathApplies(Local(), params) ==>
        var route := "Front:" + PresenterRoute(params);
        var filled := if old(routeMemo.routes).Some? then old(routeMemo.routes).value else MemoOf(pages);
        && (provisioned.Some? <==> !MemoHit(filled, route))
        && (provisioned.Some? ==> |Explode(route, ':')| >= 3 && provisioned.value == PageFromRoute(route, freshPageId))
    {
      InitCache(rows);
      var locale := params.locale;
      var route := params.presenter + ":" + params.action;
      if params.id.Some? && idToSlug.Some? && params.id.value in idToSlug.value
        && idToRoute.Some? && params.id.value in idToRoute.value && idToRoute.value[params.id.value] == route
      {
        var bestMatch, bestMatchLocale := PickCachedSlug(idToSlug.value[params.id.value], locale);
        return Some(ParametersMatch(bestMatch.GetOr(""), bestMatchLocale, map["id" := params.id.value])), None;
      }
      FrontRouteSplits(params.presenter, params.action);
      assert "Front:" + route == "Front:" + params.presenter + ":" + params.action;
      var pageId, created := routeMemo.PageIdByRoute("Front:" + route, pages, freshPageId);
      provisioned := created;
      var best := FindBestMatch(candidates(pageId, params.id), locale);
      if best.Some? {
        r := Some(ParametersMatch(best.value.slug, best.value.locale, IdParameters(best.value.parameterId)));
      } else {
        r := None;
      }
    }
  }
}
