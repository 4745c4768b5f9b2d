# doctrine-router, modelled in Dafny

This project models the slug-resolution core of the Doctrine router for Nette.
`DoctrineRewriter` answers two questions:

- Which route and parameters does an incoming path stand for (`rewriteByPath`)?
- Which slug should an outgoing link `presenter:action` with an optional `id` and
  `locale` use (`rewriteByParameters`)?

To answer the second one fast, `initCache` builds and caches three maps:

- `idToSlug`: parameter id => locale => slug, first record wins.
- `idToRoute`: parameter id => `presenter:action`, last record wins.
- `slugToId`: slug => locale => parameter id, first record wins.

When the fast path does not apply, the fallback looks up (and if needed creates) the
page of `Front:presenter:action` (`getPageIdByRoute`), fetches the page's candidate
URIs and scores them (`findBestMatch`). The model also covers:

- the `Page` and `Uri` entities: defaults, route strings, the priority clamp, slug
  normalisation and rendering, the parameter map and the redirect/canonical flags;
- the SEO-score parser `Helpers::parseSeoScoreFromString`.

Files (one module each):

- `wrappers.dfy` (`Wrappers`): `Option` (PHP `null`) and `Result` (a thrown
  exception).
- `php_strings.dfy` (`PhpStrings`): the PHP built-ins the code relies on:
  - `explode` and `implode`, with their round trips;
  - `trim` with PHP's default character list, and `ltrim`;
  - the character classes of `[a-zA-Z]` and `\d`.
- `page.dfy` (`PageEntity`): `Page` is a value. Its fields are only set by the
  constructor.
- `uri.dfy` (`UriEntity`): `Uri` is a class. Its setters update fields in place.
- `helpers.dfy` (`Helpers`): the SEO-score parser.
  - The parser is a method with the source's two loops.
  - It is proved equal to a fold (`CollectScores`) and a projection (`Project`).
  - The parser's properties are proved about these two.
- `rewriter.dfy` (`Rewriter`): the index build, the cache lifecycle, the fast path,
  the scorer, the route memo and the `DoctrineRewriter` class.
  - Every loop of the source is a method with invariants.
  - Each method is proved against a function (`BuildIndex` against `IndexOf`,
    `FindBestMatch` against `BestMatch`, `PickCachedSlug` against `PreferredEntry`).
  - Lemmas state the first-wins and last-wins rules and the locale preference.

How the PHP runtime is represented:

- A PHP array that is iterated in order (`idToSlug[id]`, locale => slug) is a
  sequence of pairs. Arrays that are only indexed are Dafny maps.
- Each Doctrine query result is a parameter: a sequence of rows, in the order
  the query returns them.
  - The index query (DoctrineRewriter.php:275-286) and the fallback query
    (DoctrineRewriter.php:115-125) arrive filtered and sorted by priority, then
    insertion date, both descending.
  - The path query (DoctrineRewriter.php:52-61) has no ORDER BY. It filters on the
    slug and `active`, and yields at most one row because the slug is unique.
  - The page query of `getPageIdByRoute` (DoctrineRewriter.php:202-207) has neither
    WHERE nor ORDER BY, so its rows come in database order. `MemoOfLastWins` holds
    for whatever order that is.
  - The fallback query depends on the page id found on the way, so it is a function
    parameter `candidates(pageId, id)`.
- The Nette cache region is the `store` field: three optional maps.
- The `static` memo of `getPageIdByRoute` is the `RouteMemo` object. Every rewriter
  holds it by reference, as every instance shares the PHP static.
  - The id of a page created on a miss is the `freshPageId` parameter.
  - The created page is returned in `created` / `provisioned` for the caller to
    persist.
- `Strings::webalize` is the function parameter `webalize`.
- The current time for `insertedDate` is the parameter `now`.

Where the code's behaviour is subtler than a plain reading, the model follows the
code:

- **Stored routes are never reloaded.** `initCache` saves `id-to-route` to the store
  but never loads it. When both other maps come from the store, `idToRoute` stays
  `null` and the fast path is skipped (`StoreLoadKeepsRoute`,
  `StoreLoadedSkipsFastPath`).
- **Null locales differ between the paths.** The fast path reports the locale key of
  the chosen entry, so a record with a `null` locale comes back as `''`. The
  fallback returns the record's own locale, `null`.
- **Falsy modules.** `getModule` uses `?:`, so a stored module `"0"` is replaced by
  `Front` too, not only `""`.
- **Trailing line feed.** The factor pattern `/^([a-zA-Z]+):(\d+)$/` has no `D`
  modifier, so `$` also matches before one final line feed. The model accepts
  `T:34\n`.
- **Score overflow.** `(int)` of a digit string too large for an integer reads it as
  a double. On a 64-bit build a finite double past `PHP_INT_MAX` is capped at
  9223372036854775807. From 2^1024 - 2^970 up (about 1.8 × 10^308) the double is
  infinite and `(int)` gives 0. The model does the same (`LargeScoreSaturates`,
  `OverflowingScoreIsZero`). The stored column holds at most 50 characters, but
  the parser is a public method over any string.
- **Raw module by path.** `rewriteByPath` joins the page's stored module as it is
  (DoctrineRewriter.php:68), while `getRoute` replaces a falsy module by `Front`.
  A page whose module is `""` therefore resolves by path to `:Presenter`. This is
  why `PathMatchOfUri` requires a truthy module.
- **Index asymmetry kept.** `idToRoute` keeps the last record while the other two
  maps keep the first. This is preserved as written (`IdToRouteLastWins` next to
  `IdToSlugFirstWins`).
- **Module-qualified presenters.** The fallback splits `Front:presenter:action` on
  every `:`. For a presenter `Admin:Default` and action `show`, the page it
  provisions is `Front:Admin:Default`. That page's route is not the memo key
  `Front:Admin:Default:show`, so a memo filled later from the page rows misses the
  key again (`QualifiedPresenterProvisionedPage`, `QualifiedPresenterRouteMismatch`).

## Model

| member | source | states |
|---|---|---|
| PhpStrings.Explode | src/Helpers.php:26 | `explode` yields at least one piece and no piece contains the separator |
| PhpStrings.ImplodeExplode | src/Helpers.php:26 | joining the pieces of `explode` with the separator gives back the input |
| PhpStrings.ExplodeAround | src/DoctrineRewriter.php:215 | a separator splits a string into the pieces of its left side followed by those of its right side |
| PhpStrings.ExplodeImplode | src/DoctrineRewriter.php:215 | pieces free of the separator survive `explode(implode(..))` unchanged |
| PhpStrings.ExplodeTrailingSeparator | src/Helpers.php:26 | a trailing separator adds exactly one empty piece |
| PhpStrings.TrimLeft | src/Entity/Uri.php:182 | `ltrim`: the result is a suffix of the input, does not start with a stripped character, and only stripped characters were removed |
| PhpStrings.TrimRight | src/Entity/Uri.php:166 | `rtrim`: the result is a prefix of the input, does not end with a stripped character, and only stripped characters were removed |
| PhpStrings.Trim | src/Entity/Uri.php:166 | `trim`: the result neither starts nor ends with whitespace |
| PageEntity.NewPage | src/Entity/Page.php:48-54 | a null module becomes `Front`, a null action `default`, the presenter is kept and the URI collection is empty |
| PageEntity.IsFalsy | src/Entity/Page.php:74 | PHP truthiness of a string as `?:` tests it: `""` and `"0"` are falsy (predicate, used by `GetModule`) |
| PageEntity.GetModule | src/Entity/Page.php:72-75 | the module is never falsy: the stored one when truthy, `Front` otherwise |
| PageEntity.GetPresenter | src/Entity/Page.php:78-83 | with the module it is `getModule():presenter`, without it the bare presenter |
| PageEntity.GetPresenterRoute | src/Entity/Page.php:66-69 | `getPresenter(false):action` |
| PageEntity.GetRoute | src/Entity/Page.php:60-63 | the route is `getModule():getPresenterRoute()`, equivalently `getPresenter(true):action` |
| PageEntity.NewPageDefaultRoute | src/Entity/Page.php:48-63 | a page built without module and action routes to `Front:<presenter>:default` |
| PageEntity.RouteSplitsIntoParts | src/Entity/Page.php:60-63 | for parts free of `:`, splitting the route on `:` gives back module, presenter and action |
| UriEntity.ClampPriority | src/Entity/Uri.php:459-469 | the stored priority lies in [0, 32767], equals the input when in range, 0 below and 32767 above |
| UriEntity.ClampPriorityIdempotent | src/Entity/Uri.php:459-469 | clamping an already clamped priority changes nothing |
| UriEntity.NormalizeSlug | src/Entity/Uri.php:180-183 | the stored slug is a suffix of the webalized slug and never starts with `.` or `/` |
| UriEntity.IdParameters | src/Entity/Uri.php:210-217 | the parameter map has key `id` exactly when a parameter id is set, with that value, and no other key |
| UriEntity.RenderSlug | src/Entity/Uri.php:164-167 | the rendering is `/` when the trimmed slug is empty and the trimmed slug otherwise, so never empty |
| UriEntity.Uri.constructor | src/Entity/Uri.php:151-157 | a new Uri is active, two-way, on the sitemap, priority 0, no noIndex/noFollow/keepTitle, no parameter id and no score, with the given page and locale and the normalised slug |
| UriEntity.Uri.ToString | src/Entity/Uri.php:164-167 | `__toString` is never empty and renders the stored slug |
| UriEntity.Uri.GetRoute | src/Entity/Uri.php:186-189 | a Uri's route is its page's `Module:Presenter:action` |
| UriEntity.Uri.GetParameters | src/Entity/Uri.php:210-217 | `{id: parameterId}` when set, the empty map otherwise |
| UriEntity.Uri.IsRedirect | src/Entity/Uri.php:256-259 | a Uri is a redirect exactly when it is one-way |
| UriEntity.Uri.IsCanonical | src/Entity/Uri.php:262-265 | a Uri is canonical exactly when it is not one-way |
| UriEntity.RedirectXorCanonical | src/Entity/Uri.php:256-265 | exactly one of redirect and canonical holds |
| UriEntity.Uri.SetSlug | src/Entity/Uri.php:180-183 | only the slug changes, to the normalised slug, and it does not start with `.` or `/` |
| UriEntity.Uri.SetPage | src/Entity/Uri.php:201-204 | only the page changes |
| UriEntity.Uri.SetParameterId | src/Entity/Uri.php:226-229 | only the parameter id changes |
| UriEntity.Uri.SetActive | src/Entity/Uri.php:238-241 | only the active flag changes |
| UriEntity.Uri.SetOneWay | src/Entity/Uri.php:250-253 | only the one-way flag changes |
| UriEntity.Uri.SetOnSitemap | src/Entity/Uri.php:274-277 | only the sitemap flag changes |
| UriEntity.Uri.SetLocale | src/Entity/Uri.php:286-289 | only the locale changes |
| UriEntity.Uri.SetKeepTitle | src/Entity/Uri.php:331-334 | only the keep-title flag changes |
| UriEntity.Uri.SetNoIndex | src/Entity/Uri.php:432-435 | only the noIndex flag changes |
| UriEntity.Uri.SetNoFollow | src/Entity/Uri.php:444-447 | only the noFollow flag changes |
| UriEntity.Uri.SetSeoScore | src/Entity/Uri.php:478-481 | only the stored score string changes |
| UriEntity.Uri.SetPriority | src/Entity/Uri.php:459-469 | only the priority changes, to the input clamped into [0, 32767], and the entity invariant is kept |
| UriEntity.Uri.Valid | src/Entity/Uri.php:459-469 | the entity invariant: the priority lies in [0, 32767] as `setPriority` clamps it, and the stored slug does not start with `.` or `/` as the `ltrim` at Uri.php:182 ensures (predicate, kept by the constructor and every setter) |
| UriEntity.Uri.GetSeoScoreFormatted | src/Entity/Uri.php:487-490 | the formatted score is the parse of the stored score string |
| Helpers.IntCast | src/Helpers.php:31 | `(int)` of digits is their value when it is at most `PHP_INT_MAX`; a larger value read as a finite double is capped at `PHP_INT_MAX`; from 2^1024 - 2^970 up, where the double is infinite, it is 0 |
| Helpers.OverflowingScoreIsZero | src/Helpers.php:30-31 | a factor whose digits exceed the double range scores 0 |
| Helpers.LargeScoreSaturates | src/Helpers.php:30-31 | a factor whose digits exceed `PHP_INT_MAX` but stay within the double range scores `PHP_INT_MAX` |
| Helpers.ParseFactor | src/Helpers.php:30-31 | a segment that matches has a non-empty letter code, the part before its first `:`, and a score of at most `PHP_INT_MAX` |
| Helpers.ParseFactorMatchesShape | src/Helpers.php:30-31 | a segment matches exactly when it is `letters:digits`, optionally followed by one line feed, and then it yields the letters and `(int)` of the digits |
| Helpers.FactorShape | src/Helpers.php:30 | the strings `/^([a-zA-Z]+):(\d+)$/` accepts, stated independently of the parser: a non-empty letter name, `:`, non-empty digits, and at most one final line feed (predicate) |
| Helpers.StripFinalLineFeed | src/Helpers.php:30 | how `$` without the `D` modifier ends the digits: a string ending in a line feed loses exactly that one character; any other string is kept as it is |
| Helpers.MatchHasShape | src/Helpers.php:30-31 | every segment the pattern accepts is a name, a colon and digits, with at most one final line feed |
| Helpers.ShapedFactorParses | src/Helpers.php:30-31 | a segment of factor shape yields exactly its name and `(int)` of its digits |
| Helpers.ShapeSplitsAtColon | src/Helpers.php:30 | in a segment of that shape the first `:` ends the letters, and the digits follow it, less one final line feed |
| Helpers.LeadingZerosAccepted | src/Helpers.php:30-31 | `T:007` matches and scores 7 |
| Helpers.FinalLineFeedAccepted | src/Helpers.php:30-31 | `T:5` followed by one line feed matches and scores 5 |
| Helpers.SecondLineFeedRejected | src/Helpers.php:30 | `T:5` followed by two line feeds does not match |
| Helpers.Absorb | src/Helpers.php:27-34 | one segment of the loop: after a throw nothing changes; otherwise it throws exactly for a non-empty segment that does not match, naming that segment |
| Helpers.CollectScores | src/Helpers.php:26-35 | every code the loop collects is a non-empty run of letters, with a score of at most `PHP_INT_MAX` |
| Helpers.ScoreOf | src/Helpers.php:40 | `$score[$key] ?? 0`: the parsed score when the code was given, else 0 |
| Helpers.Project | src/Helpers.php:38-43 | exactly the six codes T, DG, I, F, A, R, in that order, each with its parsed score or 0 |
| Helpers.ParseSeoScore | src/Helpers.php:22-44 | a successful parse has exactly the six canonical keys in canonical order |
| Helpers.ParseSeoScoreFromString | src/Helpers.php:22-44 | the two loops compute the fold-and-project specification, including the exception for the first bad segment |
| Helpers.FailureIsFinal | src/Helpers.php:30-34 | after the first malformed segment throws, later segments do not matter |
| Helpers.EmptySegmentSkipped | src/Helpers.php:27-29 | an empty segment anywhere leaves the outcome unchanged |
| Helpers.NullOrEmptyIsAllZero | src/Helpers.php:25-41 | a null and an empty score string both give all six factors as 0 |
| Helpers.DoubledSeparatorSkipped | src/Helpers.php:26-29 | `a||b` parses exactly like `a|b` |
| Helpers.TrailingSeparatorSkipped | src/Helpers.php:26-29 | `a|` parses exactly like `a` |
| Helpers.CollectFailsOnMalformed | src/Helpers.php:30-34 | parsing fails exactly when some non-empty segment does not match, and the error names the first such segment |
| Helpers.WellFormedNeverFails | src/Helpers.php:26-35 | a string whose segments are all empty or well formed never throws |
| Helpers.MissingColonRejected | src/Helpers.php:30-34 | `T-34` throws the format error naming `T-34` |
| Helpers.DigitsBeforeColonRejected | src/Helpers.php:30-34 | `34:T` throws the format error naming `34:T` |
| Helpers.DigitsBeforeColonUnmatched | src/Helpers.php:30 | the pattern does not match `34:T` |
| Helpers.PresentIffCarried | src/Helpers.php:26-35 | after a successful parse a code has a score exactly when some segment carries it |
| Helpers.AbsorbKeys | src/Helpers.php:31 | one parsed segment adds its own code and no other |
| Helpers.LastOccurrenceWins | src/Helpers.php:31 | a repeated factor takes the value of its last occurrence |
| Helpers.UnknownFactorDropped | src/Helpers.php:39-41 | a code outside the canonical six does not change the result |
| Helpers.ParseFormattedFactor | src/Helpers.php:30-31 | a segment `Code:digits` written from a letter code and a score parses back to them |
| Helpers.CollectFormattedSegments | src/Helpers.php:26-35 | parsing the segments of formatted scores rebuilds their map |
| Helpers.ParseFormatRoundTrip | src/Helpers.php:22-44 | parsing the `|`-joined canonical scores gives them back |
| Rewriter.LocaleKey | src/DoctrineRewriter.php:292 | the index key of a locale is the locale itself, or `''` for null |
| Rewriter.Lookup | src/DoctrineRewriter.php:98-107 | the slug found for a locale key is one of the entries, and nothing is found exactly when no entry has that key |
| Rewriter.AddRow | src/DoctrineRewriter.php:292-308 | one record sets `idToRoute[id]` to its `presenter:action` (last wins), and it fills the (slug, locale) cell of `slugToId` only when that cell is empty (first wins); its `idToSlug` effect is stated by `AddRowIdCells`, `AddRowKeepsSlug` and `AddRowStoresSlug` |
| Rewriter.IndexOf | src/DoctrineRewriter.php:288-309 | the index is the fold of `AddRow` over the records in order; its contents are stated by the lemmas below |
| Rewriter.BuildIndex | src/DoctrineRewriter.php:288-309 | the build loop computes the index fold `IndexOf` of the rows |
| Rewriter.AppendedEntryFound | src/DoctrineRewriter.php:297-299 | a slug added under a new locale key is found for that key, and other keys are unaffected |
| Rewriter.AddRowIdCells | src/DoctrineRewriter.php:294-300 | one record adds its id to both `idToSlug` and `idToRoute`, and sets exactly its own (id, locale) cell |
| Rewriter.IdToSlugDomain | src/DoctrineRewriter.php:291-300 | `idToSlug` and `idToRoute` have exactly the records' ids, every id has a slug, and an (id, locale) cell is set exactly when a record has both |
| Rewriter.IdToSlugIds | src/DoctrineRewriter.php:291-300 | the ids of `idToSlug` are exactly the records' ids, `idToRoute` has the same ids, and no id has an empty slug list |
| Rewriter.IdToSlugCells | src/DoctrineRewriter.php:292-300 | an (id, locale) cell of `idToSlug` is set exactly when some record has that id and locale |
| Rewriter.AddRowKeepsSlug | src/DoctrineRewriter.php:297-299 | a later record never overwrites a stored slug |
| Rewriter.AddRowStoresSlug | src/DoctrineRewriter.php:297-299 | a record stores its slug in an empty (id, locale) cell |
| Rewriter.IdToSlugFirstWins | src/DoctrineRewriter.php:291-299 | `idToSlug[id][locale]` is the slug of the first record with that id and locale (null locale as `''`) |
| Rewriter.IdToSlugHeadIsFirstRow | src/DoctrineRewriter.php:291-299 | the first entry of `idToSlug[id]` comes from the first record with that id |
| Rewriter.IdToRouteLastWins | src/DoctrineRewriter.php:300 | `idToRoute[id]` is `presenter:action` of the last record with that id |
| Rewriter.SlugToIdDomain | src/DoctrineRewriter.php:302-308 | a (slug, locale) cell of `slugToId` is set exactly when a record has that slug and locale |
| Rewriter.SlugToIdFirstWins | src/DoctrineRewriter.php:302-308 | `slugToId[slug][locale]` is the id of the first record with that slug and locale |
| Rewriter.EveryRowIndexed | src/DoctrineRewriter.php:291-308 | every record's keys appear in `idToSlug`, `idToRoute` and `slugToId` |
| Rewriter.InitCacheEffect | src/DoctrineRewriter.php:260-320 | after `initCache` both `idToSlug` and `slugToId` are set |
| Rewriter.BuiltTables | src/DoctrineRewriter.php:311-319 | the three maps saved after a rebuild are those of `IndexOf` over the records (definition; `RebuildWritesStore` states where they go) |
| Rewriter.InitCacheEarlyReturn | src/DoctrineRewriter.php:262-264 | with both `idToSlug` and `slugToId` set, `initCache` returns at once and the state is unchanged |
| Rewriter.InitCacheIdempotent | src/DoctrineRewriter.php:262-264 | a second `initCache`, over any rows, changes nothing |
| Rewriter.StoreLoadKeepsRoute | src/DoctrineRewriter.php:265-273 | when both maps load from the store, the store is not written and `idToRoute` keeps its old value |
| Rewriter.RebuildWritesStore | src/DoctrineRewriter.php:271-319 | a rebuild, caused by `idToSlug` or by `slugToId` missing from both the object and the store, leaves the object and the store with the same three maps, built from the rows |
| Rewriter.PreferredEntry | src/DoctrineRewriter.php:96-107 | the fast path picks nothing only for no entries, else an entry: the one for the requested locale if stored, otherwise the first |
| Rewriter.PickCachedSlug | src/DoctrineRewriter.php:96-107 | the scan with a default and an override computes `PreferredEntry` |
| Rewriter.FastPathApplies | src/DoctrineRewriter.php:95 | the fast-path condition: an id is given, `idToSlug` and `idToRoute` both have it, and its cached route is the requested `presenter:action` (predicate) |
| Rewriter.PresenterRoute | src/DoctrineRewriter.php:92 | `$route`: the requested presenter and action joined by `:` (definition, compared in `FastPathApplies`) |
| Rewriter.FastPathMatch | src/DoctrineRewriter.php:109-111 | the fast-path parameters are exactly `{id}` |
| Rewriter.FastPathPrefersLocale | src/DoctrineRewriter.php:95-111 | a requested locale with a record gets the slug of the first record with that id and locale |
| Rewriter.FastPathDefaultsToFirstRow | src/DoctrineRewriter.php:95-111 | without a slug in the requested locale, the slug and locale key of the first record with that id are returned |
| Rewriter.StoreLoadedSkipsFastPath | src/DoctrineRewriter.php:265-273 | a new rewriter whose two maps come from the store never takes the fast path |
| Rewriter.LocaleMatches | src/DoctrineRewriter.php:241 | the +5 condition: the candidate's locale is non-null and equals the requested one (predicate) |
| Rewriter.FirstLocaleMatch | src/DoctrineRewriter.php:241 | a candidate with a non-null locale equal to the requested one, at a position where no earlier candidate matches; none exactly when no candidate matches |
| Rewriter.BestMatch | src/DoctrineRewriter.php:232-251 | no match exactly for an empty candidate list, otherwise a member of the list |
| Rewriter.FindBestMatch | src/DoctrineRewriter.php:232-251 | the scoring loop computes `BestMatch` |
| Rewriter.ScoringStep | src/DoctrineRewriter.php:236-247 | one more candidate scores 1 when none is chosen yet plus 5 for a locale match, and replaces the choice and the running score exactly when it beats the running score |
| Rewriter.RunningScore | src/DoctrineRewriter.php:235-247 | `$topResultScore` after a prefix of the candidates: 0 for none, 1 without a locale match, 6 when the first candidate matches, 5 when a later one does (the loop invariant of `FindBestMatch`) |
| Rewriter.LocaleMatchWins | src/DoctrineRewriter.php:238-247 | the first candidate with a matching locale wins, whatever precedes it |
| Rewriter.NoLocaleMatchTakesFirst | src/DoctrineRewriter.php:237-246 | with no locale match the first candidate wins |
| Rewriter.FallbackMatch | src/DoctrineRewriter.php:133-141 | the fallback result has the candidate's slug and locale, with `{id}` exactly when it has a parameter id |
| Rewriter.PageFromRoute | src/DoctrineRewriter.php:215 | the provisioned page takes module, presenter and action from parts 0, 1 and 2 of the route split on `:`, and has no URIs |
| Rewriter.MemoOf | src/DoctrineRewriter.php:209-211 | the memo filled from the page rows has exactly their routes as keys |
| Rewriter.MemoHit | src/DoctrineRewriter.php:213 | `isset($cache[$route])`: the route is present with a non-null id (predicate) |
| Rewriter.MemoAfter | src/DoctrineRewriter.php:199-221 | after a lookup the route has a page id in the memo |
| Rewriter.RouteMemo.constructor | src/DoctrineRewriter.php:197 | the memo starts unfilled |
| Rewriter.RouteMemo.PageIdByRoute | src/DoctrineRewriter.php:195-222 | the memo is filled on first use; a hit returns the remembered id and creates nothing; a miss creates the page from the route with the fresh id and remembers it |
| Rewriter.MemoOfLastWins | src/DoctrineRewriter.php:209-211 | the memo filled from the page rows keeps the id of the last row with each route |
| Rewriter.MemoHitUnchanged | src/DoctrineRewriter.php:213-221 | a hit leaves the memo as it was |
| Rewriter.FrontRouteSplits | src/DoctrineRewriter.php:122 | `Front:presenter:action` always has at least three parts, the first being `Front` |
| Rewriter.QualifiedRouteParts | src/DoctrineRewriter.php:215 | `Front:m:q:action` with `:`-free parts splits into four parts |
| Rewriter.QualifiedPresenterProvisionedPage | src/DoctrineRewriter.php:213-218 | for a module-qualified presenter `m:q`, the provisioned page has module `Front`, presenter `m` and action `q`, so its route is `Front:m:q` |
| Rewriter.QualifiedPresenterRouteMismatch | src/DoctrineRewriter.php:205-218 | the route of that page is never the memo key `Front:m:q:action` |
| Rewriter.ProvisionedPageRoutesBack | src/DoctrineRewriter.php:213-218 | for a presenter and an action free of `:`, the page created for `Front:presenter:action` is exactly that page and its route is the memo key |
| Rewriter.FrontRouteParts | src/DoctrineRewriter.php:122 | `Front:presenter:action` with `:`-free parts explodes into exactly those three parts |
| Rewriter.FrontRoute | src/DoctrineRewriter.php:122 | the route `getPageIdByRoute` is asked for, `Front:` followed by `$route` (definition; `FrontRouteParts` gives its split) |
| Rewriter.PathMatch | src/DoctrineRewriter.php:67-77 | the result has presenter `module:presenter`, the action and the locale, and `id` exactly when the parameter id is set |
| Rewriter.PathRowOf | src/DoctrineRewriter.php:52-61 | the partial row the path query selects: the Uri's locale and parameter id, and its page's raw module, presenter and action (definition) |
| Rewriter.PathMatchOfUri | src/DoctrineRewriter.php:67-77 | for a Uri whose page has a truthy module, the path result's `presenter:action` is the Uri's route, and its `id` agrees with the Uri's parameters |
| Rewriter.DoctrineRewriter.constructor | src/DoctrineRewriter.php:38-42 | a new rewriter has no maps loaded and uses the given store |
| Rewriter.DoctrineRewriter.InitCache | src/DoctrineRewriter.php:260-320 | the object's maps and the store change exactly as `InitCacheEffect` says |
| Rewriter.DoctrineRewriter.RewriteByPath | src/DoctrineRewriter.php:48-78 | the cache is initialised; there is no result without a record, else the first record shaped by `PathMatch` |
| Rewriter.DoctrineRewriter.RewriteByParameters | src/DoctrineRewriter.php:88-144 | the cache is initialised; when the fast path applies, the memo is untouched and the result is `FastPathMatch`; otherwise the memo holds the page of `Front:presenter:action`, the result is the best candidate of that page, and a page is provisioned exactly when the memo missed that route, namely the one built from the route's parts with the fresh id |

## Left out

- Doctrine query building and execution: each query result is an input sequence,
  in the order the database returns it. SQL, ORDER BY and the ORM are not modelled.
- The Nette cache's 30-minute expiry and `clearCache`: the store is three optional
  maps, and time-based expiry is outside the model.
- `persist`/`flush` and UUID generation for a provisioned page: the id is the
  `freshPageId` parameter and the page is returned to the caller.
- The race between concurrent first requests filling the static memo: concurrency
  is not modelled.
- `getMetaData`: it is a query plus `Translation` formatting, both foreign calls.
- The `Translation`-based meta and OG getters and setters of `Uri`, with
  `strip_tags` and the `#NO_DATA#` marker: foreign localisation and HTML calls.
- The plain getters of `Uri` and `Page` (`getSlug`, `getPage`, `getUris`, ...): they
  are field reads.
- `DateTime::from('now')`: the insertion time is a parameter. It matters only through
  the order of the sorted queries.
- UriEntity.Uri.SetActive, UriEntity.Uri.SetOneWay, UriEntity.Uri.SetOnSitemap: the PHP
  parameter defaults to `true`, and Dafny has no default arguments, so the call
  without an argument is written `SetActive(true)` and likewise for the other two.
- `Strings::webalize`: the function parameter `webalize`. Only the `ltrim` of
  `.` and `/` after it is modelled.
- PHP array-key coercion, which turns numeric-string ids and locales into integer
  keys: ids and locales are compared as strings.
- src/DoctrineRouterExtension.php, the Nette DI wiring: it contains no routing
  behaviour.
- The SQL `CONCAT` of a page row with a null column: route strings of page rows are
  taken as given.
