/**
 * The `Uri` entity: one resolvable slug of a page. Its setters change fields in
 * place, so it is a class; the getters that compute something are functions
 * reading it.
 */
module UriEntity {
  import opened Wrappers
  import opened PhpStrings
  import opened PageEntity
  import Helpers

  /** `Uri::MAX_PRIORITY`, the upper end of the `smallint` column. */
  const MaxPriority: int := 32767

  /** The characters `setSlug` strips from the front of the normalised slug. */
  const SlugLeadingStrip: set<char> := {'.', '/'}

  /** The priority `setPriority` stores: the value clamped into [0, MaxPriority]. */
  function ClampPriority(p: int): (r: int)
    ensures 0 <= r <= MaxPriority
    ensures 0 <= p <= MaxPriority ==> r == p
    ensures p < 0 ==> r == 0
    ensures p > MaxPriority ==> r == MaxPriority
  {
    if p < 0 then 0 else if p > MaxPriority then MaxPriority else p
  }

  /** Clamping twice is clamping once. */
  lemma ClampPriorityIdempotent(p: int)
    ensures ClampPriority(ClampPriority(p)) == ClampPriority(p)
  {
  }

  /**
   * The slug `setSlug` stores: the normalised slug without leading `.` and `/`.
   * `webalize` stands for `Strings::webalize(slug, './')`, a library call.
   */
  function NormalizeSlug(slug: string, webalize: string -> string): (r: string)
    ensures r == [] || (r[0] != '.' && r[0] != '/')
    ensures |r| <= |webalize(slug)| && r == webalize(slug)[|webalize(slug)| - |r|..]
  {
    TrimLeft(webalize(slug), SlugLeadingStrip)
  }

  /** The route parameters of a record: `{id: parameterId}`, or none without a parameter id. */
  function IdParameters(parameterId: Option<string>): (r: map<string, string>)
    ensures "id" in r <==> parameterId.Some?
    ensures r.Keys <= {"id"}
    ensures parameterId.Some? ==> r["id"] == parameterId.value
  {
    if parameterId.Some? then map["id" := parameterId.value] else map[]
  }

  /** `__toString()` of a slug: the trimmed slug, or `/` for the empty (home page) slug. */
  function RenderSlug(slug: string): (r: string)
    ensures r != []
    ensures Trim(slug) == [] ==> r == "/"
    ensures Trim(slug) != [] ==> r == Trim(slug)
  {
    var trimmed := Trim(slug);
    if trimmed == "" then "/" else trimmed
  }

  class Uri {
    var slug: string
    var page: Page
    var parameterId: Option<string>
    var active: bool
    var oneWay: bool
    var onSitemap: bool
    var locale: Option<string>
    /** The insertion time, as the timestamp the caller supplies. */
    var insertedDate: int
    var keepTitle: bool
    var noIndex: bool
    var noFollow: bool
    var priority: int
    var seoScore: Option<string>

    /** The entity's invariants: the priority is clamped, the slug stored normalised. */
    ghost predicate Valid()
      reads this
    {
      0 <= priority <= MaxPriority && (slug == [] || slug[0] !in SlugLeadingStrip)
    }

    /** `new Uri(page, slug, locale)`, with the insertion time as a parameter. */
    constructor (page: Page, slug: string, locale: string, now: int, webalize: string -> string)
      ensures Valid()
      ensures this.page == page && this.slug == NormalizeSlug(slug, webalize)
      ensures this.locale == Some(locale) && insertedDate == now
      ensures active && !oneWay && onSitemap
      ensures priority == 0 && !noIndex && !noFollow && !keepTitle
      ensures parameterId.None? && seoScore.None?
    {
      this.page := page;
      this.slug := NormalizeSlug(slug, webalize);
      this.locale := Some(locale);
      insertedDate := now;
      parameterId := None;
      active := true;
      oneWay := false;
      onSitemap := true;
      keepTitle := false;
      noIndex := false;
      noFollow := false;
      priority := 0;
      seoScore := None;
    }

    /** `__toString()`. */
    function ToString(): (r: string)
      reads this
      ensures r != []
      ensures r == RenderSlug(slug)
    {
      RenderSlug(slug)
    }

    /** `getRoute()`: the route of the owning page. */
    function GetRoute(): (r: string)
      reads this
      ensures r == GetModule(page) + ":" + page.presenter + ":" + page.action
    {
      PageEntity.GetRoute(page)
    }

    /** `getParameters()`. */
    function GetParameters(): (r: map<string, string>)
      reads this
      ensures r == IdParameters(parameterId)
    {
      IdParameters(parameterId)
    }

    /** `isRedirect()`: a one-way URI only matches incoming requests. */
    function IsRedirect(): (r: bool)
      reads this
      ensures r <==> oneWay
    {
      oneWay
    }

    /** `isCanonical()`: a URI that may also be offered as an outgoing link. */
    function IsCanonical(): (r: bool)
      reads this
      ensures r <==> !oneWay
    {
      !oneWay
    }

    method SetSlug(slug: string, webalize: string -> string)
      requires Valid()
      modifies this`slug
      ensures Valid() && this.slug == NormalizeSlug(slug, webalize)
    {
      this.slug := NormalizeSlug(slug, webalize);
    }

    method SetPage(page: Page)
      modifies this`page
      ensures this.page == page
    {
      this.page := page;
    }

    method SetParameterId(parameterId: Option<string>)
      modifies this`parameterId
      ensures this.parameterId == parameterId
    {
      this.parameterId := parameterId;
    }

    method SetActive(active: bool)
      modifies this`active
      ensures this.active == active
    {
      this.active := active;
    }

    method SetOneWay(oneWay: bool)
      modifies this`oneWay
      ensures this.oneWay == oneWay
    {
      this.oneWay := oneWay;
    }

    method SetOnSitemap(onSitemap: bool)
      modifies this`onSitemap
      ensures this.onSitemap == onSitemap
    {
      this.onSitemap := onSitemap;
    }

    method SetLocale(locale: string)
      modifies this`locale
      ensures this.locale == Some(locale)
    {
      this.locale := Some(locale);
    }

    method SetKeepTitle(keepTitle: bool)
      modifies this`keepTitle
      ensures this.keepTitle == keepTitle
    {
      this.keepTitle := keepTitle;
    }

    method SetNoIndex(noIndex: bool)
      modifies this`noIndex
      ensures this.noIndex == noIndex
    {
      this.noIndex := noIndex;
    }

    method SetNoFollow(noFollow: bool)
      modifies this`noFollow
      ensures this.noFollow == noFollow
    {
      this.noFollow := noFollow;
    }

    method SetSeoScore(seoScore: Option<string>)
      modifies this`seoScore
      ensures this.seoScore == seoScore
    {
      this.seoScore := seoScore;
    }

    /** `setPriority(p)`: clamp into [0, MaxPriority] by reassignment, then store. */
    method SetPriority(p: int)
      requires Valid()
      modifies this`priority
      ensures Valid() && priority == ClampPriority(p)
    {
      var clamped := p;
      if clamped < 0 {
        clamped := 0;
      }
      if clamped > MaxPriority {
        clamped := MaxPriority;
      }
      priority := clamped;
    }

    /** `getSeoScoreFormatted()`: the stored score parsed and projected. */
    method GetSeoScoreFormatted() returns (r: Result<Helpers.Scores, Helpers.ParseError>)
      ensures r == Helpers.ParseSeoScore(seoScore)
    {
      r := Helpers.ParseSeoScoreFromString(seoScore);
    }
  }

  /** Exactly one of `isRedirect` and `isCanonical` holds. */
  lemma RedirectXorCanonical(u: Uri)
    ensures u.IsRedirect() != u.IsCanonical()
  {
  }
}
