/**
 * The `Page` entity: one logical destination `Module:Presenter:action`.
 * Its fields are set once, by the constructor, so the entity is a value here.
 */
module PageEntity {
  import opened Wrappers
  import opened PhpStrings

  const DefaultModule: string := "Front"
  const DefaultAction: string := "default"

  /**
   * A page row. `uris` stands for the page's collection of `Uri` records,
   * given by their identifiers.
   */
  datatype Page = Page(id: string, moduleName: string, presenter: string, action: string, uris: seq<string>)

  /** PHP's truthiness for strings: `""` and `"0"` are false. */
  predicate IsFalsy(s: string) {
    s == "" || s == "0"
  }

  /** `new Page(module, presenter, action)` with the page identifier the caller assigns. */
  function NewPage(id: string, moduleName: Option<string>, presenter: string, action: Option<string>): (p: Page)
    ensures p.id == id && p.presenter == presenter && p.uris == []
    ensures moduleName.None? ==> p.moduleName == DefaultModule
    ensures moduleName.Some? ==> p.moduleName == moduleName.value
    ensures action.None? ==> p.action == DefaultAction
    ensures action.Some? ==> p.action == action.value
  {
    Page(id, moduleName.GetOr(DefaultModule), presenter, action.GetOr(DefaultAction), [])
  }

  /** `getModule()`: the stored module, or `Front` when it is falsy; never falsy itself. */
  function GetModule(p: Page): (m: string)
    ensures !IsFalsy(m)
    ensures !IsFalsy(p.moduleName) ==> m == p.moduleName
    ensures IsFalsy(p.moduleName) ==> m == DefaultModule
  {
    if IsFalsy(p.moduleName) then DefaultModule else p.moduleName
  }

  /** `getPresenter(withModule)`: the presenter, prefixed by the module when asked. */
  function GetPresenter(p: Page, withModule: bool): (r: string)
    ensures withModule ==> r == GetModule(p) + ":" + p.presenter
    ensures !withModule ==> r == p.presenter
  {
    if withModule then GetModule(p) + ":" + p.presenter else p.presenter
  }

  /** `getPresenterRoute()`: `Presenter:action`. */
  function GetPresenterRoute(p: Page): (r: string)
    ensures r == GetPresenter(p, false) + ":" + p.action
  {
    p.presenter + ":" + p.action
  }

  /** `getRoute()`: the absolute route `Module:Presenter:action`. */
  function GetRoute(p: Page): (r: string)
    ensures r == GetModule(p) + ":" + GetPresenterRoute(p)
    ensures r == GetPresenter(p, true) + ":" + p.action
  {
    GetModule(p) + ":" + p.presenter + ":" + p.action
  }

  /** A page built without module and action routes to `Front:<presenter>:default`. */
  lemma NewPageDefaultRoute(id: string, presenter: string)
    ensures GetRoute(NewPage(id, None, presenter, None)) == "Front:" + presenter + ":default"
  {
  }

  /**
   * When no part contains `:`, splitting a page's route on `:` gives back its
   * module, presenter and action.
   */
  lemma RouteSplitsIntoParts(p: Page)
    requires ':' !in GetModule(p) && ':' !in p.presenter && ':' !in p.action
    ensures Explode(GetRoute(p), ':') == [GetModule(p), p.presenter, p.action]
  {
    var parts := [GetModule(p), p.presenter, p.action];
    assert Implode(parts[2..], ':') == p.action;
    assert Implode(parts[1..], ':') == p.presenter + ":" + p.action;
    assert Implode(parts, ':') == GetRoute(p);
    ExplodeImplode(parts, ':');
  }
}
