/**
 * The entity lifecycle: an entity starts with a name only and becomes loaded
 * once it holds its Wikipedia page. Loading fetches the page at most once and
 * checks the page's infobox against the one the entity class declares.
 *
 * Fetching is a parameter: a `Wiki` maps a title to the page it finds, if any.
 * A page is reduced to what the lifecycle reads from it: its title and the
 * name of its infobox (none when the page has no infobox).
 */
module Entities {
  import opened Outcome

  datatype Page = Page(title: string, infobox: Option<string>)

  type Wiki = string -> Option<Page>

  /**
   * Why a load fails. Reading the infobox name of a missing page or of a page
   * without an infobox raises NoMethodError; a declared infobox name that the
   * page does not carry raises EntityTypeError.
   */
  datatype LoadError =
    | NoPage(name: string)
    | NoInfobox(title: string)
    | TypeMismatch(expected: string, actual: string)

  /** The check `load!` runs on a freshly fetched page, before keeping it. */
  function CheckPage(expected: Option<string>, name: string, fetched: Option<Page>): (r: Result<Page, LoadError>)
    ensures r.Ok? ==> fetched == Some(r.value) && r.value.infobox.Some?
    ensures r.Ok? ==> expected.None? || r.value.infobox == expected
    ensures r.Err? && r.error.TypeMismatch? <==>
              fetched.Some? && fetched.value.infobox.Some? && expected.Some? && fetched.value.infobox != expected
  {
    match fetched
    case None => Err(NoPage(name))
    case Some(page) =>
      match page.infobox
      case None => Err(NoInfobox(page.title))
      case Some(actual) =>
        if expected.Some? && actual != expected.value then Err(TypeMismatch(expected.value, actual))
        else Ok(page)
  }

  /**
   * `load!` on the held page: a held page is returned as it is; otherwise the
   * page fetched for `name` is checked and kept only if the check passes.
   * Gives the page held afterwards and the outcome.
   */
  function LoadStep(expected: Option<string>, name: string, held: Option<Page>, wiki: Wiki): (r: (Option<Page>, Result<Page, LoadError>))
    ensures held.Some? ==> r == (held, Ok(held.value))
    ensures r.1.Ok? ==> r.0 == Some(r.1.value)
    ensures r.1.Err? ==> held.None? && r.0.None?
  {
    if held.Some? then (held, Ok(held.value))
    else
      var r := CheckPage(expected, name, wiki(name));
      (if r.Ok? then Some(r.value) else None, r)
  }

  /**
   * `Entity.load`: nothing for a missing page or a page with a different
   * infobox, the page for a new loaded entity otherwise; a page without an
   * infobox raises.
   */
  function ClassLoad(expected: Option<string>, name: string, wiki: Wiki): (r: Result<Option<Page>, LoadError>)
    ensures r.Ok? && r.value.Some? ==>
              wiki(name) == r.value && r.value.value.infobox.Some? &&
              (expected.None? || r.value.value.infobox == expected)
    ensures r.Err? ==> wiki(name).Some? && r.error == NoInfobox(wiki(name).value.title)
  {
    match wiki(name)
    case None => Ok(None)
    case Some(page) =>
      match page.infobox
      case None => Err(NoInfobox(page.title))
      case Some(actual) =>
        if expected.None? || actual == expected.value then Ok(Some(page)) else Ok(None)
  }

  /** An entity class, holding the infobox name its pages are expected to carry. */
  class EntityKind {
    var infoboxName: Option<string>

    constructor()
      ensures infoboxName.None?
    {
      infoboxName := None;
    }

    /** `infobox_name`: with no argument reads the declared name; with one declares it. */
    method InfoboxName(name: Option<string>) returns (r: Option<string>)
      modifies this
      ensures name.None? ==> infoboxName == old(infoboxName) && r == infoboxName
      ensures name.Some? ==> infoboxName == name && r == name
    {
      if name.Some? {
        infoboxName := name;
      }
      r := infoboxName;
    }

    /** `Entity.load`: a new entity already holding its page, or null, or the error raised. */
    method Load(name: string, wiki: Wiki) returns (e: Entity?, err: Option<LoadError>)
      ensures ClassLoad(infoboxName, name, wiki).Err? <==> err.Some?
      ensures err.Some? ==> err.value == ClassLoad(infoboxName, name, wiki).error && e == null
      ensures ClassLoad(infoboxName, name, wiki) == Ok(None) ==> e == null
      ensures ClassLoad(infoboxName, name, wiki).Ok? && ClassLoad(infoboxName, name, wiki).value.Some? ==>
                e != null && fresh(e) && e.kind == this && e.givenName == name &&
                e.page == ClassLoad(infoboxName, name, wiki).value
    ensures e != null ==> e.Loaded()
    {
      var fetched := wiki(name);
      if fetched.None? {
        return null, None;
      }
      var page := fetched.value;
      if page.infobox.None? {
        return null, Some(NoInfobox(page.title));
      }
      var expected := infoboxName;
      if expected.None? || page.infobox.value == expected.value {
        e := new Entity(this, name, Some(page));
        err := None;
      } else {
        e, err := null, None;
      }
    }
  }

  class Entity {
    const kind: EntityKind
    const givenName: string
    var page: Option<Page>

    constructor(kind: EntityKind, name: string, page: Option<Page>)
      ensures this.kind == kind && givenName == name && this.page == page
    {
      this.kind := kind;
      givenName := name;
      this.page := page;
    }

    /** `loaded?`: a page is held. */
    predicate Loaded()
      reads this
    {
      page.Some?
    }

    /** `name`: the held page's title once loaded, the name given at construction before. */
    function Name(): (n: string)
      reads this
      ensures Loaded() ==> n == page.value.title
      ensures !Loaded() ==> n == givenName
    {
      if page.Some? then page.value.title else givenName
    }

    /** `load!`: keeps the page fetched for the entity's name once it passes the infobox check. */
    method Load(wiki: Wiki) returns (r: Result<Page, LoadError>)
      modifies this
      ensures (page, r) == LoadStep(kind.infoboxName, old(Name()), old(page), wiki)
      ensures r.Ok? ==> Loaded() && page == Some(r.value) && Name() == r.value.title
      ensures r.Err? ==> page == old(page) == None
    ensures Loaded() <==> r.Ok?
    {
      if page.Some? {
        return Ok(page.value);
      }
      r := CheckPage(kind.infoboxName, givenName, wiki(givenName));
      if r.Ok? {
        page := Some(r.value);
      }
    }

    /** `wikipedia_page`: loads, then gives the held page. */
    method WikipediaPage(wiki: Wiki) returns (r: Result<Page, LoadError>)
      modifies this
      ensures (page, r) == LoadStep(kind.infoboxName, old(Name()), old(page), wiki)
      ensures r.Ok? ==> page == Some(r.value)
    {
      r := Load(wiki);
    }
  }
}

module EntityProperties {
  import opened Outcome
  import opened Entities

  /**
   * `load!` is idempotent: once a page is held, loading again returns the
   * same page and keeps it, whatever the wiki would now return.
   */
  lemma LoadIsIdempotent(expected: Option<string>, name: string, held: Option<Page>, wiki: Wiki, later: Wiki)
    ensures var (h1, r1) := LoadStep(expected, name, held, wiki);
            r1.Ok? ==> LoadStep(expected, name, h1, later) == (h1, r1)
  {
  }

  /**
   * `load!` raises EntityTypeError exactly when a declared infobox name
   * differs from the fetched page's, and then the entity stays unloaded.
   */
  lemma MismatchLeavesUnloaded(expected: Option<string>, name: string, wiki: Wiki)
    ensures var (h, r) := LoadStep(expected, name, None, wiki);
            (r.Err? && r.error.TypeMismatch? <==>
               wiki(name).Some? && wiki(name).value.infobox.Some? && expected.Some? &&
               wiki(name).value.infobox != expected) &&
            (r.Err? ==> h.None?)
  {
  }

  /** A successful load holds exactly the fetched page, whose infobox is the declared one when one is declared. */
  lemma LoadKeepsFetchedPage(expected: Option<string>, name: string, wiki: Wiki)
    ensures var (h, r) := LoadStep(expected, name, None, wiki);
            r.Ok? ==> h == wiki(name) == Some(r.value) && (expected.None? || r.value.infobox == expected)
  {
  }

  /**
   * `Entity.load` gives an entity exactly when `load!` on a new unloaded
   * entity of that name would succeed, and that entity holds the same page.
   */
  lemma ClassLoadAgreesWithLoad(expected: Option<string>, name: string, wiki: Wiki)
    ensures var (h, r) := LoadStep(expected, name, None, wiki);
            (ClassLoad(expected, name, wiki).Ok? && ClassLoad(expected, name, wiki).value.Some? <==> r.Ok?) &&
            (r.Ok? ==> ClassLoad(expected, name, wiki) == Ok(h))
  {
  }

  /**
   * `Entity.load` gives nothing exactly for a missing page or an infobox
   * other than the declared one, and raises only for a page with no infobox.
   */
  lemma ClassLoadNothingIff(expected: Option<string>, name: string, wiki: Wiki)
    ensures ClassLoad(expected, name, wiki) == Ok(None) <==>
              wiki(name).None? ||
              (wiki(name).value.infobox.Some? && expected.Some? && wiki(name).value.infobox != expected)
    ensures ClassLoad(expected, name, wiki).Err? <==> wiki(name).Some? && wiki(name).value.infobox.None?
  {
  }
}
