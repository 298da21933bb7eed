/**
 * `generateHATEOASLinks`: the navigation links of a paginated response.
 * A link is its base path and its query parameters; the percent-encoding
 * of `url.Values.Encode` that turns them into one string is not modelled.
 */
module Hateoas {
  import opened Wrappers
  import opened Decimal

  /** `url.Values`: each parameter name with its values, in order. */
  type Query = map<string, seq<string>>

  datatype Link = Link(basePath: string, query: Query)

  /** The parameters every link sets itself. */
  predicate Reserved(key: string) {
    key == "page" || key == "links"
  }

  /** The link names a response can carry. */
  const LinkNames: set<string> := {"self", "first", "last", "prev", "next"}

  /**
   * `buildURL(targetPage)`: the original parameters other than `page` and
   * `links` (a parameter with no values is dropped, as `url.Values.Add` is
   * never called for it), then `page` set to the target and `links` to "true".
   */
  function BuildLink(basePath: string, query: Query, target: int): (l: Link)
    ensures l.basePath == basePath
    ensures "page" in l.query && l.query["page"] == [Itoa(target)]
    ensures "links" in l.query && l.query["links"] == ["true"]
    ensures forall k :: !Reserved(k) ==> (k in l.query <==> k in query && query[k] != [])
    ensures forall k :: !Reserved(k) && k in l.query ==> l.query[k] == query[k]
  {
    var kept := map k | k in query && !Reserved(k) && query[k] != [] :: query[k];
    Link(basePath, kept["page" := [Itoa(target)]]["links" := ["true"]])
  }

  /** The page a link points at, read back from its `page` parameter. */
  function Target(l: Link): Option<int> {
    if "page" in l.query && |l.query["page"]| == 1 then ParseInt(l.query["page"][0]) else None
  }

  /** Each built link points at the page it was built for. */
  lemma BuildLinkTarget(basePath: string, query: Query, target: int)
    ensures Target(BuildLink(basePath, query, target)) == Some(target)
  {
    ItoaRoundTrip(target);
  }

  /**
   * The page each link of `generateHATEOASLinks` points at: `self` the
   * current page and `first` page 1 always, `last` the last page when there
   * is one, `prev` and `next` the neighbouring pages when they exist.
   */
  function Targets(page: int, totalPages: int): (t: map<string, int>)
    ensures t.Keys <= LinkNames
    ensures "self" in t && t["self"] == page
    ensures "first" in t && t["first"] == 1
    ensures "last" in t <==> totalPages > 0
    ensures "last" in t ==> t["last"] == totalPages
    ensures "prev" in t <==> page > 1
    ensures "prev" in t ==> t["prev"] == page - 1
    ensures "next" in t <==> page < totalPages
    ensures "next" in t ==> t["next"] == page + 1
  {
    var t := map["self" := page, "first" := 1];
    var t := if totalPages > 0 then t["last" := totalPages] else t;
    var t := if page > 1 then t["prev" := page - 1] else t;
    if page < totalPages then t["next" := page + 1] else t
  }

  /** `generateHATEOASLinks(basePath, query, page, limit, totalPages)`; `limit` is accepted and not used. */
  function GenerateLinks(basePath: string, query: Query, page: int, limit: int, totalPages: int): (links: map<string, Link>)
    ensures links.Keys == Targets(page, totalPages).Keys
    ensures forall name :: name in links ==> links[name] == BuildLink(basePath, query, Targets(page, totalPages)[name])
  {
    var t := Targets(page, totalPages);
    map name | name in t :: BuildLink(basePath, query, t[name])
  }

  /** Every link points at the page `Targets` names for it. */
  lemma LinkTargets(basePath: string, query: Query, page: int, limit: int, totalPages: int)
    ensures var links := GenerateLinks(basePath, query, page, limit, totalPages);
      forall name :: name in links ==> Target(links[name]) == Some(Targets(page, totalPages)[name])
  {
    var links := GenerateLinks(basePath, query, page, limit, totalPages);
    forall name | name in links
      ensures Target(links[name]) == Some(Targets(page, totalPages)[name])
    {
      BuildLinkTarget(basePath, query, Targets(page, totalPages)[name]);
    }
  }

  /** On a page within range every target is a page within range. */
  lemma TargetsInRange(page: int, totalPages: int)
    requires 1 <= page <= totalPages
    ensures forall name :: name in Targets(page, totalPages) ==> 1 <= Targets(page, totalPages)[name] <= totalPages
  {
  }

  /** On a page within range every link points at a page within range. */
  lemma LinksStayInRange(basePath: string, query: Query, page: int, limit: int, totalPages: int)
    requires 1 <= page <= totalPages
    ensures var links := GenerateLinks(basePath, query, page, limit, totalPages);
      forall name :: name in links ==>
        Target(links[name]).Some? && 1 <= Target(links[name]).value <= totalPages
  {
    var links := GenerateLinks(basePath, query, page, limit, totalPages);
    var t := Targets(page, totalPages);
    LinkTargets(basePath, query, page, limit, totalPages);
    TargetsInRange(page, totalPages);
    forall name | name in links
      ensures Target(links[name]).Some? && 1 <= Target(links[name]).value <= totalPages
    {
      assert name in t;
      assert Target(links[name]) == Some(t[name]);
    }
  }

  /** The first page has no previous link; on the last page there is no next link and `last` is `self`. */
  lemma EdgePages(basePath: string, query: Query, limit: int, totalPages: int)
    requires totalPages >= 1
    ensures "prev" !in GenerateLinks(basePath, query, 1, limit, totalPages)
    ensures var links := GenerateLinks(basePath, query, totalPages, limit, totalPages);
      "next" !in links && links["last"] == links["self"]
  {
  }

  /** Two links built from the same query differ only in where they point. */
  lemma LinksShareParameters(basePath: string, query: Query, a: int, b: int)
    ensures var la, lb := BuildLink(basePath, query, a), BuildLink(basePath, query, b);
      && la.query.Keys == lb.query.Keys
      && (forall k :: k in la.query && k != "page" ==> la.query[k] == lb.query[k])
      && (la == lb <==> a == b)
  {
    var la, lb := BuildLink(basePath, query, a), BuildLink(basePath, query, b);
    if la == lb {
      ItoaInjective(a, b);
    }
  }
}
