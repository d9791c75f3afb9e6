/**
 * The project-level views of thinkcesite/urls.py: the `robots.txt` response
 * and the static-view sitemap.
 */
module SiteUrls {
  import opened Wrappers
  import opened Strings
  import opened Urls

  /** A plain HTTP response: body and `Content-Type`. */
  datatype TextResponse = TextResponse(content: string, contentType: string)

  /** `request.scheme + "://" + request.get_host()`. */
  function Origin(scheme: string, host: string): string {
    scheme + "://" + host
  }

  /**
   * `robots_txt`: every crawler may fetch everything, and the sitemap lives
   * at `/sitemap.xml` on the requesting origin; served as `text/plain`.
   */
  function RobotsTxt(scheme: string, host: string): (r: TextResponse)
    ensures r.contentType == "text/plain"
    ensures r.content == "User-agent: *\nDisallow:\nSitemap: " + Origin(scheme, host) + "/sitemap.xml"
  {
    TextResponse("User-agent: *\nDisallow:\n" + "Sitemap: " + Origin(scheme, host) + "/sitemap.xml", "text/plain")
  }

  /**
   * Read line by line, the body is exactly three directives, the last naming
   * the sitemap's address (for a scheme and host without line breaks).
   */
  lemma RobotsLines(scheme: string, host: string)
    requires '\n' !in scheme && '\n' !in host
    ensures Split(RobotsTxt(scheme, host).content, '\n')
         == ["User-agent: *", "Disallow:", "Sitemap: " + Origin(scheme, host) + "/sitemap.xml"]
  {
    var head, rule := "User-agent: *", "Disallow:";
    var last := "Sitemap: " + Origin(scheme, host) + "/sitemap.xml";
    RobotsPieces();
    assert '\n' !in last by {
      assert '\n' !in Origin(scheme, host);
    }
    assert RobotsTxt(scheme, host).content == head + ['\n'] + rule + ['\n'] + last;
    SplitThree(head, rule, last, '\n');
  }

  /** Helper: the fixed pieces of the body hold no line break, and the first two lines join as written. */
  lemma RobotsPieces()
    ensures '\n' !in "User-agent: *" && '\n' !in "Disallow:"
    ensures '\n' !in "Sitemap: " && '\n' !in "://" && '\n' !in "/sitemap.xml"
    ensures "User-agent: *\nDisallow:\nSitemap: " == "User-agent: *" + ['\n'] + "Disallow:" + ['\n'] + "Sitemap: "
  {
  }

  /** The path the `Sitemap:` line points at is the sitemap view's route. */
  lemma RobotsPointsAtSitemap()
    ensures Resolve("/sitemap.xml").Some? && Resolve("/sitemap.xml").value.name == Some(SITEMAP_NAME)
    ensures Reverse(SITEMAP_NAME) == Some("/sitemap.xml")
  {
    SiteRoutesDistinct();
    assert SITE_ROUTES[7] == Route("sitemap.xml", Some(SITEMAP_NAME));
    assert "/sitemap.xml" == "/" + SITE_ROUTES[7].route;
    var j := FindRoute(SITE_ROUTES, "sitemap.xml").value;
    assert j == 7;
    ReverseOfResolve(SITE_ROUTES, "/sitemap.xml");
  }

  /** `StaticViewSitemap.items()`. */
  const SITEMAP_ITEMS: seq<string> := ["home", "about", "services", "companies", "contact", "appointment"]

  /** `StaticViewSitemap.changefreq`, the same for every item. */
  const SITEMAP_CHANGEFREQ := "daily"

  /** One `<url>` of the sitemap: absolute location and change frequency. */
  datatype SitemapUrl = SitemapUrl(location: string, changefreq: string)

  /** `StaticViewSitemap.location(item)`: `reverse(item)`. */
  function Location(item: string): Option<string> {
    Reverse(item)
  }

  /** `name` is the name of one of the main routes. */
  predicate IsMainRouteName(name: string) {
    exists i :: 0 <= i < |MAIN_ROUTES| && MAIN_ROUTES[i].name == Some(name)
  }

  /** Every sitemap item is a named main route; `subscribe` is not an item. */
  lemma SitemapItemsAreRoutes()
    ensures forall k :: 0 <= k < |SITEMAP_ITEMS| ==> IsMainRouteName(SITEMAP_ITEMS[k])
    ensures "subscribe" !in SITEMAP_ITEMS
  {
    assert MAIN_ROUTES[0].name == Some("home") && MAIN_ROUTES[1].name == Some("about");
    assert MAIN_ROUTES[2].name == Some("services") && MAIN_ROUTES[3].name == Some("companies");
    assert MAIN_ROUTES[5].name == Some("contact") && MAIN_ROUTES[4].name == Some("appointment");
    assert IsMainRouteName("home") && IsMainRouteName("about") && IsMainRouteName("services");
    assert IsMainRouteName("companies") && IsMainRouteName("contact") && IsMainRouteName("appointment");
    assert forall k :: 0 <= k < |SITEMAP_ITEMS| ==> SITEMAP_ITEMS[k] != "subscribe";
  }

  /**
   * Each item's location is its route's path, which resolves back to the
   * item; so every location exists.
   */
  lemma SitemapLocations(k: nat)
    requires k < |SITEMAP_ITEMS|
    ensures Location(SITEMAP_ITEMS[k]).Some?
    ensures Resolve(Location(SITEMAP_ITEMS[k]).value).Some?
    ensures Resolve(Location(SITEMAP_ITEMS[k]).value).value.name == Some(SITEMAP_ITEMS[k])
  {
    SitemapItemsAreRoutes();
    var i :| 0 <= i < |MAIN_ROUTES| && MAIN_ROUTES[i].name == Some(SITEMAP_ITEMS[k]);
    MainRoutesRoundTrip(i);
  }

  lemma AllLocations()
    ensures forall k :: 0 <= k < |SITEMAP_ITEMS| ==> Location(SITEMAP_ITEMS[k]).Some?
  {
    forall k | 0 <= k < |SITEMAP_ITEMS| ensures Location(SITEMAP_ITEMS[k]).Some? {
      SitemapLocations(k);
    }
  }

  /**
   * The sitemap's URLs for a site served at `protocol://domain`: one per
   * item, in item order, each at the item's location and `daily`.
   */
  function SitemapUrls(protocol: string, domain: string): (r: seq<SitemapUrl>)
    ensures |r| == |SITEMAP_ITEMS|
    ensures forall k :: 0 <= k < |r| ==> r[k].changefreq == SITEMAP_CHANGEFREQ
    ensures forall k :: 0 <= k < |r| ==>
      Location(SITEMAP_ITEMS[k]).Some? && r[k].location == protocol + "://" + domain + Location(SITEMAP_ITEMS[k]).value
  {
    AllLocations();
    seq(|SITEMAP_ITEMS|, k requires 0 <= k < |SITEMAP_ITEMS| =>
      SitemapUrl(protocol + "://" + domain + Location(SITEMAP_ITEMS[k]).value, SITEMAP_CHANGEFREQ))
  }
}
