/**
 * The `seo_settings` context processor (main/context_processors.py): the
 * four values every template receives.
 */
module ContextProcessors {
  import opened Wrappers
  import opened Models
  import opened Store
  import Urls

  /** The context dictionary: exactly the keys `seo`, `site_config`, `social_networks`, `stats`. */
  datatype Context = Context(
    seo: Option<SEOPageSettings>,
    siteConfig: Option<SiteConfiguration>,
    socialNetworks: seq<SocialNetwork>,
    stats: seq<Stat>)

  /** `SEOPageSettings.objects.filter(page=name).first()`: the matching row with the lowest key. */
  function FirstSeoFor(rows: seq<SEOPageSettings>, name: string): (r: Option<SEOPageSettings>)
    ensures r.Some? ==> r.value.page == name
    ensures r.Some? ==> exists i :: (0 <= i < |rows| && rows[i] == r.value
                                     && forall k :: 0 <= k < i ==> rows[k].page != name)
    ensures r.None? <==> forall k :: 0 <= k < |rows| ==> rows[k].page != name
  {
    if rows == [] then None
    else if rows[0].page == name then Some(rows[0])
    else
      var r := FirstSeoFor(rows[1..], name);
      if r.Some? then
        var i :| 0 <= i < |rows[1..]| && rows[1..][i] == r.value
                 && forall k :: 0 <= k < i ==> rows[1..][k].page != name;
        assert rows[i + 1] == r.value;
        r
      else r
  }

  /** m is a key of the set and no key is smaller. */
  predicate IsLeast(m: nat, keys: set<nat>) {
    m in keys && forall k :: k in keys ==> m <= k
  }

  /** A non-empty set of primary keys has a smallest key. */
  lemma {:induction false} MinKeyExists(keys: set<nat>)
    requires keys != {}
    ensures exists m :: IsLeast(m, keys)
    decreases |keys|
  {
    var k :| k in keys;
    var rest := keys - {k};
    if rest == {} {
      forall j | j in keys ensures k <= j {
        assert j !in rest;
      }
      assert IsLeast(k, keys);
    } else {
      MinKeyExists(rest);
      var m :| IsLeast(m, rest);
      var least := if k < m then k else m;
      forall j | j in keys ensures least <= j {
        if j != k {
          assert j in rest;
        }
      }
      assert IsLeast(least, keys);
    }
  }

  /** The smallest key of a non-empty set of primary keys. */
  function MinKey(keys: set<nat>): (m: nat)
    requires keys != {}
    ensures IsLeast(m, keys)
  {
    MinKeyExists(keys);
    var m :| IsLeast(m, keys);
    m
  }

  /** `SiteConfiguration.objects.first()`: no row gives `None`, otherwise the row with the lowest key. */
  function FirstSiteConfiguration(table: map<nat, SiteConfiguration>): (r: Option<SiteConfiguration>)
    ensures r.None? <==> table == map[]
    ensures r.Some? ==> exists pk :: pk in table && table[pk] == r.value && forall k :: k in table ==> pk <= k
  {
    if table == map[] then None
    else
      assert table.Keys != {} by {
        var k :| k in table;
      }
      var pk := MinKey(table.Keys);
      Some(table[pk])
  }

  /**
   * `seo_settings(request)`: the SEO row whose page is the name of the route
   * the request path resolves to; any failure to resolve (no such route) or a
   * route without a name gives no SEO row instead of an error. Then the
   * first site configuration and every social network and stat, in display
   * order.
   */
  function SeoSettings(pathInfo: string, t: Tables): (r: Context)
    ensures Urls.Resolve(pathInfo).None? ==> r.seo.None?
    ensures Urls.Resolve(pathInfo).Some? && Urls.Resolve(pathInfo).value.name.None? ==> r.seo.None?
    ensures r.seo.Some? ==> r.seo.value in t.seoPages
    ensures r.seo.Some? ==> Urls.Resolve(pathInfo).Some? && Some(r.seo.value.page) == Urls.Resolve(pathInfo).value.name
    ensures r.siteConfig.None? <==> t.siteConfigs == map[]
    ensures forall i, j :: 0 <= i < j < |r.socialNetworks| ==> r.socialNetworks[i].order <= r.socialNetworks[j].order
    ensures multiset(r.socialNetworks) == multiset(t.socialNetworks)
    ensures forall i, j :: 0 <= i < j < |r.stats| ==> r.stats[i].order <= r.stats[j].order
    ensures multiset(r.stats) == multiset(t.stats)
  {
    var route := Urls.Resolve(pathInfo);
    var seo := if route.Some? && route.value.name.Some? then FirstSeoFor(t.seoPages, route.value.name.value) else None;
    Context(seo, FirstSiteConfiguration(t.siteConfigs), SocialNetworkOrder(t.socialNetworks), StatOrder(t.stats))
  }

  /** With a table of distinct pages, the row found is the one and only row for that page. */
  lemma SeoIsTheRowForPage(pathInfo: string, t: Tables, i: nat)
    requires forall a, b :: 0 <= a < b < |t.seoPages| ==> t.seoPages[a].page != t.seoPages[b].page
    requires i < |t.seoPages|
    requires Urls.Resolve(pathInfo).Some? && Urls.Resolve(pathInfo).value.name == Some(t.seoPages[i].page)
    ensures SeoSettings(pathInfo, t).seo == Some(t.seoPages[i])
  {
    var r := FirstSeoFor(t.seoPages, t.seoPages[i].page);
    var j :| 0 <= j < |t.seoPages| && t.seoPages[j] == r.value && r.value.page == t.seoPages[i].page
             && forall k :: 0 <= k < j ==> t.seoPages[k].page != t.seoPages[i].page;
    assert j == i;
  }

  /** The home page gets the `home` SEO row when one exists. */
  lemma HomePageSeo(t: Tables, i: nat)
    requires i < |t.seoPages| && t.seoPages[i].page == "home"
    ensures SeoSettings("/", t).seo.Some? && SeoSettings("/", t).seo.value.page == "home"
  {
    Urls.MainRoutesRoundTrip(0);
    assert "/" + Urls.MAIN_ROUTES[0].route == "/";
  }

  /** With the configuration kept a singleton, `site_config` is the row under key 1. */
  lemma SiteConfigIsTheSingleton(pathInfo: string, t: Tables)
    requires IsSingleton(t.siteConfigs) && SITE_CONFIGURATION_PK in t.siteConfigs
    ensures SeoSettings(pathInfo, t).siteConfig == Some(t.siteConfigs[SITE_CONFIGURATION_PK])
  {
  }
}
