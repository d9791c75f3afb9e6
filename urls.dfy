/**
 * The URL configuration: the route table of main/urls.py, included at the
 * root of the project's table in thinkcesite/urls.py, and Django's `resolve`
 * (path to route) and `reverse` (route name to path) over it. A route is
 * matched against the whole path after its leading `/`; `reverse` puts the
 * `/` script prefix in front of the route.
 */
module Urls {
  import opened Wrappers

  /** One `path(route, view, name=...)` entry; the view is identified by the name. */
  datatype Route = Route(route: string, name: Option<string>)

  /** main/urls.py `urlpatterns`, in order. */
  const MAIN_ROUTES: seq<Route> := [
    Route("", Some("home")),
    Route("about/", Some("about")),
    Route("services/", Some("services")),
    Route("companies/", Some("companies")),
    Route("appointment/", Some("appointment")),
    Route("contact/", Some("contact")),
    Route("subscribe/", Some("subscribe"))
  ]

  /** The name the sitemap view is registered under. */
  const SITEMAP_NAME := "django.contrib.sitemaps.views.sitemap"

  /**
   * thinkcesite/urls.py `urlpatterns` after the admin site: the main routes
   * (included with an empty prefix), then `sitemap.xml` and the unnamed
   * `robots.txt`.
   */
  const SITE_ROUTES: seq<Route> := MAIN_ROUTES + [
    Route("sitemap.xml", Some(SITEMAP_NAME)),
    Route("robots.txt", None)
  ]

  /** No two routes share a path. */
  predicate DistinctPaths(routes: seq<Route>) {
    forall i, j :: 0 <= i < j < |routes| ==> routes[i].route != routes[j].route
  }

  /** No two routes share a name. */
  predicate DistinctNames(routes: seq<Route>) {
    forall i, j :: 0 <= i < j < |routes| && routes[i].name.Some? ==> routes[i].name != routes[j].name
  }

  /** Index of the first route whose path is exactly `route`. */
  function FindRoute(routes: seq<Route>, route: string): (r: Option<nat>)
    ensures r.Some? ==> r.value < |routes| && routes[r.value].route == route
    ensures r.Some? ==> forall k :: 0 <= k < r.value ==> routes[k].route != route
    ensures r.None? ==> forall k :: 0 <= k < |routes| ==> routes[k].route != route
  {
    if routes == [] then None
    else if routes[0].route == route then Some(0)
    else match FindRoute(routes[1..], route)
      case None => None
      case Some(i) => Some(i + 1)
  }

  /**
   * Index of the first route registered under `name`. Django's `reverse`
   * takes the last pattern when a name is registered twice; the two choices
   * agree on the site's tables, whose names are distinct
   * (`MainRoutesDistinct`, `SiteRoutesDistinct`).
   */
  function FindName(routes: seq<Route>, name: string): (r: Option<nat>)
    ensures r.Some? ==> r.value < |routes| && routes[r.value].name == Some(name)
    ensures r.Some? ==> forall k :: 0 <= k < r.value ==> routes[k].name != Some(name)
    ensures r.None? ==> forall k :: 0 <= k < |routes| ==> routes[k].name != Some(name)
  {
    if routes == [] then None
    else if routes[0].name == Some(name) then Some(0)
    else match FindName(routes[1..], name)
      case None => None
      case Some(i) => Some(i + 1)
  }

  /** `resolve(path)` against `routes`: the matching route, or `None` for a 404. */
  function ResolveIn(routes: seq<Route>, path: string): (r: Option<Route>)
    ensures r.Some? ==> path == "/" + r.value.route && r.value in routes
    ensures r.None? ==> forall k :: 0 <= k < |routes| ==> path != "/" + routes[k].route
  {
    if path == [] || path[0] != '/' then None
    else
      assert forall k :: 0 <= k < |routes| && path == "/" + routes[k].route ==> path[1..] == routes[k].route;
      match FindRoute(routes, path[1..])
      case None => None
      case Some(i) =>
        assert path == [path[0]] + path[1..];
        Some(routes[i])
  }

  /** `reverse(name)` against `routes`: the route's path, or `None` for `NoReverseMatch`. */
  function ReverseIn(routes: seq<Route>, name: string): (r: Option<string>)
    ensures r.Some? <==> exists k :: 0 <= k < |routes| && routes[k].name == Some(name)
    ensures r.Some? ==> exists k :: 0 <= k < |routes| && routes[k].name == Some(name) && r.value == "/" + routes[k].route
  {
    match FindName(routes, name)
    case None => None
    case Some(i) => Some("/" + routes[i].route)
  }

  /** The project's `resolve`: a path is served exactly when it is `/` followed by a registered route. */
  function Resolve(path: string): (r: Option<Route>)
    ensures r.Some? ==> path == "/" + r.value.route && r.value in SITE_ROUTES
    ensures r.None? <==> forall k :: 0 <= k < |SITE_ROUTES| ==> path != "/" + SITE_ROUTES[k].route
  {
    ResolveIn(SITE_ROUTES, path)
  }

  /** The project's `reverse`: a name reverses exactly when some route is registered under it. */
  function Reverse(name: string): (r: Option<string>)
    ensures r.Some? <==> exists k :: 0 <= k < |SITE_ROUTES| && SITE_ROUTES[k].name == Some(name)
    ensures r.Some? ==> exists k :: 0 <= k < |SITE_ROUTES| && SITE_ROUTES[k].name == Some(name)
                                    && r.value == "/" + SITE_ROUTES[k].route
  {
    ReverseIn(SITE_ROUTES, name)
  }

  /**
   * `resolve(reverse(name))` finds the route registered under `name` again,
   * when no two routes share a path.
   */
  lemma ResolveOfReverse(routes: seq<Route>, name: string)
    requires DistinctPaths(routes)
    requires ReverseIn(routes, name).Some?
    ensures ResolveIn(routes, ReverseIn(routes, name).value).Some?
    ensures ResolveIn(routes, ReverseIn(routes, name).value).value.name == Some(name)
  {
    var i := FindName(routes, name).value;
    var path := "/" + routes[i].route;
    assert path[1..] == routes[i].route;
    var j := FindRoute(routes, path[1..]).value;
    assert j == i;
  }

  /**
   * The other direction: a path that resolves to a named route is what
   * `reverse` gives for that name, when no two routes share a name.
   */
  lemma ReverseOfResolve(routes: seq<Route>, path: string)
    requires DistinctNames(routes)
    requires ResolveIn(routes, path).Some? && ResolveIn(routes, path).value.name.Some?
    ensures ReverseIn(routes, ResolveIn(routes, path).value.name.value) == Some(path)
  {
    var j := FindRoute(routes, path[1..]).value;
    var name := routes[j].name.value;
    var i := FindName(routes, name).value;
    assert i == j;
    assert path == [path[0]] + path[1..];
  }

  /** The seven main routes have pairwise distinct names and pairwise distinct paths. */
  lemma MainRoutesDistinct()
    ensures DistinctPaths(MAIN_ROUTES) && DistinctNames(MAIN_ROUTES)
  {
    var paths := ["", "about/", "services/", "companies/", "appointment/", "contact/", "subscribe/"];
    var names := ["home", "about", "services", "companies", "appointment", "contact", "subscribe"];
    assert forall k :: 0 <= k < 7 ==> MAIN_ROUTES[k] == Route(paths[k], Some(names[k]));
    forall i, j | 0 <= i < j < 7 ensures paths[i] != paths[j] && names[i] != names[j] {
    }
  }

  /** Every main path is empty or ends in `/`; every main name is short. */
  lemma MainRoutesShape()
    ensures forall k :: 0 <= k < |MAIN_ROUTES| ==> MAIN_ROUTES[k].route == [] || MAIN_ROUTES[k].route[|MAIN_ROUTES[k].route| - 1] == '/'
    ensures forall k :: 0 <= k < |MAIN_ROUTES| ==> MAIN_ROUTES[k].name.Some? && |MAIN_ROUTES[k].name.value| < 12
  {
  }

  /** So do the project's routes as a whole: the two extra paths do not end in `/`, and the sitemap's name is long. */
  lemma SiteRoutesDistinct()
    ensures DistinctPaths(SITE_ROUTES) && DistinctNames(SITE_ROUTES)
  {
    MainRoutesDistinct();
    MainRoutesShape();
    var sitemap := Route("sitemap.xml", Some(SITEMAP_NAME));
    var robots := Route("robots.txt", None);
    assert sitemap.route[|sitemap.route| - 1] == 'l' && robots.route[|robots.route| - 1] == 't';
    assert |SITEMAP_NAME| >= 12;
    assert sitemap.route != robots.route by {
      assert |sitemap.route| != |robots.route|;
    }
    forall i, j | 0 <= i < j < |SITE_ROUTES| ensures SITE_ROUTES[i].route != SITE_ROUTES[j].route {
      if j < |MAIN_ROUTES| {
        assert SITE_ROUTES[i] == MAIN_ROUTES[i] && SITE_ROUTES[j] == MAIN_ROUTES[j];
      } else if i < |MAIN_ROUTES| {
        assert SITE_ROUTES[i] == MAIN_ROUTES[i];
        assert SITE_ROUTES[j] == sitemap || SITE_ROUTES[j] == robots;
      } else {
        assert SITE_ROUTES[i] == sitemap && SITE_ROUTES[j] == robots;
      }
    }
    forall i, j | 0 <= i < j < |SITE_ROUTES| && SITE_ROUTES[i].name.Some?
      ensures SITE_ROUTES[i].name != SITE_ROUTES[j].name
    {
      if j < |MAIN_ROUTES| {
        assert SITE_ROUTES[i] == MAIN_ROUTES[i] && SITE_ROUTES[j] == MAIN_ROUTES[j];
      } else if i < |MAIN_ROUTES| {
        assert SITE_ROUTES[i] == MAIN_ROUTES[i];
        assert SITE_ROUTES[j] == sitemap || SITE_ROUTES[j] == robots;
      } else {
        assert SITE_ROUTES[i] == sitemap && SITE_ROUTES[j] == robots;
      }
    }
  }

  /** Each route name reverses to its listed path, and that path resolves back to the name. */
  lemma MainRoutesRoundTrip(i: nat)
    requires i < |MAIN_ROUTES|
    ensures Reverse(MAIN_ROUTES[i].name.value) == Some("/" + MAIN_ROUTES[i].route)
    ensures Resolve("/" + MAIN_ROUTES[i].route).Some?
    ensures Resolve("/" + MAIN_ROUTES[i].route).value.name == MAIN_ROUTES[i].name
  {
    SiteRoutesDistinct();
    var name := MAIN_ROUTES[i].name.value;
    assert SITE_ROUTES[i] == MAIN_ROUTES[i];
    var j := FindName(SITE_ROUTES, name).value;
    assert j == i;
    ResolveOfReverse(SITE_ROUTES, name);
  }

  /** A main route's name reverses to `/` and its path. */
  lemma MainRouteReverse(i: nat, path: string, name: string)
    requires i < |MAIN_ROUTES| && MAIN_ROUTES[i] == Route(path, Some(name))
    ensures Reverse(name) == Some("/" + path)
  {
    MainRoutesRoundTrip(i);
  }

  /** `home` is the site root. */
  lemma ReverseHome()
    ensures Reverse("home") == Some("/")
  {
    MainRouteReverse(0, "", "home");
    assert "/" + "" == "/";
  }

  /** `contact` is `/contact/`. */
  lemma ReverseContact()
    ensures Reverse("contact") == Some("/contact/")
  {
    MainRouteReverse(5, "contact/", "contact");
    assert "/" + "contact/" == "/contact/";
  }

  /** `appointment` is `/appointment/`. */
  lemma ReverseAppointment()
    ensures Reverse("appointment") == Some("/appointment/")
  {
    MainRouteReverse(4, "appointment/", "appointment");
    assert "/" + "appointment/" == "/appointment/";
  }

  /** A name of twelve or more characters other than the sitemap's is not registered. */
  lemma ReverseLongName(name: string)
    requires |name| >= 12 && name != SITEMAP_NAME
    ensures Reverse(name).None?
  {
    MainRoutesShape();
    forall k | 0 <= k < |SITE_ROUTES| ensures SITE_ROUTES[k].name != Some(name) {
      if k < |MAIN_ROUTES| {
        assert SITE_ROUTES[k] == MAIN_ROUTES[k];
      }
    }
  }

  function StartsWith(s: string, prefix: string): bool {
    |prefix| <= |s| && s[..|prefix|] == prefix
  }

  /**
   * `redirect(to)` for a string `to` (Django's `resolve_url`): a relative
   * `./` or `../` URL is used as it is; otherwise `to` is reversed as a route
   * name; failing that it is used as it is if it contains `/` or `.`, and the
   * `NoReverseMatch` propagates (`None`) if it contains neither.
   */
  function ResolveUrl(to: string): (r: Option<string>)
    ensures r.None? <==> !StartsWith(to, "./") && !StartsWith(to, "../") && Reverse(to).None? && '/' !in to && '.' !in to
    ensures Reverse(to).Some? && !StartsWith(to, "./") && !StartsWith(to, "../") ==> r == Reverse(to)
    ensures StartsWith(to, "./") || StartsWith(to, "../") || (Reverse(to).None? && ('/' in to || '.' in to))
            ==> r == Some(to)
  {
    if StartsWith(to, "./") || StartsWith(to, "../") then Some(to)
    else if Reverse(to).Some? then Reverse(to)
    else if '/' in to || '.' in to then Some(to)
    else None
  }
}
