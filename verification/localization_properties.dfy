/**
 * Properties of the localization engine that relate several calls or
 * several members: repeated calls hit the cache, the lookup a non-localized
 * call is given does not matter, and the generic fallback path puts the
 * locale in front exactly when it should, in the form `clearPath` removes.
 */
module LocalizationProperties {
  import opened Wrappers
  import opened PhpStrings
  import opened PhpUrls
  import opened DynamicRouteTranslator
  import opened Localization
  import DynamicRouteRoundTrip

  // ---------------------------------------------------------------------
  // Caching
  // ---------------------------------------------------------------------

  /**
   * With caching allowed, a call that succeeded is answered from the local
   * cache when it is repeated: same value, caches untouched.
   */
  lemma RepeatedCallHitsCache(env: Env, caches: Caches, call: Call)
    requires call.alloCache
    ensures var (c1, r1) := GetLocalizedUrl(env, caches, call);
      r1.Success? ==> GetLocalizedUrl(env, c1, call) == (c1, Success(Outcome(r1.value.value, CacheHit)))
  {
    var (c1, r1) := GetLocalizedUrl(env, caches, call);
    if r1.Success? {
      assert CacheKeyOf(env, call) in c1.local;
      var again := Localize(env, c1, call, TranslatedRouteLookup(env));
      assert again == (c1, Success(Outcome(c1.local[CacheKeyOf(env, call)], CacheHit)));
    }
  }

  /** A call with locale `false` never consults the translated-route lookup, so any lookup gives the same result. */
  lemma NoLocaleIgnoresLookup(env: Env, caches: Caches, call: Call, lookup: RouteLookup)
    requires call.locale == Some(NoLocale)
    ensures Localize(env, caches, call, lookup) == Localize(env, caches, call, NoLookup())
  {
    if !CacheAnswers(env, caches, call) {
      var d := Defaulted(env, call);
      assert Resolve(env, caches, d, lookup) == Resolve(env, caches, d, NoLookup());
    }
  }

  /** Without a cache answer and with a supported target locale, a call's result is that of the chain on the defaulted arguments. */
  lemma LocalizeMiss(env: Env, caches: Caches, call: Call, lookup: RouteLookup)
    requires !CacheAnswers(env, caches, call) && IsLocaleSupported(env.supportedLocales, TargetLocale(env, call))
    ensures Localize(env, caches, call, lookup).1 == Resolve(env, caches, Defaulted(env, call), lookup).1
  {
  }

  /**
   * A `null` target locale and an empty `fromLocale` behave as the current
   * locale given explicitly: when the cache answers neither call, both give
   * the same result. (Their cache keys differ, since the arguments are hashed.)
   */
  lemma LocaleDefaults(env: Env, caches: Caches, call: Call, lookup: RouteLookup)
    requires call.locale.None? && IsEmpty(call.fromLocale)
    ensures var explicit := call.(locale := Some(Code(env.currentLocale)), fromLocale := env.currentLocale);
      !CacheAnswers(env, caches, call) && !CacheAnswers(env, caches, explicit) ==>
        Localize(env, caches, call, lookup).1 == Localize(env, caches, explicit, lookup).1
  {
    var explicit := call.(locale := Some(Code(env.currentLocale)), fromLocale := env.currentLocale);
    var locale := Code(env.currentLocale);
    if !CacheAnswers(env, caches, call) && !CacheAnswers(env, caches, explicit)
       && IsLocaleSupported(env.supportedLocales, locale) {
      LocalizeMiss(env, caches, call, lookup);
      LocalizeMiss(env, caches, explicit, lookup);
      assert Defaulted(env, call) == Defaulted(env, explicit);
    }
  }

  // ---------------------------------------------------------------------
  // The generic fallback path
  // ---------------------------------------------------------------------

  /** Leading `/` in front of a string are dropped together with its own. */
  lemma TrimLeftSlashFront(x: string)
    ensures TrimLeft("/" + x, Slash) == TrimLeft(x, Slash)
  {
    var s := "/" + x;
    assert s[0] == '/' && s[1..] == x;
    assert TrimLeft(s, Slash) == TrimLeft(s[1..], Slash);
  }

  /** `c/` followed by a path without leading `/`, with trailing `/` removed. */
  lemma TrimRightLocaleSegment(c: string, q: string)
    requires c != [] && '/' !in c
    requires q == [] || q[0] != '/'
    ensures TrimRight(c + "/" + q, Slash) == (if q == [] then c else c + "/" + TrimRight(q, Slash))
  {
    if q == [] {
      var p := c + "/";
      assert p[..|p| - 1] == c;
      assert c[|c| - 1] != '/';
      TrimRightNoop(c, Slash);
    } else {
      TrimRightAppend(c + "/", q, Slash);
    }
  }

  /** For a site at the root and a shown locale, the generic path is the trimmed `/locale/path`. */
  lemma GenericPathUnfoldShown(c: string, defaultLocale: string, hideDefaultLocale: bool, showHiddenLocale: bool,
                               basePath: string, path: string)
    requires TrimLeft(basePath, Slash) == []
    requires ShowsLocale(Code(c), defaultLocale, hideDefaultLocale, showHiddenLocale)
    ensures GenericPath(Code(c), defaultLocale, hideDefaultLocale, showHiddenLocale, basePath, path)
         == TrimRight(TrimLeft("/" + (c + "/" + TrimLeft(path, Slash)), Slash), Slash)
  {
    var p := c + "/" + TrimLeft(path, Slash);
    EmptyThenSlash(TrimLeft(basePath, Slash), p);
  }

  lemma EmptyThenSlash(e: string, p: string)
    requires e == []
    ensures e + "/" + p == "/" + p
  {
    assert e + "/" == "/";
  }

  /** `ltrim` of `/locale/q` leaves `locale/q`. */
  lemma TrimLeftLocalePath(c: string, q: string)
    requires c != [] && '/' !in c
    ensures TrimLeft("/" + (c + "/" + q), Slash) == c + "/" + q
  {
    var p := c + "/" + q;
    TrimLeftSlashFront(p);
    assert p[0] == c[0];
    TrimLeftNoop(p, Slash);
  }

  /** The generic path when the locale is shown, for a site at the root. */
  lemma GenericPathShown(c: string, defaultLocale: string, hideDefaultLocale: bool, showHiddenLocale: bool,
                         basePath: string, path: string)
    requires TrimLeft(basePath, Slash) == [] && c != [] && '/' !in c
    requires ShowsLocale(Code(c), defaultLocale, hideDefaultLocale, showHiddenLocale)
    ensures var t := TrimBoth(path, Slash);
      GenericPath(Code(c), defaultLocale, hideDefaultLocale, showHiddenLocale, basePath, path)
        == (if t == [] then c else c + "/" + t)
  {
    var q := TrimLeft(path, Slash);
    GenericPathUnfoldShown(c, defaultLocale, hideDefaultLocale, showHiddenLocale, basePath, path);
    TrimLeftLocalePath(c, q);
    TrimRightLocaleSegment(c, q);
    if q != [] {
      assert q[0] !in Slash;
    }
  }

  /** The generic path when the locale is not shown, for a site at the root. */
  lemma GenericPathHidden(locale: Locale, defaultLocale: string, hideDefaultLocale: bool, showHiddenLocale: bool,
                          basePath: string, path: string)
    requires TrimLeft(basePath, Slash) == []
    requires !ShowsLocale(locale, defaultLocale, hideDefaultLocale, showHiddenLocale)
    ensures GenericPath(locale, defaultLocale, hideDefaultLocale, showHiddenLocale, basePath, path)
         == TrimBoth(path, Slash)
  {
    EmptyThenSlash(TrimLeft(basePath, Slash), path);
    TrimLeftSlashFront(path);
  }

  /**
   * For a site served at the root (a base path of slashes only), the generic
   * path is the request path without surrounding `/`, with the locale as an
   * extra first segment exactly when the locale is shown.
   */
  lemma GenericPathAtRoot(locale: Locale, defaultLocale: string, hideDefaultLocale: bool, showHiddenLocale: bool,
                          basePath: string, path: string)
    requires TrimLeft(basePath, Slash) == []
    requires locale.Code? ==> '/' !in locale.code
    ensures var r := GenericPath(locale, defaultLocale, hideDefaultLocale, showHiddenLocale, basePath, path);
      var t := TrimBoth(path, Slash);
      if ShowsLocale(locale, defaultLocale, hideDefaultLocale, showHiddenLocale)
      then r == (if t == [] then locale.code else locale.code + "/" + t)
      else r == t
  {
    if ShowsLocale(locale, defaultLocale, hideDefaultLocale, showHiddenLocale) {
      GenericPathShown(locale.code, defaultLocale, hideDefaultLocale, showHiddenLocale, basePath, path);
    } else {
      GenericPathHidden(locale, defaultLocale, hideDefaultLocale, showHiddenLocale, basePath, path);
    }
  }

  /** `clearPath` of a path is the trimmed result of the locale replacements. */
  lemma ClearPathOfPath(r: string, locales: seq<string>)
    ensures ClearPath(Some(PathOnly(r)), locales) == TrimBoth(StripLocales(r, locales), Slash)
  {
  }

  /**
   * The generic path's locale segment is the one `clearPath` removes: for a
   * site at the root, with the locale shown and among the supported locales,
   * clearing the generic path gives back the request path without
   * surrounding `/`, as long as that path's first segment is not itself a
   * supported locale (which `clearPath` would remove as well).
   */
  lemma ClearPathUndoesGenericPath(c: string, defaultLocale: string, hideDefaultLocale: bool,
                                   showHiddenLocale: bool, basePath: string, path: string, locales: seq<string>)
    requires DynamicRouteRoundTrip.PlainLocales(locales) && c in locales
    requires TrimLeft(basePath, Slash) == []
    requires ShowsLocale(Code(c), defaultLocale, hideDefaultLocale, showHiddenLocale)
    requires Explode(TrimBoth(path, Slash), '/')[0] !in locales
    ensures var r := GenericPath(Code(c), defaultLocale, hideDefaultLocale, showHiddenLocale, basePath, path);
      ClearPath(Some(PathOnly(r)), locales) == TrimBoth(path, Slash)
  {
    assert c != "" && '/' !in c;
    GenericPathShown(c, defaultLocale, hideDefaultLocale, showHiddenLocale, basePath, path);
    var t := TrimBoth(path, Slash);
    if t == [] {
      DynamicRouteRoundTrip.StripLocalesBareLocale(c, locales);
      ClearPathOfPath(c, locales);
    } else {
      DynamicRouteRoundTrip.FirstSegmentSplit(t);
      var first := Explode(t, '/')[0];
      var rest := t[|first|..];
      DynamicRouteRoundTrip.StripLocalesRemovesBarePrefix(c, first, rest, locales);
      ClearPathOfPath(c + "/" + t, locales);
      TrimBothNoop(t, Slash);
    }
  }

  /**
   * For a site at the root, and a request path that does not itself start
   * with the locale segment, the generic path starts with the locale segment
   * exactly when the locale is shown.
   */
  lemma GenericPathShowsLocaleIff(c: string, defaultLocale: string, hideDefaultLocale: bool, showHiddenLocale: bool,
                                  basePath: string, path: string)
    requires c != "" && '/' !in c
    requires TrimLeft(basePath, Slash) == []
    requires var t := TrimBoth(path, Slash); t != c && !HasPrefix(t, c + "/")
    ensures var r := GenericPath(Code(c), defaultLocale, hideDefaultLocale, showHiddenLocale, basePath, path);
      (r == c || HasPrefix(r, c + "/")) <==> ShowsLocale(Code(c), defaultLocale, hideDefaultLocale, showHiddenLocale)
  {
    GenericPathAtRoot(Code(c), defaultLocale, hideDefaultLocale, showHiddenLocale, basePath, path);
    var t := TrimBoth(path, Slash);
    if ShowsLocale(Code(c), defaultLocale, hideDefaultLocale, showHiddenLocale) && t != [] {
      assert (c + "/" + t)[..|c| + 1] == c + "/";
    }
  }

  // ---------------------------------------------------------------------
  // Switching the locale of a URL
  // ---------------------------------------------------------------------

  /**
   * When the route translator's rewrite of the parsed URL leaves, like
   * `clearPath`, the request path without its locale prefixes, the fallback's
   * generic path for a site at the root is that cleared path, with the target
   * locale in front when the locale is shown.
   */
  lemma FallbackPathReplacesLocale(env: Env, call: Call, locale: Locale, url: string)
    requires TrimLeft(env.requestBaseUrl, Slash) == []
    requires locale.Code? ==> '/' !in locale.code
    requires TrimBoth(TranslatedRouteOf(env, url).0.path.GetOr(""), Slash)
          == ClearPath(env.parse(url), env.supportedLocales)
    ensures var cleared := ClearPath(env.parse(url), env.supportedLocales);
      var path := FallbackPath(env, call, locale, url);
      if ShowsLocale(locale, env.defaultLocale, env.hideDefaultLocale, call.showHiddenLocale)
      then path == (if cleared == [] then locale.code else locale.code + "/" + cleared)
      else path == cleared
  {
    GenericPathAtRoot(locale, env.defaultLocale, env.hideDefaultLocale, call.showHiddenLocale, env.requestBaseUrl,
                      TranslatedRouteOf(env, url).0.path.GetOr(""));
  }

  /**
   * Switching the locale of `/from/seg` to a shown locale `to` gives the path
   * `to/seg`: the old locale segment is replaced, not kept behind the new one.
   */
  lemma SwitchLocaleOfPath(env: Env, call: Call, from: string, to: string, seg: string, url: string)
    requires DynamicRouteRoundTrip.PlainLocales(env.supportedLocales) && from in env.supportedLocales
    requires seg != "" && '/' !in seg && seg !in env.supportedLocales && '/' !in to
    requires env.parse(url) == Some(PathOnly("/" + from + "/" + seg))
    requires TrimLeft(env.requestBaseUrl, Slash) == []
    requires TrimBoth(TranslatedRouteOf(env, url).0.path.GetOr(""), Slash)
          == ClearPath(env.parse(url), env.supportedLocales)
    requires ShowsLocale(Code(to), env.defaultLocale, env.hideDefaultLocale, call.showHiddenLocale)
    ensures FallbackPath(env, call, Code(to), url) == to + "/" + seg
  {
    ClearLocaleSegment(from, seg, env.supportedLocales);
    FallbackPathReplacesLocale(env, call, Code(to), url);
  }

  /** `clearPath` of `/from/seg`, for a supported `from` and a segment that is no supported locale, is `seg`. */
  lemma ClearLocaleSegment(from: string, seg: string, locales: seq<string>)
    requires DynamicRouteRoundTrip.PlainLocales(locales) && from in locales
    requires seg != "" && '/' !in seg && seg !in locales
    ensures ClearPath(Some(PathOnly("/" + from + "/" + seg)), locales) == seg
  {
    assert "/" + from + "/" + seg == "/" + from + ("/" + (seg + []));
    DynamicRouteRoundTrip.StripLocalesRemovesPrefix(from, seg, [], locales);
    assert seg + [] == seg;
    TrimBothNoop(seg, Slash);
  }

  // ---------------------------------------------------------------------
  // Finding a translated route by URL
  // ---------------------------------------------------------------------

  /** What `getNonLocalizedURL` computes for `u` when the cache does not answer. */
  ghost function FreshNonLocalized(env: Env, u: string): UrlValue {
    Resolve(env, Caches(map[], map[]), Defaulted(env, NonLocalizedCall(u)), NoLookup()).1.value.value
  }

  /** The resolution for locale `false` neither reads nor writes the caches. */
  lemma ResolveNonLocalizedIgnoresCaches(env: Env, caches: Caches, u: string)
    ensures var r := Resolve(env, caches, Defaulted(env, NonLocalizedCall(u)), NoLookup());
      r.0 == caches && r.1.Success? && r.1.value.value == FreshNonLocalized(env, u)
  {
  }

  /** Every cached answer under a `getNonLocalizedURL` key, in either tier, is the fresh answer for that URL. */
  ghost predicate CoherentCaches(env: Env, caches: Caches) {
    (forall u :: CacheKeyOf(env, NonLocalizedCall(u)) in caches.local ==>
      caches.local[CacheKeyOf(env, NonLocalizedCall(u))] == FreshNonLocalized(env, u)) &&
    (forall u :: CacheKeyOf(env, NonLocalizedCall(u)) in caches.external ==>
      caches.external[CacheKeyOf(env, NonLocalizedCall(u))].value == FreshNonLocalized(env, u))
  }

  /** Distinct URLs give `getNonLocalizedURL` distinct cache keys (no digest collision among them). */
  ghost predicate NonLocalizedKeysDistinct(env: Env) {
    forall u, v :: u != v ==> CacheKeyOf(env, NonLocalizedCall(u)) != CacheKeyOf(env, NonLocalizedCall(v))
  }

  lemma EmptyCachesCoherent(env: Env)
    ensures CoherentCaches(env, Caches(map[], map[]))
  {
  }

  /**
   * On coherent caches, `getNonLocalizedURL` gives the fresh answer, whether
   * it comes from a cache tier or is computed, and leaves the caches coherent.
   */
  lemma NonLocalizedCoherent(env: Env, caches: Caches, u: string)
    requires CoherentCaches(env, caches) && NonLocalizedKeysDistinct(env)
    ensures NonLocalized(env, caches, u).1 == FreshNonLocalized(env, u)
    ensures CoherentCaches(env, NonLocalized(env, caches, u).0)
  {
    var call := NonLocalizedCall(u);
    var key := CacheKeyOf(env, call);
    ResolveNonLocalizedIgnoresCaches(env, caches, u);
    var r := NonLocalized(env, caches, u).0;
    forall v | CacheKeyOf(env, NonLocalizedCall(v)) in r.local
      ensures r.local[CacheKeyOf(env, NonLocalizedCall(v))] == FreshNonLocalized(env, v)
    {
      if v != u {
        assert CacheKeyOf(env, NonLocalizedCall(v)) != key;
      }
    }
    forall v | CacheKeyOf(env, NonLocalizedCall(v)) in r.external
      ensures r.external[CacheKeyOf(env, NonLocalizedCall(v))].value == FreshNonLocalized(env, v)
    {
      if v != u {
        assert CacheKeyOf(env, NonLocalizedCall(v)) != key;
      }
    }
  }

  /** A translated route matches the URL: its URL for `locale`, without locale, is the URL without locale. */
  ghost predicate RouteMatches(env: Env, url: string, attributes: Attributes, locale: Locale, route: string) {
    var translated := UrlFromRouteName(env, locale, route, attributes, false, false);
    translated.Success? && FreshNonLocalized(env, UrlArg(translated.value)) == FreshNonLocalized(env, url)
  }

  /** The reference search: the first route `matches` accepts, or nothing when it accepts none. */
  function FirstWhere(routes: seq<string>, matches: string -> bool): (r: Option<string>)
    ensures r.None? <==> forall j :: 0 <= j < |routes| ==> !matches(routes[j])
    ensures r.Some? ==> exists k :: (0 <= k < |routes| && routes[k] == r.value && matches(routes[k]) &&
      forall j :: 0 <= j < k ==> !matches(routes[j]))
    decreases |routes|
  {
    if routes == [] then None
    else if matches(routes[0]) then Some(routes[0])
    else
      var r := FirstWhere(routes[1..], matches);
      assert forall j :: 1 <= j < |routes| ==> routes[j] == routes[1..][j - 1];
      r
  }

  /** The first translated route that matches the URL. */
  ghost function FirstMatch(env: Env, url: string, attributes: Attributes, locale: Locale, routes: seq<string>)
    : Option<string>
  {
    FirstWhere(routes, (route: string) => RouteMatches(env, url, attributes, locale, route))
  }

  /**
   * With a supported locale and coherent caches, the loop of
   * `findTranslatedRouteByUrl` finds exactly the first matching route, and
   * nothing when no route matches; the caches stay coherent.
   */
  lemma {:induction false} FindTranslatedRouteFirstMatch(env: Env, caches: Caches, url: string,
                                                         attributes: Attributes, locale: Locale, routes: seq<string>)
    requires IsLocaleSupported(env.supportedLocales, locale)
    requires CoherentCaches(env, caches) && NonLocalizedKeysDistinct(env)
    ensures var r := FindTranslatedRouteIn(env, caches, url, attributes, locale, routes);
      r.1 == Success(FirstMatch(env, url, attributes, locale, routes)) && CoherentCaches(env, r.0)
    decreases |routes|
  {
    if routes != [] {
      var translated := UrlFromRouteName(env, locale, routes[0], attributes, false, false);
      assert translated.Success?;
      NonLocalizedCoherent(env, caches, UrlArg(translated.value));
      var c1 := NonLocalized(env, caches, UrlArg(translated.value)).0;
      NonLocalizedCoherent(env, c1, url);
      var c2 := NonLocalized(env, c1, url).0;
      FirstMatchStep(env, url, attributes, locale, routes);
      if !RouteMatches(env, url, attributes, locale, routes[0]) {
        FindTranslatedRouteFirstMatch(env, c2, url, attributes, locale, routes[1..]);
      }
    }
  }

  /** One step of the reference search: the head if it matches, otherwise the search over the rest. */
  lemma FirstMatchStep(env: Env, url: string, attributes: Attributes, locale: Locale, routes: seq<string>)
    requires routes != []
    ensures FirstMatch(env, url, attributes, locale, routes) ==
      if RouteMatches(env, url, attributes, locale, routes[0]) then Some(routes[0])
      else FirstMatch(env, url, attributes, locale, routes[1..])
  {
  }

  /**
   * `findTranslatedRouteByUrl` with a supported locale and coherent caches:
   * nothing for an empty URL, otherwise the first matching translated route.
   */
  lemma FindTranslatedRouteByUrlFirstMatch(env: Env, caches: Caches, url: string, attributes: Attributes,
                                           locale: Locale)
    requires IsLocaleSupported(env.supportedLocales, locale)
    requires CoherentCaches(env, caches) && NonLocalizedKeysDistinct(env)
    ensures FindTranslatedRouteByUrl(env, caches, url, attributes, locale).1 ==
      Success(if IsEmpty(url) then None else FirstMatch(env, url, attributes, locale, env.translatedRoutes))
    ensures var found := FindTranslatedRouteByUrl(env, caches, url, attributes, locale).1;
      var routes := env.translatedRoutes;
      found.Success? &&
      (found.value.None? <==>
        IsEmpty(url) || forall j :: 0 <= j < |routes| ==> !RouteMatches(env, url, attributes, locale, routes[j])) &&
      (found.value.Some? ==> exists k :: (0 <= k < |routes| && routes[k] == found.value.value &&
        RouteMatches(env, url, attributes, locale, routes[k]) &&
        forall j :: 0 <= j < k ==> !RouteMatches(env, url, attributes, locale, routes[j])))
  {
    if !IsEmpty(url) {
      FindTranslatedRouteFirstMatch(env, caches, url, attributes, locale, env.translatedRoutes);
      FirstMatchIsFirst(env, url, attributes, locale, env.translatedRoutes);
    }
  }

  /** The reference search's two clauses, with the match spelled out. */
  lemma FirstMatchIsFirst(env: Env, url: string, attributes: Attributes, locale: Locale, routes: seq<string>)
    ensures var m := FirstMatch(env, url, attributes, locale, routes);
      (m.None? <==> forall j :: 0 <= j < |routes| ==> !RouteMatches(env, url, attributes, locale, routes[j])) &&
      (m.Some? ==> exists k :: (0 <= k < |routes| && routes[k] == m.value &&
        RouteMatches(env, url, attributes, locale, routes[k]) &&
        forall j :: 0 <= j < k ==> !RouteMatches(env, url, attributes, locale, routes[j])))
  {
  }
}
