/**
 * The URL localization engine: locale checks, base-URL handling, route-name
 * URLs, and the `getLocalizedURL` resolution chain with its two cache tiers.
 * The framework, the locale manager, the route translator and the URL
 * helpers it calls are the fields of an `Env`.
 */
module Localization {
  import opened Wrappers
  import opened PhpStrings
  import opened PhpArrays
  import opened PhpUrls
  import opened RouteCacheHelper
  import opened DynamicRouteTranslator

  /** A locale argument after defaulting: PHP `false` (no locale) or a locale code. */
  datatype Locale = NoLocale | Code(code: string)

  /** What the URL methods return: `false`, or a URL. */
  datatype UrlValue = Missing | Url(url: string)

  datatype LocalizationError = UnsupportedLocale(locale: Locale)

  /**
   * The arguments of `getLocalizedURL`. `locale == None` is `null` (use the
   * current locale); an empty `url` stands for `null`, `false` and `""`.
   */
  datatype Call = Call(
    locale: Option<Locale>,
    url: string,
    attributes: Attributes,
    showHiddenLocale: bool,
    fromLocale: string,
    attributesSluged: bool,
    alloCache: bool)

  /** What the cache key digests: the arguments, plus the full request URL when `url` is empty. */
  datatype HashInput = HashInput(call: Call, fullUrl: Option<string>)

  /** The process-wide local cache and the external store, both keyed by cache key. */
  datatype Caches = Caches(local: map<string, UrlValue>, external: ExternalStore<UrlValue>)

  /** Which step of the resolution chain produced a result. */
  datatype Origin = CacheHit | CurrentRoute | DynamicRoute | TranslatedByUrl | TranslatedRoute | ValidUrl | FromUri

  datatype Outcome = Outcome(value: UrlValue, origin: Origin)

  /**
   * The collaborators and the configuration:
   * - `routeUrl(locale, defaultLocale, routeName, attributes, hideDefault, showHidden, sluged)`
   *   is the route translator's `getUrlFromRouteName` (an empty result is `false`);
   * - `dynamicData(url, attributes, fromLocale)` is its `getDynamicDataFromUrl`;
   * - `translatedRoute(baseUrl, parsed, defaultLocale, supportedLocales)` is its `getTranslatedRoute`,
   *   which receives the parsed URL by reference: it yields the parsed URL as it
   *   left it (a path-only array when `parse_url` failed) along with the route name, if any;
   * - `parse`, `unparse`, `isValidUrl`, `extractAttributes`, `urlTo` and `digest` are
   *   `parse_url`, `Url::unparse`, `filter_var(FILTER_VALIDATE_URL)`,
   *   `Url::extractAttributes`, the URL generator's `to` and `md5(serialize(...))`.
   */
  datatype Env = Env(
    cacheKeyFormat: KeyFormat,
    useExternalCache: bool,
    externalCacheTtl: int,
    baseUrl: string,
    currentLocale: string,
    defaultLocale: string,
    hideDefaultLocale: bool,
    supportedLocales: seq<string>,
    fullUrl: string,
    requestBaseUrl: string,
    routeParameters: Attributes,
    hasCurrentRoute: bool,
    currentRoute: string,
    translatedRoutes: seq<string>,
    routeUrl: (Locale, string, string, Attributes, bool, bool, bool) -> string,
    dynamicData: (string, Attributes, string) -> DynamicData,
    translatedRoute: (string, Option<ParsedUrl>, string, seq<string>) -> (ParsedUrl, Option<string>),
    parse: UrlParser,
    unparse: ParsedUrl -> string,
    isValidUrl: string -> bool,
    extractAttributes: string -> Attributes,
    urlTo: string -> string,
    digest: HashInput -> string)

  // ---------------------------------------------------------------------
  // Locale checks
  // ---------------------------------------------------------------------

  /** `isLocaleSupported`: `false` always passes; a code passes when the manager supports it. */
  function IsLocaleSupported(supportedLocales: seq<string>, locale: Locale): (r: bool)
    ensures locale.NoLocale? ==> r
    ensures locale.Code? ==> (r <==> locale.code in supportedLocales)
  {
    !(locale != NoLocale && !(locale.code in supportedLocales))
  }

  /** `isLocaleSupportedOrFail`: the error it throws, if any. */
  function IsLocaleSupportedOrFail(supportedLocales: seq<string>, locale: Locale): (r: Option<LocalizationError>)
    ensures r.Some? <==> !IsLocaleSupported(supportedLocales, locale)
    ensures r.Some? ==> r.value == UnsupportedLocale(locale) && locale.Code?
  {
    if IsLocaleSupported(supportedLocales, locale) then None else Some(UnsupportedLocale(locale))
  }

  /** PHP truthiness of a locale argument: a code other than "" and "0". */
  predicate Truthy(locale: Locale) {
    locale.Code? && !IsEmpty(locale.code)
  }

  // ---------------------------------------------------------------------
  // Base URL and route-name URLs
  // ---------------------------------------------------------------------

  /** `setBaseUrl`: the URL with a `/` appended unless it already ends in one. */
  function SetBaseUrl(url: string): (r: string)
    ensures r != [] && r[|r| - 1] == '/'
    ensures r == url || r == url + "/"
    ensures r == url <==> url != [] && url[|url| - 1] == '/'
  {
    if url != [] && url[|url| - 1] == '/' then url else url + "/"
  }

  lemma SetBaseUrlIdempotent(url: string)
    ensures SetBaseUrl(SetBaseUrl(url)) == SetBaseUrl(url)
  {
  }

  /**
   * `createUrlFromUri`: leading `/` are dropped from the URI; with no base URL
   * the framework's URL generator makes the URL, otherwise the base URL is
   * put in front.
   */
  function CreateUrlFromUri(baseUrl: string, urlTo: string -> string, uri: string): (r: string)
    ensures IsEmpty(baseUrl) ==> r == urlTo(TrimLeft(uri, Slash))
    ensures !IsEmpty(baseUrl) ==> (HasPrefix(r, baseUrl) &&
      var rest := r[|baseUrl|..];
      |rest| <= |uri| && rest == uri[|uri| - |rest|..] && (rest == [] || rest[0] != '/') &&
      forall i :: 0 <= i < |uri| - |rest| ==> uri[i] == '/')
  {
    var u := TrimLeft(uri, Slash);
    if IsEmpty(baseUrl) then urlTo(u) else baseUrl + u
  }

  /** After `setBaseUrl`, base and URI meet at exactly one `/`. */
  lemma CreateUrlAfterSetBaseUrl(base: string, urlTo: string -> string, uri: string)
    ensures var b := SetBaseUrl(base);
      var r := CreateUrlFromUri(b, urlTo, uri);
      HasPrefix(r, b) && r[|b| - 1] == '/' && (|r| == |b| || r[|b|] != '/')
  {
    var b := SetBaseUrl(base);
    assert !IsEmpty(b) by {
      assert b[|b| - 1] == '/' && "0"[0] == '0';
    }
    var r := CreateUrlFromUri(b, urlTo, uri);
    assert r[..|b|] == b;
    assert r[|b| - 1] == b[|b| - 1];
    if |r| > |b| {
      assert r[|b|] == r[|b|..][0];
    }
  }

  /**
   * `getUrlFromRouteName`: after the locale check, the route translator's URL
   * for the route; an empty one is `false`, otherwise it goes through
   * `createUrlFromUri` and loses its trailing whitespace.
   */
  function UrlFromRouteName(env: Env, locale: Locale, routeName: string, attributes: Attributes,
                            showHiddenLocale: bool, attributesSluged: bool): (r: Result<UrlValue, LocalizationError>)
    ensures r.Failure? <==> !IsLocaleSupported(env.supportedLocales, locale)
    ensures r.Failure? ==> r.error == UnsupportedLocale(locale)
    ensures var route := env.routeUrl(locale, env.defaultLocale, routeName, attributes, env.hideDefaultLocale,
                                      showHiddenLocale, attributesSluged);
      r.Success? ==> ((r.value.Missing? <==> IsEmpty(route)) &&
        (r.value.Url? ==>
          var made := CreateUrlFromUri(env.baseUrl, env.urlTo, route);
          var u := r.value.url;
          HasPrefix(made, u) && (u == [] || u[|u| - 1] !in Whitespace) &&
          forall i :: |u| <= i < |made| ==> made[i] in Whitespace))
  {
    match IsLocaleSupportedOrFail(env.supportedLocales, locale)
    case Some(e) => Failure(e)
    case None =>
      var route := env.routeUrl(locale, env.defaultLocale, routeName, attributes, env.hideDefaultLocale,
                                showHiddenLocale, attributesSluged);
      if IsEmpty(route) then Success(Missing)
      else Success(Url(TrimRight(CreateUrlFromUri(env.baseUrl, env.urlTo, route), Whitespace)))
  }

  // ---------------------------------------------------------------------
  // The generic fallback path
  // ---------------------------------------------------------------------

  /** The generic fallback shows the locale unless it is empty, or the hidden default without `showHiddenLocale`. */
  predicate ShowsLocale(locale: Locale, defaultLocale: string, hideDefaultLocale: bool, showHiddenLocale: bool) {
    Truthy(locale) && (locale.code != defaultLocale || !hideDefaultLocale || showHiddenLocale)
  }

  /**
   * The path of the generic fallback: `locale/` in front when the locale is
   * shown, then the request's base path in front of that, and no `/` left at
   * either end.
   */
  function GenericPath(locale: Locale, defaultLocale: string, hideDefaultLocale: bool, showHiddenLocale: bool,
                       basePath: string, path: string): (r: string)
    ensures r == [] || (r[0] !in Slash && r[|r| - 1] !in Slash)
  {
    var p := if ShowsLocale(locale, defaultLocale, hideDefaultLocale, showHiddenLocale)
      then locale.code + "/" + TrimLeft(path, Slash) else path;
    TrimBoth(TrimLeft(basePath, Slash) + "/" + p, Slash)
  }

  // ---------------------------------------------------------------------
  // The resolution chain
  // ---------------------------------------------------------------------

  /** `$this->routeTranslator`-backed lookup of a translated route for a URL, threading the caches. */
  type RouteLookup = (Caches, string, Attributes) -> (Caches, Result<Option<string>, LocalizationError>)

  /** A lookup that never adds or removes a local cache entry's key. */
  ghost predicate LookupKeepsKeys(lookup: RouteLookup) {
    forall caches: Caches, url: string, attributes: Attributes :: caches.local.Keys <= lookup(caches, url, attributes).0.local.Keys
  }

  /** A lookup whose only error is `e`. */
  ghost predicate LookupFailsOnlyWith(lookup: RouteLookup, e: LocalizationError) {
    forall caches: Caches, url: string, attributes: Attributes ::
      lookup(caches, url, attributes).1.Failure? ==> lookup(caches, url, attributes).1.error == e
  }

  /** The cache key of a call. */
  function CacheKeyOf(env: Env, call: Call): string {
    CreateCacheKey(env.cacheKeyFormat, env.digest,
                   HashInput(call, if IsEmpty(call.url) then Some(env.fullUrl) else None))
  }

  /** The target locale: `null` means the current locale. */
  function TargetLocale(env: Env, call: Call): Locale {
    match call.locale
    case None => Code(env.currentLocale)
    case Some(l) => l
  }

  /** The arguments after defaulting: the target locale, and the current locale for an empty `fromLocale`. */
  function Defaulted(env: Env, call: Call): (d: Call)
    ensures d.locale == Some(TargetLocale(env, call))
    ensures d == call.(locale := d.locale, fromLocale := d.fromLocale)
    ensures !IsEmpty(d.fromLocale) || d.fromLocale == env.currentLocale
  {
    call.(locale := Some(TargetLocale(env, call)),
          fromLocale := if IsEmpty(call.fromLocale) then env.currentLocale else call.fromLocale)
  }

  /** The attributes the chain works with: the given ones, or those extracted from the URL when none are given. */
  function EffectiveAttributes(env: Env, call: Call): Attributes {
    if call.attributes == [] then env.extractAttributes(call.url) else call.attributes
  }

  /** `$cacheForever`: neither given nor extracted attributes. */
  predicate CacheForever(env: Env, call: Call) {
    call.attributes == [] && env.extractAttributes(call.url) == []
  }

  /** The lifetime of an external write: forever only for attribute-free calls with the external cache enabled. */
  function LifetimeFor(env: Env, call: Call): (l: Lifetime)
    ensures l.Forever? <==> CacheForever(env, call) && env.useExternalCache
    ensures l.Ttl? ==> l.ttl == env.externalCacheTtl
  {
    if CacheForever(env, call) && env.useExternalCache then Forever else Ttl(env.externalCacheTtl)
  }

  /** A cache write: the local entry, and `Cache::forever` or `Cache::put` with the TTL. */
  function Store(env: Env, caches: Caches, key: string, value: UrlValue, call: Call): (c: Caches)
    ensures c.local.Keys == caches.local.Keys + {key}
    ensures key in c.local && c.local[key] == value
    ensures key in c.external && c.external[key] == Stored(value, LifetimeFor(env, call))
    ensures forall k :: k in caches.local && k != key ==> c.local[k] == caches.local[k]
    ensures c.external.Keys == caches.external.Keys + {key}
    ensures forall k :: k in caches.external && k != key ==> c.external[k] == caches.external[k]
  {
    Caches(caches.local[key := value], caches.external[key := Stored(value, LifetimeFor(env, call))])
  }

  /** A call the cache answers: caching allowed and the key in the local map, or in the enabled external store. */
  predicate CacheAnswers(env: Env, caches: Caches, call: Call) {
    var key := CacheKeyOf(env, call);
    call.alloCache && (key in caches.local || (env.useExternalCache && key in caches.external))
  }

  /** A call that neither the cache answers nor the locale check rejects: it runs the resolution chain. */
  predicate ReachesChain(env: Env, caches: Caches, call: Call) {
    !CacheAnswers(env, caches, call) && IsLocaleSupported(env.supportedLocales, TargetLocale(env, call))
  }

  /** A resolution that is written to the cache: a success under `alloCache`, or a valid generic URL regardless. */
  predicate WritesCache(call: Call, res: Result<Outcome, LocalizationError>) {
    res.Success? && (call.alloCache || res.value.origin == ValidUrl)
  }

  /** `getTranslatedRoute` on the request's base URL and the parsed URL: the rewritten parse and the route, if any. */
  function TranslatedRouteOf(env: Env, url: string): (ParsedUrl, Option<string>) {
    env.translatedRoute(env.requestBaseUrl, env.parse(url), env.defaultLocale, env.supportedLocales)
  }

  /** The generic fallback's path, built from the path `getTranslatedRoute` left in the parsed URL. */
  function FallbackPath(env: Env, call: Call, locale: Locale, url: string): (path: string)
    ensures path == [] || (path[0] !in Slash && path[|path| - 1] !in Slash)
  {
    GenericPath(locale, env.defaultLocale, env.hideDefaultLocale, call.showHiddenLocale, env.requestBaseUrl,
                TranslatedRouteOf(env, url).0.path.GetOr(""))
  }

  /**
   * `getTranslatedRoute`, then the generic path, for a URL no earlier step
   * resolved. The generic URL is the rewritten parse with the generic path
   * written into it; when it is not a valid URL, `createUrlFromUri` makes one
   * from it, or from the bare path when it is empty.
   */
  function Fallback(env: Env, call: Call, locale: Locale, url: string, attributes: Attributes): (o: Outcome)
    requires IsLocaleSupported(env.supportedLocales, locale)
    ensures o.origin in {TranslatedRoute, ValidUrl, FromUri}
    ensures var (rewritten, routeName) := TranslatedRouteOf(env, url);
      (o.origin == TranslatedRoute <==> routeName.Some?) &&
      (routeName.Some? ==>
        o.value == UrlFromRouteName(env, locale, routeName.value, attributes, call.showHiddenLocale,
                                    call.attributesSluged).value) &&
      (routeName.None? ==>
        var path := FallbackPath(env, call, locale, url);
        var localized := env.unparse(rewritten.WithPath(path));
        (o.origin == ValidUrl <==> env.isValidUrl(localized)) &&
        (o.origin == ValidUrl ==> o.value == Url(localized)) &&
        (o.origin == FromUri ==>
          o.value == Url(CreateUrlFromUri(env.baseUrl, env.urlTo, if IsEmpty(localized) then path else localized))))
  {
    var (rewritten, routeName) := TranslatedRouteOf(env, url);
    match routeName
    case Some(n) =>
      Outcome(UrlFromRouteName(env, locale, n, attributes, call.showHiddenLocale, call.attributesSluged).value,
              TranslatedRoute)
    case None =>
      var path := FallbackPath(env, call, locale, url);
      var localized := env.unparse(rewritten.WithPath(path));
      if env.isValidUrl(localized) then Outcome(Url(localized), ValidUrl)
      else Outcome(Url(CreateUrlFromUri(env.baseUrl, env.urlTo, if IsEmpty(localized) then path else localized)),
                   FromUri)
  }

  /**
   * The branches of `getLocalizedURL` after the locale check, in their fixed
   * order: current route, dynamic route, translated route found by URL (only
   * for a truthy locale), then the fallback. Only the lookup by URL can fail
   * or touch the caches.
   */
  function Resolve(env: Env, caches: Caches, call: Call, lookup: RouteLookup)
    : (r: (Caches, Result<Outcome, LocalizationError>))
    requires call.locale.Some? && IsLocaleSupported(env.supportedLocales, call.locale.value)
    ensures r.1.Success? ==> r.1.value.origin != CacheHit
    ensures IsEmpty(call.url) && env.hasCurrentRoute ==> r.0 == caches && r.1.Success? && r.1.value.origin == CurrentRoute
    ensures r.1.Success? && r.1.value.origin == CurrentRoute ==> IsEmpty(call.url) && env.hasCurrentRoute
    ensures var url := if IsEmpty(call.url) then env.fullUrl else call.url;
      var dynamic := env.dynamicData(url, call.attributes, call.fromLocale);
      !(IsEmpty(call.url) && env.hasCurrentRoute) ==>
        ((dynamic.Resolved? && dynamic.routeName.Some?) <==> r.1.Success? && r.1.value.origin == DynamicRoute)
    ensures r.1.Success? && r.1.value.origin == TranslatedByUrl ==> Truthy(call.locale.value)
    ensures r.1.Failure? ==> Truthy(call.locale.value)
    ensures forall e :: LookupFailsOnlyWith(lookup, e) && r.1.Failure? ==> r.1.error == e
    ensures !Truthy(call.locale.value) ==> r.0 == caches && r.1.Success?
    ensures LookupKeepsKeys(lookup) ==> caches.local.Keys <= r.0.local.Keys
    ensures var locale := call.locale.value;
      var attributes := EffectiveAttributes(env, call);
      IsEmpty(call.url) && env.hasCurrentRoute ==>
        r.1.value.value == UrlFromRouteName(env, locale, env.currentRoute,
                                            if attributes == [] then env.routeParameters else attributes,
                                            call.showHiddenLocale, call.attributesSluged).value
    ensures var url := if IsEmpty(call.url) then env.fullUrl else call.url;
      var dynamic := env.dynamicData(url, call.attributes, call.fromLocale);
      !(IsEmpty(call.url) && env.hasCurrentRoute) && dynamic.Resolved? && dynamic.routeName.Some? ==>
        r.0 == caches &&
        r.1.value.value == UrlFromRouteName(env, call.locale.value, dynamic.routeName.value, dynamic.findedItems,
                                            call.showHiddenLocale, call.attributesSluged).value
    ensures var locale := call.locale.value;
      var attributes := EffectiveAttributes(env, call);
      var url := if IsEmpty(call.url) then env.fullUrl else call.url;
      var dynamic := env.dynamicData(url, call.attributes, call.fromLocale);
      var (caches', found) := if Truthy(locale) then lookup(caches, url, attributes) else (caches, Success(None));
      !(IsEmpty(call.url) && env.hasCurrentRoute) && !(dynamic.Resolved? && dynamic.routeName.Some?) ==>
        r.0 == caches' &&
        (found.Failure? ==> r.1 == Failure(found.error)) &&
        (found.Success? && found.value.Some? && !IsEmpty(found.value.value) ==>
          r.1 == Success(Outcome(UrlFromRouteName(env, locale, found.value.value, attributes, call.showHiddenLocale,
                                                  call.attributesSluged).value, TranslatedByUrl))) &&
        (found.Success? && !(found.value.Some? && !IsEmpty(found.value.value)) ==>
          r.1 == Success(Fallback(env, call, locale, url, attributes)))
  {
    var locale := call.locale.value;
    var attributes := EffectiveAttributes(env, call);
    if IsEmpty(call.url) && env.hasCurrentRoute then
      var routeAttributes := if attributes == [] then env.routeParameters else attributes;
      var res := UrlFromRouteName(env, locale, env.currentRoute, routeAttributes, call.showHiddenLocale,
                                  call.attributesSluged);
      (caches, Success(Outcome(res.value, CurrentRoute)))
    else
      var url := if IsEmpty(call.url) then env.fullUrl else call.url;
      var dynamic := env.dynamicData(url, call.attributes, call.fromLocale);
      if dynamic.Resolved? && dynamic.routeName.Some? then
        var res := UrlFromRouteName(env, locale, dynamic.routeName.value, dynamic.findedItems, call.showHiddenLocale,
                                    call.attributesSluged);
        (caches, Success(Outcome(res.value, DynamicRoute)))
      else
        var (caches', found) := if Truthy(locale) then lookup(caches, url, attributes) else (caches, Success(None));
        if found.Failure? then (caches', Failure(found.error))
        else if found.value.Some? && !IsEmpty(found.value.value) then
          var res := UrlFromRouteName(env, locale, found.value.value, attributes, call.showHiddenLocale,
                                      call.attributesSluged);
          (caches', Success(Outcome(res.value, TranslatedByUrl)))
        else (caches', Success(Fallback(env, call, locale, url, attributes)))
  }

  /**
   * `getLocalizedURL` with the translated-route lookup as a parameter: the
   * cache tiers (when `alloCache`), the locale defaults and check, the chain,
   * and the cache write. The write happens when `alloCache` holds, and for a
   * valid generic URL also when it does not.
   */
  function Localize(env: Env, caches: Caches, call: Call, lookup: RouteLookup)
    : (r: (Caches, Result<Outcome, LocalizationError>))
    ensures var key := CacheKeyOf(env, call);
      call.alloCache && key in caches.local ==> r == (caches, Success(Outcome(caches.local[key], CacheHit)))
    ensures var key := CacheKeyOf(env, call);
      call.alloCache && key !in caches.local && env.useExternalCache && key in caches.external ==>
        r == (caches.(local := caches.local[key := caches.external[key].value]),
              Success(Outcome(caches.external[key].value, CacheHit)))
    ensures r.1.Success? && r.1.value.origin == CacheHit <==> CacheAnswers(env, caches, call)
    ensures !CacheAnswers(env, caches, call) && !IsLocaleSupported(env.supportedLocales, TargetLocale(env, call)) ==>
      r == (caches, Failure(UnsupportedLocale(TargetLocale(env, call))))
    ensures forall e :: LookupFailsOnlyWith(lookup, e) && r.1.Failure? ==>
      r.1.error == UnsupportedLocale(TargetLocale(env, call)) || r.1.error == e
    ensures var key := CacheKeyOf(env, call);
      r.1.Success? && call.alloCache ==> key in r.0.local && r.0.local[key] == r.1.value.value
    ensures var key := CacheKeyOf(env, call);
      r.1.Success? && r.1.value.origin != CacheHit && (call.alloCache || r.1.value.origin == ValidUrl) ==>
        key in r.0.local && r.0.local[key] == r.1.value.value &&
        key in r.0.external && r.0.external[key] == Stored(r.1.value.value, LifetimeFor(env, call))
    ensures ReachesChain(env, caches, call) ==> r.1 == Resolve(env, caches, Defaulted(env, call), lookup).1
    ensures var key := CacheKeyOf(env, call);
      ReachesChain(env, caches, call) && WritesCache(call, r.1) ==>
        r.0 == Store(env, Resolve(env, caches, Defaulted(env, call), lookup).0, key, r.1.value.value, call)
    ensures ReachesChain(env, caches, call) && !WritesCache(call, r.1) ==>
      r.0 == Resolve(env, caches, Defaulted(env, call), lookup).0
    ensures call.locale == Some(NoLocale) ==> r.1.Success?
    ensures LookupKeepsKeys(lookup) ==> caches.local.Keys <= r.0.local.Keys
  {
    var key := CacheKeyOf(env, call);
    var (hit, local) := if call.alloCache then TwoTierGet(caches.local, caches.external, env.useExternalCache, key)
                        else (None, caches.local);
    if hit.Some? then (caches.(local := local), Success(Outcome(hit.value, CacheHit)))
    else
      var locale := TargetLocale(env, call);
      if !IsLocaleSupported(env.supportedLocales, locale) then (caches, Failure(UnsupportedLocale(locale)))
      else
        var (caches', res) := Resolve(env, caches, Defaulted(env, call), lookup);
        if WritesCache(call, res) then
          (Store(env, caches', key, res.value.value, call), res)
        else (caches', res)
  }

  /** The lookup `getNonLocalizedURL` never reaches, since its locale is `false`. */
  function NoLookup(): (lookup: RouteLookup)
    ensures LookupKeepsKeys(lookup)
  {
    (caches: Caches, url: string, attributes: Attributes) => (caches, Success(None))
  }

  /** The arguments `getNonLocalizedURL` passes: locale `false` and the URL. */
  function NonLocalizedCall(url: string): Call {
    Call(Some(NoLocale), url, [], false, "", false, true)
  }

  /** A `false` URL argument reads as empty. */
  function UrlArg(v: UrlValue): string {
    match v
    case Missing => ""
    case Url(u) => u
  }

  /** `getNonLocalizedURL`: the URL without a locale; it never fails and caches what it returns. */
  function NonLocalized(env: Env, caches: Caches, url: string): (r: (Caches, UrlValue))
    ensures caches.local.Keys <= r.0.local.Keys
    ensures var key := CacheKeyOf(env, NonLocalizedCall(url)); key in r.0.local && r.0.local[key] == r.1
  {
    var (c, res) := Localize(env, caches, NonLocalizedCall(url), NoLookup());
    (c, res.value.value)
  }

  /**
   * The loop of `findTranslatedRouteByUrl`: the first translated route whose
   * URL for `locale`, without its locale, equals the URL without its locale.
   */
  function FindTranslatedRouteIn(env: Env, caches: Caches, url: string, attributes: Attributes, locale: Locale,
                                 routes: seq<string>): (r: (Caches, Result<Option<string>, LocalizationError>))
    ensures r.1.Success? && r.1.value.Some? ==> r.1.value.value in routes
    ensures r.1.Failure? <==> routes != [] && !IsLocaleSupported(env.supportedLocales, locale)
    ensures r.1.Failure? ==> r.0 == caches && r.1.error == UnsupportedLocale(locale)
    ensures caches.local.Keys <= r.0.local.Keys
    decreases |routes|
  {
    if routes == [] then (caches, Success(None))
    else
      match UrlFromRouteName(env, locale, routes[0], attributes, false, false)
      case Failure(e) => (caches, Failure(e))
      case Success(translatedUrl) =>
        var (c1, a) := NonLocalized(env, caches, UrlArg(translatedUrl));
        var (c2, b) := NonLocalized(env, c1, url);
        if a == b then (c2, Success(Some(routes[0])))
        else FindTranslatedRouteIn(env, c2, url, attributes, locale, routes[1..])
  }

  /** `findTranslatedRouteByUrl`: nothing for an empty URL, otherwise the loop over the translated routes. */
  function FindTranslatedRouteByUrl(env: Env, caches: Caches, url: string, attributes: Attributes, locale: Locale)
    : (r: (Caches, Result<Option<string>, LocalizationError>))
    ensures IsEmpty(url) ==> r == (caches, Success(None))
    ensures r.1.Success? && r.1.value.Some? ==> r.1.value.value in env.translatedRoutes
    ensures r.1.Failure? ==> r.1.error == UnsupportedLocale(locale)
    ensures r.1.Failure? <==>
      !IsEmpty(url) && env.translatedRoutes != [] && !IsLocaleSupported(env.supportedLocales, locale)
    ensures caches.local.Keys <= r.0.local.Keys
  {
    if IsEmpty(url) then (caches, Success(None))
    else FindTranslatedRouteIn(env, caches, url, attributes, locale, env.translatedRoutes)
  }

  /** The lookup `getLocalizedURL` uses: `findTranslatedRouteByUrl` for the current locale. */
  function TranslatedRouteLookup(env: Env): (lookup: RouteLookup)
    ensures LookupKeepsKeys(lookup)
    ensures LookupFailsOnlyWith(lookup, UnsupportedLocale(Code(env.currentLocale)))
  {
    (caches: Caches, url: string, attributes: Attributes) =>
      FindTranslatedRouteByUrl(env, caches, url, attributes, Code(env.currentLocale))
  }

  /**
   * `getLocalizedURL`. Besides what `Localize` promises for any lookup that
   * keeps cache keys: no local cache entry is ever dropped, and only an
   * unsupported target locale or an unsupported current locale (met while
   * matching translated routes) makes it fail.
   */
  function GetLocalizedUrl(env: Env, caches: Caches, call: Call): (r: (Caches, Result<Outcome, LocalizationError>))
    ensures caches.local.Keys <= r.0.local.Keys
    ensures r.1.Failure? ==>
      r.1.error == UnsupportedLocale(TargetLocale(env, call)) || r.1.error == UnsupportedLocale(Code(env.currentLocale))
    ensures var key := CacheKeyOf(env, call);
      r.1.Success? && call.alloCache ==> key in r.0.local && r.0.local[key] == r.1.value.value
    ensures var key := CacheKeyOf(env, call);
      r.1.Success? && r.1.value.origin == ValidUrl ==> key in r.0.local && r.0.local[key] == r.1.value.value
    ensures ReachesChain(env, caches, call) ==> r.1 == Resolve(env, caches, Defaulted(env, call), TranslatedRouteLookup(env)).1
    ensures ReachesChain(env, caches, call) && !WritesCache(call, r.1) ==>
      r.0 == Resolve(env, caches, Defaulted(env, call), TranslatedRouteLookup(env)).0
    ensures var key := CacheKeyOf(env, call);
      ReachesChain(env, caches, call) && WritesCache(call, r.1) ==>
        r.0 == Store(env, Resolve(env, caches, Defaulted(env, call), TranslatedRouteLookup(env)).0, key,
                     r.1.value.value, call)
  {
    Localize(env, caches, call, TranslatedRouteLookup(env))
  }
}
