# Locale-aware URL translation, modelled in Dafny

This project models the URL translation core of the Localization package for
Laravel (onward-web/Localization), and proves properties of the model. It
covers four parts of the package:

- **The dynamic route translator.** It keeps a registry from route name to
  parameter names, filled from the configured candidate routes. It builds a
  localized path from a route name and attribute values (the forward build).
  It also resolves a localized path back to a route name and the items its
  slugs stand for (the reverse resolution, after `clearPath` has removed the
  locale prefixes).
- **The route cache helper.** It builds cache keys from a configured template.
  It looks values up in two tiers, a process-local map first and then the
  external store, and copies external hits into the local map. It decides
  whether a result may be written to the external store, and it normalises
  type names.
- **The localization engine.** This covers `getLocalizedURL` and its fixed
  resolution chain: cache hit, then current route, then dynamic route, then a
  translated route found by URL, then `getTranslatedRoute`, then the generic
  locale prefix. It also covers the cache writes, `getUrlFromRouteName`,
  `findTranslatedRouteByUrl`, `createUrlFromUri`, `setBaseUrl` and the
  locale-support checks.
- **The package's route class.** It adds the `dynamic` and `translatable`
  markers to a route.

## How the model is organised

One module per file:

- `Wrappers`: `Option` and `Result`.
- `PhpStrings`, `PhpArrays`, `PhpUrls`: the PHP built-ins the code relies on.
  - `PhpStrings` has `empty()` on strings, `ltrim`/`rtrim`, `explode`/`implode`
    and `str_replace`.
  - `PhpArrays` has string-keyed arrays as ordered association lists. Writing
    an existing key replaces its value in place; writing a new key appends it.
    `array_merge` is a fold of such writes. It also has `array_diff`.
  - `PhpUrls` has the result of `parse_url`.
- `Routing`: `src/Routing/Route.php`.
- `RouteCacheHelper`: `src/Utilities/RouteCacheHelper.php`.
- `DynamicRouteTranslator`: `src/Utilities/DynamicRouteTranslator.php`.
- `DynamicRouteProperties` and `DynamicRouteRoundTrip`: the lemmas about the
  translator.
  - Registry contents and memoisation.
  - Forward build results and errors.
  - The build-then-resolve round trip.
  - All-or-nothing resolution.
  - The two findings below: the context that is never updated, and the count test.
- `Localization`: `src/Localization.php`.
- `LocalizationProperties`: lemmas relating several calls of the engine.

State is explicit. The translator's memoised registry, the helper's local
cache, and the engine's two cache tiers are values. The operations take them
and return updated ones.

The framework and the database are fields of records holding functions. For
the translator these are the `Models` record; for the engine, the `Env` record.
They cover:

- the model classes' `findLocalisationSlugByItem` and `findItemBySlug`;
- `get_model_relation`;
- `parse_url`, `Url::unparse`, `filter_var(FILTER_VALIDATE_URL)` and
  `Url::extractAttributes`;
- the URL generator's `to`;
- `md5(serialize(...))`;
- the route translator's `getUrlFromRouteName`, `getDynamicDataFromUrl` and
  `getTranslatedRoute`;
- the request's full URL and base URL.

Errors the source throws are values:

- `TranslatorError` for the translator;
- `LocalizationError` for `UnsupportedLocaleException`.

### Where the code and its description differ (the model follows the code)

- **Duplicate route names in the registry.** When two candidate routes share a
  name, the later one's parameter list wins, but the name keeps the position of
  the first (`RegistryValues`).
- **The external cache write ignores `useExternalCache`.** The engine writes
  the external store on every cached resolution. It calls `Cache::forever` only
  when `cacheForever` and `useExternalCache` both hold. Otherwise it calls
  `Cache::put` with the TTL, even when the external cache is disabled
  (`Localization.LifetimeFor`, `Localization.Localize`).
- **The engine never calls `isSaveToExternal`.** The gate is modelled on its
  own (`RouteCacheHelper.IsSaveToExternal`).
- **The valid-URL branch ignores `alloCache`.** When the generic fallback
  yields a valid URL, both cache tiers are written even if `alloCache` is
  false (`Localization.Localize`).

## Model

| member | source | states |
|---|---|---|
| `Routing.NewRoute` | src/Routing/Route.php:13-14 | A new route is neither dynamic nor translatable, and has the given name and parameters. |
| `Routing.MakeDynamic` | src/Routing/Route.php:16-20 | `makeDynamic` sets `dynamic`; `translatable`, the name and the parameters are unchanged. |
| `Routing.MakeTranslatable` | src/Routing/Route.php:22-26 | `makeTranslatable` sets `translatable`; `dynamic`, the name and the parameters are unchanged. |
| `Routing.SettersIdempotentAndCommute` | src/Routing/Route.php:16-26 | Each setter is idempotent, and the two setters commute. |
| `RouteCacheHelper.CreateCacheKey` | src/Utilities/RouteCacheHelper.php:27-33 | The cache key starts with the configured prefix. |
| `RouteCacheHelper.CacheKeyShape` | src/Utilities/RouteCacheHelper.php:27-33 | For a template `before{hash}after`, the key is the prefix, `before`, the digest of the arguments, then `after`. |
| `RouteCacheHelper.CacheKeyIdentifiesDigest` | src/Utilities/RouteCacheHelper.php:27-33 | For such a template, two keys are equal if and only if the digests are equal. So equal arguments give equal keys. |
| `RouteCacheHelper.TwoTierGet` | src/Utilities/RouteCacheHelper.php:35-48 | A local hit is returned as is. On a local miss, an external hit (only when the external cache is enabled) is copied into the local map and returned. With no hit it returns nothing and the local map is unchanged. |
| `RouteCacheHelper.GetFromCache` | src/Utilities/RouteCacheHelper.php:35-48 | A local hit leaves the helper unchanged. A miss leaves it unchanged. Only the local cache can change, and a returned value is then cached locally. |
| `RouteCacheHelper.IsExistQuery` | src/Utilities/RouteCacheHelper.php:50-53 | True if and only if the URL parses and has a query that PHP reads as true: present, and neither `` nor `0`. |
| `RouteCacheHelper.SaveToExternalCache` | src/Utilities/RouteCacheHelper.php:56-58 | The key is stored with the configured TTL, and every other entry is kept. |
| `RouteCacheHelper.IsSaveToExternal` | src/Utilities/RouteCacheHelper.php:60-66 | True if and only if the external cache is enabled, the caller reports no query, and the type is in the allow-list. Each gate alone can close it. |
| `RouteCacheHelper.ExternalSaveGate` | src/Utilities/RouteCacheHelper.php:50-66 | The two gates together: a URL with a query never goes to the external store, and a disabled external cache blocks every write. Otherwise only the allow-list decides, and a query of `0` or `` counts as no query. |
| `RouteCacheHelper.ZeroQueryIsNoQuery` | src/Utilities/RouteCacheHelper.php:50-53 | For `/news?0` the query gate stays open and the type may go to the external store; for `/news?page=2` it is closed. |
| `RouteCacheHelper.TransformTypeName` | src/Utilities/RouteCacheHelper.php:69-71 | Same length; every `.` becomes `_` and every other character is kept; no `.` is left. |
| `RouteCacheHelper.TransformTypeNameIdempotent` | src/Utilities/RouteCacheHelper.php:69-71 | Transforming twice is the same as transforming once. |
| `DynamicRouteTranslator.CollectRoutes` | src/Utilities/DynamicRouteTranslator.php:43-49 | The registry never holds a route name twice. |
| `DynamicRouteTranslator.PrepareDynamicRoutes` | src/Utilities/DynamicRouteTranslator.php:34-51 | A non-empty registry is left as it is (memoised). The configuration is never changed. Unique names stay unique. |
| `DynamicRouteProperties.RegistryKeys` | src/Utilities/DynamicRouteTranslator.php:43-49 | A name is in the registry if and only if some route has that non-empty name and the name is among the candidates. |
| `DynamicRouteProperties.RegistryValues` | src/Utilities/DynamicRouteTranslator.php:47 | Each name holds the parameter list of the last candidate route with that name. |
| `DynamicRouteProperties.PrepareIdempotent` | src/Utilities/DynamicRouteTranslator.php:36-38 | Preparing the registry twice is the same as preparing it once. |
| `DynamicRouteTranslator.FindModelByParam` | src/Utilities/DynamicRouteTranslator.php:82-91 | Nothing is returned if and only if no model lists the parameter. Otherwise the result is the first model, in configuration order, that lists it. |
| `DynamicRouteTranslator.Segments` | src/Utilities/DynamicRouteTranslator.php:61-77 | A successful walk yields one segment per route parameter. |
| `DynamicRouteTranslator.SegmentsFailurePersists` | src/Utilities/DynamicRouteTranslator.php:65-67 | Once a prefix of the parameter list fails, the whole list fails with the same error. |
| `DynamicRouteTranslator.GetUrlFromRouteName` | src/Utilities/DynamicRouteTranslator.php:53-80 | The loop prepares the registry and returns what the declarative build `BuildUrl` gives: an unknown route, a parameter error, or the URL with one `/segment` per parameter. |
| `DynamicRouteProperties.SegmentsAllSucceed` | src/Utilities/DynamicRouteTranslator.php:61-77 | When every parameter yields a segment, the segments are those of the parameters, in declared order. |
| `DynamicRouteProperties.SegmentsFirstFailure` | src/Utilities/DynamicRouteTranslator.php:61-67 | The first parameter without a segment decides the error, and no partial URL is returned. |
| `DynamicRouteProperties.BuildUrlSluged` | src/Utilities/DynamicRouteTranslator.php:70-71 | With slugs already resolved, the URL is the input `url`, then `/` and the attribute value of each parameter, in declared order. |
| `DynamicRouteProperties.BuildUrlMissingParam` | src/Utilities/DynamicRouteTranslator.php:61-77 | A parameter without a value fails the build with an error naming that parameter and the route, whether slugs are given or still looked up, since the missing-value check comes first. The first such parameter is the one named; when slugs are looked up, this assumes the earlier parameters have a model. |
| `DynamicRouteProperties.BuildUrlUnknownRoute` | src/Utilities/DynamicRouteTranslator.php:58 | A route name that is not in the registry ends the build with the error `RouteNotFound` for that name, standing for the exception the framework raises on the undefined-key read. |
| `DynamicRouteTranslator.ClearPath` | src/Utilities/DynamicRouteTranslator.php:153-171 | The result has no `/` at either end. A missing URL or path gives `''`. |
| `DynamicRouteRoundTrip.StripLocalesKeeps` | src/Utilities/DynamicRouteTranslator.php:162-166 | A path whose first segment is not a supported locale passes the locale replacements unchanged. |
| `DynamicRouteRoundTrip.StripOtherLocale` | src/Utilities/DynamicRouteTranslator.php:163-164 | The replacements for one locale leave a path that starts with a different locale alone. |
| `DynamicRouteRoundTrip.StripLocalesRemovesPrefix` | src/Utilities/DynamicRouteTranslator.php:162-166 | A leading `/locale/` of a supported locale is removed by the replacements, applied in supported-locale order. |
| `DynamicRouteRoundTrip.ClearPathOfBuiltUrl` | src/Utilities/DynamicRouteTranslator.php:153-171 | `clearPath` of `/locale/s1/.../sn` is `s1/.../sn`, provided the first slug is not itself a supported locale. |
| `DynamicRouteRoundTrip.ClearPathStripsLocaleSlug` | src/Utilities/DynamicRouteTranslator.php:162-170 | A first slug equal to a supported locale is removed too: with `loc` and `slug` both supported, `/loc/slug/x` clears to `x`. |
| `DynamicRouteRoundTrip.StripLocalesRemovesBarePrefix` | src/Utilities/DynamicRouteTranslator.php:162-166 | A leading `locale/` without a `/` in front is removed as well, and a rest whose first segment is not a supported locale is kept. |
| `DynamicRouteRoundTrip.StripLocalesBareLocale` | src/Utilities/DynamicRouteTranslator.php:162-166 | A path that is just a supported locale becomes empty. |
| `DynamicRouteTranslator.FirstHit` | src/Utilities/DynamicRouteTranslator.php:119-127 | No hit if and only if every candidate model finds nothing. Otherwise the hit is the non-empty result of the first model that finds something. |
| `DynamicRouteTranslator.MatchRoute` | src/Utilities/DynamicRouteTranslator.php:138-147 | No route if and only if no registered route has as many parameters as there are segments and the same parameter set as the resolved keys. Otherwise the result is the first such route in registry order. |
| `PhpArrays.ArrayDiffSymmetricIff` | src/Utilities/DynamicRouteTranslator.php:143 | The two `array_diff` results are equal if and only if the two lists hold the same set of names. |
| `DynamicRouteTranslator.DynamicDataFromUrl` | src/Utilities/DynamicRouteTranslator.php:93-151 | An empty URL gives `false` and leaves the registry alone. Any other URL prepares the registry and gives `null` or resolved items. As written, lookups get an empty context and only the item count is tested. Corrected, lookups get the items found so far, and every segment must also have had a hit. |
| `DynamicRouteTranslator.GetDynamicDataFromUrlAsWritten` | src/Utilities/DynamicRouteTranslator.php:93-151 | As written (empty context, count test only): an empty URL gives `false`. |
| `DynamicRouteTranslator.GetDynamicDataFromUrl` | src/Utilities/DynamicRouteTranslator.php:93-151 | Corrected (shared context, every segment must hit): an empty URL gives `false`. Resolved items number exactly the path segments, and a route name, when set, is registered. |
| `DynamicRouteRoundTrip.ResolveSegmentsCollects` | src/Utilities/DynamicRouteTranslator.php:115-129 | Suppose each segment's lookup yields its one pair in the state the walk reaches it in: the earlier parameters are recorded as positions, and the context is the earlier pairs when shared and empty otherwise. Then the walk collects exactly those pairs, in order, and records a position for every segment. |
| `DynamicRouteRoundTrip.MatchRouteFindsRoute` | src/Utilities/DynamicRouteTranslator.php:138-147 | For a registry with unique names, the route test over a registered route's own parameters names that route if and only if no route registered before it with as many parameters has the same parameter set. |
| `DynamicRouteRoundTrip.ResolveBuiltUrl` | src/Utilities/DynamicRouteTranslator.php:93-151 | Resolving `/locale/s1/.../sn` gives back a registered route and the pairs its slugs stand for, as written and corrected. This assumes each slug's lookup yields its pair in the state the walk reaches it in, with the context that reading passes (`ResolvesInContext`). It also assumes no earlier route has the same parameter set and the first slug is not a supported locale. |
| `DynamicRouteRoundTrip.BuildThenResolveSluged` | src/Utilities/DynamicRouteTranslator.php:53-151 | Round trip: building a route's URL from slugs and then resolving it, with each lookup seeing the items found before it, gives back the route and the pairs of its parameters. This covers lookups that depend on the parent item. |
| `DynamicRouteRoundTrip.ResolveSegmentsCounts` | src/Utilities/DynamicRouteTranslator.php:115-129 | When every hit yields a single item (`SingleItemHits`), the walk adds at most one item per segment. It then records a position for every segment when it adds one for each. |
| `DynamicRouteRoundTrip.ResolvedMeansEverySegmentHit` | src/Utilities/DynamicRouteTranslator.php:132-150 | All or nothing: when items are returned, every path segment had a hit. Corrected, this holds for any lookup. As written, it holds when every hit yields a single item (`SingleItemHits`). |
| `DynamicRouteRoundTrip.ContextIgnoredAsWritten` | src/Utilities/DynamicRouteTranslator.php:113-120 | As written, a nested slug that its model finds only given the parent's item is not resolved, and the URL gives `null`. |
| `DynamicRouteRoundTrip.ContextSharedResolves` | src/Utilities/DynamicRouteTranslator.php:115-129 | With the accumulated items passed as context, the same URL resolves to both items and its route. |
| `DynamicRouteRoundTrip.CountTestAcceptsMiss` | src/Utilities/DynamicRouteTranslator.php:132-147 | As written, a lookup that yields two items for `a` makes up for `zzz`, which no model finds: `/en/a/zzz` resolves to `show`. |
| `DynamicRouteRoundTrip.EverySegmentTestRejectsMiss` | src/Utilities/DynamicRouteTranslator.php:132-135 | Corrected, the same URL gives `null`, because its second segment had no hit. |
| `Localization.IsLocaleSupported` | src/Localization.php:603-606 | `false` is always supported. A locale code is supported if and only if the locale manager lists it. |
| `Localization.IsLocaleSupportedOrFail` | src/Localization.php:615-621 | It fails if and only if the locale is unsupported, and then with `UnsupportedLocale` of that locale, which is a code. |
| `Localization.SetBaseUrl` | src/Localization.php:262-269 | The stored URL ends in `/`. It is the input when the input already ends in `/`, and otherwise the input with one `/` appended. |
| `Localization.SetBaseUrlIdempotent` | src/Localization.php:262-269 | Applying it to a normalised URL changes nothing. |
| `Localization.CreateUrlFromUri` | src/Localization.php:481-488 | With an empty base URL, the URL generator gets the URI without its leading `/`. Otherwise the result is the base URL followed by the URI with only its leading `/` removed. |
| `Localization.CreateUrlAfterSetBaseUrl` | src/Localization.php:262-269 | After `setBaseUrl`, the base and the URI meet at exactly one `/`. |
| `Localization.UrlFromRouteName` | src/Localization.php:544-565 | It fails if and only if the locale is unsupported. An empty translator route gives `false`. Otherwise the result is `createUrlFromUri(route)` without its trailing whitespace. |
| `Localization.GenericPath` | src/Localization.php:443-450 | The generic path has no `/` at either end. |
| `LocalizationProperties.GenericPathAtRoot` | src/Localization.php:443-450 | For a site at the root, the path is the request path without surrounding `/`. It is preceded by `locale/` exactly when the locale is shown (non-empty, and not the hidden default unless `showHiddenLocale`). |
| `LocalizationProperties.GenericPathShowsLocaleIff` | src/Localization.php:443-450 | For a site at the root and a request path that does not already start with the locale, the generic path starts with the locale if and only if the locale is shown. |
| `LocalizationProperties.ClearPathUndoesGenericPath` | src/Localization.php:443-450 | For a site at the root, with the locale shown and supported, `clearPath` of the generic path gives back the request path without surrounding `/`. This holds for any list of supported locales, provided the request path's first segment is not itself a supported locale. |
| `Localization.Defaulted` | src/Localization.php:348-352 | After defaulting, the target locale is set; an empty `fromLocale` becomes the current locale; nothing else changes. |
| `Localization.LifetimeFor` | src/Localization.php:362 | The external write is `Cache::forever` if and only if there are no attributes and the external cache is enabled; otherwise it is `Cache::put` with the TTL. |
| `Localization.Store` | src/Localization.php:377-380 | A cache write sets the key in both tiers, with the lifetime above. It adds no other key to either tier, and every other entry keeps its value. |
| `Localization.Fallback` | src/Localization.php:424-471 | When `getTranslatedRoute` yields a route, the result is `getUrlFromRouteName` for it. Otherwise the generic path is built from the parsed URL as `getTranslatedRoute` left it. The unparsed URL is returned when valid, and otherwise goes through `createUrlFromUri`, or its bare path does when it is empty. |
| `LocalizationProperties.FallbackPathReplacesLocale` | src/Localization.php:424-450 | If the route translator leaves the path as `clearPath` would, then for a site at the root the generic path is the cleared path. It has the target locale in front exactly when that locale is shown. |
| `LocalizationProperties.SwitchLocaleOfPath` | src/Localization.php:424-450 | Switching `/from/seg` to a shown locale `to` gives the path `to/seg`: the old locale segment is replaced, not kept behind the new one. |
| `Localization.Resolve` | src/Localization.php:365-440 | The branches run in fixed order. The current-route branch is taken exactly when the URL is empty and a current route exists; it gives `getUrlFromRouteName` for that route, with the route parameters when no attributes are given. Otherwise the dynamic branch is taken exactly when the reverse resolution names a route, and it gives that route's URL for the found items. After that comes the lookup by URL, only for a truthy locale. Its caches are the result's, and its failure is the result's. A non-empty route name it finds gives that route's URL; anything else gives the fallback. |
| `Localization.Localize` | src/Localization.php:324-471 | With caching allowed, a local hit is returned before any locale defaulting or check, and an external hit (external cache enabled) is copied into the local map. The cache answers exactly in those cases. Otherwise an unsupported target locale fails before any branch, and the only other failure is the lookup's. A call that gets past both returns what the chain returns. Its result is written under the call's key, in both tiers, exactly when `alloCache` holds or the generic URL was valid, and only that one key is written. Otherwise the caches are those the chain left. Locale `false` never fails. |
| `Localization.NoLookup` | src/Localization.php:407-410 | The lookup a `false` locale would use keeps every cache key. |
| `Localization.NonLocalized` | src/Localization.php:308-311 | `getNonLocalizedURL` never fails. It caches its result under its own key and keeps every cache key. |
| `Localization.FindTranslatedRouteIn` | src/Localization.php:523-530 | A route it returns is one of the translated routes. It fails if and only if there is a route to try and the locale is unsupported, and then with that locale and unchanged caches. It never drops a cache key. Which route it finds is stated by `FindTranslatedRouteFirstMatch`. |
| `Localization.FindTranslatedRouteByUrl` | src/Localization.php:517-531 | An empty URL gives `false` and leaves the caches alone. A route found is a translated route. It fails if and only if the URL is non-empty, there are translated routes and the locale is unsupported. Which route it finds is stated by `FindTranslatedRouteByUrlFirstMatch`. |
| `LocalizationProperties.ResolveNonLocalizedIgnoresCaches` | src/Localization.php:308-311 | The resolution for locale `false` leaves the caches alone, and its value does not depend on them. |
| `LocalizationProperties.NonLocalizedCoherent` | src/Localization.php:308-311 | Suppose the caches hold only fresh answers under `getNonLocalizedURL` keys, and distinct URLs have distinct keys. Then `getNonLocalizedURL` gives the fresh answer, whichever tier it comes from, and the caches stay that way. |
| `LocalizationProperties.FirstWhere` | src/Localization.php:523-530 | The reference search returns nothing if and only if no route is accepted. Otherwise it returns the first accepted route. |
| `LocalizationProperties.FindTranslatedRouteFirstMatch` | src/Localization.php:523-530 | With a supported locale and such caches, the loop returns exactly the first route whose URL without locale equals the URL without locale, and nothing when none does. |
| `LocalizationProperties.FindTranslatedRouteByUrlFirstMatch` | src/Localization.php:517-531 | `findTranslatedRouteByUrl` then gives `false` if and only if the URL is empty or no translated route matches. A route it gives is the first that matches. |
| `Localization.TranslatedRouteLookup` | src/Localization.php:407-410 | The lookup `getLocalizedURL` uses keeps cache keys, and fails only for an unsupported current locale. |
| `Localization.GetLocalizedUrl` | src/Localization.php:324-471 | No local cache entry is dropped. A failure is an unsupported target or current locale. A call that gets past the cache and the locale check returns what the chain returns. Its result is written under the call's key exactly when `alloCache` holds or the generic URL was valid, and nothing else is written. |
| `LocalizationProperties.RepeatedCallHitsCache` | src/Localization.php:338-340 | With caching allowed, repeating a successful call returns the same value from the local cache and changes nothing. |
| `LocalizationProperties.NoLocaleIgnoresLookup` | src/Localization.php:407-410 | A call with locale `false` never consults the translated-route lookup. |
| `LocalizationProperties.LocaleDefaults` | src/Localization.php:348-352 | Without cache answers, a `null` locale and an empty `fromLocale` give the same result as the current locale passed explicitly. |

## Left out

- **Framework and database collaborators** are opaque functions. These are:
  - the database-backed model classes (`findLocalisationSlugByItem`, `findItemBySlug`) and `get_model_relation`, which is not part of this model;
  - the route translator's `getUrlFromRouteName`, `getTranslatedRoute` and `getTranslatedRoutes` (`src/RouteTranslator.php` is not part of this model);
  - `parse_url`, `Url::unparse`, `Url::extractAttributes`, `filter_var(FILTER_VALIDATE_URL)`;
  - `md5(serialize(...))` and the URL generator.
- **Hypotheses about the collaborators.** No property of them is built into the model. Some lemmas assume one, by name, as a hypothesis:
  - `SingleItemHits`: each `findItemBySlug` hit yields one item;
  - `ResolvesInContext`: each slug's lookup yields the pair it was built from;
  - the route translator leaves the path as `clearPath` would (`FallbackPathReplacesLocale`);
  - `CoherentCaches` and `NonLocalizedKeysDistinct`, for the cache tiers.
- **`getTranslatedRoute` takes the parsed URL by reference.** Its rewrite of the URL is part of the collaborator's result (`Env.translatedRoute`), and the generic fallback reads the rewritten URL.
- **The `Cache` facade** is a map with no time: TTL expiry is not modelled, and a stored entry stays.
- **Concurrency.** Concurrent access to the process-wide static cache is not modelled; the cache is explicit state threaded through calls.
- **`func_get_args()`.** It hashes only the arguments actually passed. The model hashes all seven, so a call that omits a trailing argument and a call that passes its default share one key here.
- **Empty URL arguments.** `null`, `false` and `""` as the URL are one empty string. They behave the same, and only the opaque hash could tell them apart.
- **`findTranslatedRouteByUrl` passes a sixth argument** to `getUrlFromRouteName`. PHP ignores it, and so does the model.
- **`clearPath` uses regular expressions** built from the locale codes. The model treats them as prefix removal, so a locale containing regular-expression metacharacters is not modelled.
- **`Arr::get` dot notation** in attribute lookups is not modelled: keys are plain names.
- **A parameter that no model lists** makes the source instantiate `null` and crash. The model reports it as `NoModelForParam`.
- **The engine's translator state.** It reaches the dynamic route translator through `Env.dynamicData`, so the translator's memoised registry is not threaded through the engine. The translator's own functions thread it.
- **Other code of the package.** The following are outside the modelled core:
  - `localizeURL`, `transRoute`, `localesNavbar`, `setRouteNameFromRequest` and the getters and setters of the locale manager;
  - `src/Routing/Router.php`, which is framework wiring;
  - the middleware test.
- `DynamicRouteProperties.BuildUrlUnknownRoute`: the source reads `$this->dynamicRoutes[$routeName]` without checking it. PHP 8 only warns about the undefined key, then warns again on the `foreach` over `null`, and the method would return `$url` unchanged. The model assumes the framework's error handler turns the first warning into an exception, and names that outcome `RouteNotFound`.
- `DynamicRouteTranslator.Segment`: the `(int)` cast of the attribute value before `findLocalisationSlugByItem` is not modelled. The value reaches the lookup as the string given, so `12` and `012` are different values here, while the source passes the integer 12 for both.
- `DynamicRouteTranslator.GetDynamicDataFromUrlAsWritten`: its contract states only the empty-URL case. The effect of the unchanged context is shown by `DynamicRouteRoundTrip.ContextIgnoredAsWritten`, and the effect of the count test by `DynamicRouteRoundTrip.CountTestAcceptsMiss`.
- `DynamicRouteRoundTrip.ResolveSegmentsCounts`: it assumes `SingleItemHits`. Without it, a hit with several items can stand in for a segment with none (the count finding below).
- `DynamicRouteRoundTrip.ClearPathOfBuiltUrl`: it assumes the first slug is not a supported locale. When it is, `clearPath` removes that slug too (`ClearPathStripsLocaleSlug`), so such a URL does not round-trip.
- `Localization.GenericPath`: its contract states only the trimmed ends. The placement of the locale segment is proved for a site served at the root (`GenericPathAtRoot`), not for a non-empty base path.
- `LocalizationProperties.GenericPathShowsLocaleIff`: proved for a site at the root only. With a base path, the base comes first and the locale is not the first segment.
- `LocalizationProperties.ClearPathUndoesGenericPath`: proved for a site at the root only, since `clearPath` does not remove a base path. It assumes the request path does not start with a supported locale.
- `Localization.Fallback`: it states the result in terms of the collaborators' answers (`getTranslatedRoute`, `Url::unparse`, `filter_var`). What the rewritten path looks like is proved only under the hypothesis of `FallbackPathReplacesLocale`.
- `LocalizationProperties.FindTranslatedRouteFirstMatch`: it assumes coherent caches with distinct `getNonLocalizedURL` keys. With a stale cache entry, or two URLs sharing a key, the loop compares cached answers instead of fresh ones.
- `LocalizationProperties.FindTranslatedRouteByUrlFirstMatch`: it has the same hypotheses, coherent caches and distinct `getNonLocalizedURL` keys, for the same reason.

## Findings

| source | as written | input that shows it | evidently intended | confidence | as-written member | corrected member |
|---|---|---|---|---|---|---|
| src/Utilities/DynamicRouteTranslator.php:120 | Every `findItemBySlug` call receives the local `$findedItems`, which is never updated, so it is always `[]`. | Route `show` has parameters `category` and `product`, and the URL is `/en/a/b`. Slug `a` is category 1. Slug `b` is product 2, but only in the context of its category. The URL gives `null`. | Each lookup receives the items resolved so far (`$dynamicDataFromUrl['findedItems']`), so `/en/a/b` resolves to `show` with both items. | not executed | `DynamicRouteRoundTrip.ContextIgnoredAsWritten` | `DynamicRouteRoundTrip.ContextSharedResolves` |
| src/Utilities/DynamicRouteTranslator.php:132-135 | The walk is taken as complete when the number of merged items equals the number of segments, not when every segment had a hit. | `findItemBySlug` yields two pairs for slug `a` (category 1 and product 2) and nothing for `zzz`. The URL `/en/a/zzz` then resolves to route `show` with both pairs, although `zzz` names nothing. | The URL resolves only when every segment found an item; `/en/a/zzz` gives `null`. | not executed | `DynamicRouteRoundTrip.CountTestAcceptsMiss` | `DynamicRouteRoundTrip.ResolvedMeansEverySegmentHit` |
