/**
 * The cache policy helper: cache keys built from a configured template, a
 * two-tier lookup (process-local map first, then the shared external store),
 * and the gate that decides whether a result may go to the external store.
 */
module RouteCacheHelper {
  import opened Wrappers
  import opened PhpStrings
  import opened PhpUrls

  /** The configured key template: a prefix and a parameter part holding `{hash}`. */
  datatype KeyFormat = KeyFormat(prefix: string, params: string)

  const HashPlaceholder: string := "{hash}"

  /** How long the external store keeps an entry: `Cache::forever` or `Cache::put` with a TTL. */
  datatype Lifetime = Forever | Ttl(ttl: int)

  datatype Stored<V> = Stored(value: V, lifetime: Lifetime)

  /** The shared external store (the framework's `Cache` facade), keyed by cache key. */
  type ExternalStore<V> = map<string, Stored<V>>

  /** The helper's configuration and its process-local cache. */
  datatype Helper = Helper(
    cacheKeyFormat: KeyFormat,
    useExternalCache: bool,
    externalCacheTtl: int,
    allowTypeToExternalCache: seq<string>,
    localCache: map<string, string>)

  /**
   * `createCacheKey`: the prefix, then the parameter template with every
   * `{hash}` replaced by the digest of the arguments. `digest` stands for
   * `md5(serialize(...))`, so equal arguments give equal keys.
   */
  function CreateCacheKey<A>(format: KeyFormat, digest: A -> string, cacheArgs: A): (key: string)
    ensures HasPrefix(key, format.prefix)
  {
    format.prefix + ReplaceAll(format.params, HashPlaceholder, digest(cacheArgs))
  }

  /** With one `{hash}` in the template and no other `{`, the key is prefix, text before, digest, text after. */
  lemma CacheKeyShape<A>(format: KeyFormat, before: string, after: string, digest: A -> string, cacheArgs: A)
    requires format.params == before + HashPlaceholder + after
    requires '{' !in before && '{' !in after
    ensures CreateCacheKey(format, digest, cacheArgs) == format.prefix + before + digest(cacheArgs) + after
  {
    var h := digest(cacheArgs);
    assert format.params == before + (HashPlaceholder + after);
    ReplaceAllSkips(before, HashPlaceholder + after, HashPlaceholder, h);
    ReplaceAllFront(after, HashPlaceholder, h);
    ReplaceAllSkips(after, [], HashPlaceholder, h);
    assert after + [] == after;
    assert ReplaceAll([], HashPlaceholder, h) == [];
  }

  /** For such a template two argument lists share a key exactly when they share a digest. */
  lemma CacheKeyIdentifiesDigest<A>(format: KeyFormat, before: string, after: string, digest: A -> string, x: A, y: A)
    requires format.params == before + HashPlaceholder + after
    requires '{' !in before && '{' !in after
    ensures CreateCacheKey(format, digest, x) == CreateCacheKey(format, digest, y) <==> digest(x) == digest(y)
  {
    CacheKeyShape(format, before, after, digest, x);
    CacheKeyShape(format, before, after, digest, y);
    var p := format.prefix + before;
    var kx, ky := p + digest(x) + after, p + digest(y) + after;
    if kx == ky {
      assert |digest(x)| == |digest(y)|;
      assert digest(x) == kx[|p|..|p| + |digest(x)|];
      assert digest(y) == ky[|p|..|p| + |digest(y)|];
    }
  }

  /**
   * Two-tier lookup: a local hit is returned as is; otherwise, when the
   * external store is enabled and holds the key, its value is copied into the
   * local map and returned. Returns the value found and the new local map.
   */
  function TwoTierGet<V>(local: map<string, V>, external: ExternalStore<V>, useExternal: bool, key: string)
    : (r: (Option<V>, map<string, V>))
    ensures key in local ==> r == (Some(local[key]), local)
    ensures key !in local && useExternal && key in external ==>
      r == (Some(external[key].value), local[key := external[key].value])
    ensures r.0.None? <==> key !in local && !(useExternal && key in external)
    ensures r.0.None? ==> r.1 == local
    ensures r.0.Some? ==> key in r.1 && r.1[key] == r.0.value
  {
    if key in local then (Some(local[key]), local)
    else if key in external && useExternal then
      var v := external[key].value;
      (Some(v), local[key := v])
    else (None, local)
  }

  /** `getFromCache`: the helper's two-tier lookup over its own local cache. */
  function GetFromCache(h: Helper, external: ExternalStore<string>, cacheKey: string): (r: (Option<string>, Helper))
    ensures cacheKey in h.localCache ==> r == (Some(h.localCache[cacheKey]), h)
    ensures r.0.None? ==> r.1 == h
    ensures r.1 == h.(localCache := r.1.localCache)
    ensures r.0.Some? ==> cacheKey in r.1.localCache && r.1.localCache[cacheKey] == r.0.value
  {
    var (v, local) := TwoTierGet(h.localCache, external, h.useExternalCache, cacheKey);
    (v, h.(localCache := local))
  }

  /** `isExistQuery`: the URL has a query component that PHP reads as true (not "" and not "0"). */
  function IsExistQuery(parse: UrlParser, url: string): (r: bool)
    ensures r <==> parse(url).Some? && parse(url).value.query.Some? && !IsEmpty(parse(url).value.query.value)
  {
    match parse(url)
    case None => false
    case Some(p) => p.query.Some? && !IsEmpty(p.query.value)
  }

  /** `saveToExternalCache`: a `Cache::put` with the configured TTL. */
  function SaveToExternalCache(h: Helper, external: ExternalStore<string>, cacheKey: string, cacheValue: string)
    : (r: ExternalStore<string>)
    ensures cacheKey in r && r[cacheKey] == Stored(cacheValue, Ttl(h.externalCacheTtl))
    ensures forall k :: k in external && k != cacheKey ==> k in r && r[k] == external[k]
    ensures r.Keys == external.Keys + {cacheKey}
  {
    external[cacheKey := Stored(cacheValue, Ttl(h.externalCacheTtl))]
  }

  /** `isSaveToExternal`: the three-way gate for writing to the external store. */
  function IsSaveToExternal(h: Helper, queryInUrl: bool, typeName: string): (r: bool)
    ensures r <==> h.useExternalCache && !queryInUrl && typeName in h.allowTypeToExternalCache
  {
    if !h.useExternalCache || queryInUrl || typeName !in h.allowTypeToExternalCache then false else true
  }

  /**
   * The two gates together: a URL whose query PHP reads as true never goes to
   * the external store, a disabled external cache blocks every write, and
   * otherwise only the type allow-list decides. A query of "0" or "" counts
   * as no query at all.
   */
  lemma ExternalSaveGate(h: Helper, parse: UrlParser, url: string, typeName: string)
    ensures IsExistQuery(parse, url) ==> !IsSaveToExternal(h, IsExistQuery(parse, url), typeName)
    ensures !h.useExternalCache ==> !IsSaveToExternal(h, IsExistQuery(parse, url), typeName)
    ensures IsSaveToExternal(h, IsExistQuery(parse, url), typeName) <==>
      h.useExternalCache && typeName in h.allowTypeToExternalCache &&
      (parse(url).None? || parse(url).value.query.None? || parse(url).value.query.value in {"", "0"})
  {
  }

  /** A concrete case: `?0` is not a query, `?page=2` is, whatever the rest of the URL. */
  lemma ZeroQueryIsNoQuery(h: Helper, parse: UrlParser, typeName: string)
    requires parse("/news?0") == Some(ParsedUrl(None, None, Some("/news"), Some("0"), None))
    requires parse("/news?page=2") == Some(ParsedUrl(None, None, Some("/news"), Some("page=2"), None))
    requires h.useExternalCache && typeName in h.allowTypeToExternalCache
    ensures !IsExistQuery(parse, "/news?0") && IsSaveToExternal(h, IsExistQuery(parse, "/news?0"), typeName)
    ensures IsExistQuery(parse, "/news?page=2") && !IsSaveToExternal(h, IsExistQuery(parse, "/news?page=2"), typeName)
  {
  }

  /** `transformTypeName`: every `.` becomes `_`. */
  function TransformTypeName(typeName: string): (r: string)
    ensures |r| == |typeName|
    ensures forall i :: 0 <= i < |r| ==> r[i] == (if typeName[i] == '.' then '_' else typeName[i])
    ensures '.' !in r
  {
    ReplaceCharPointwise(typeName, '.', '_');
    ReplaceAll(typeName, ".", "_")
  }

  lemma TransformTypeNameIdempotent(typeName: string)
    ensures TransformTypeName(TransformTypeName(typeName)) == TransformTypeName(typeName)
  {
    var once := TransformTypeName(typeName);
    var twice := TransformTypeName(once);
    assert forall i :: 0 <= i < |once| ==> once[i] != '.';
  }
}
