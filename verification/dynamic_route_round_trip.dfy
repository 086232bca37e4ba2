/**
 * Reverse resolution against the forward build: `clearPath` removes exactly
 * the locale prefix the build put in front, the segment walk resolves every
 * slug, and the route test picks the route the URL was built from.
 */
module DynamicRouteRoundTrip {
  import opened Wrappers
  import opened PhpStrings
  import opened PhpArrays
  import opened PhpUrls
  import opened Routing
  import opened DynamicRouteTranslator
  import DynamicRouteProperties

  /** Locale codes as they appear in URLs: non-empty and without `/`. */
  ghost predicate PlainLocales(locales: seq<string>) {
    forall i :: 0 <= i < |locales| ==> locales[i] != "" && '/' !in locales[i]
  }

  /** Slugs that fit in one path segment each. */
  ghost predicate PlainSlugs(slugs: seq<string>) {
    forall i :: 0 <= i < |slugs| ==> slugs[i] != "" && '/' !in slugs[i]
  }

  // ---------------------------------------------------------------------
  // clearPath
  // ---------------------------------------------------------------------

  /** Putting the same character in front of both sides does not change whether one is a prefix of the other. */
  lemma PrefixCons(c: char, s: string, p: string)
    ensures HasPrefix([c] + s, [c] + p) <==> HasPrefix(s, p)
  {
    if |p| <= |s| {
      assert ([c] + s)[..|p| + 1] == [c] + s[..|p|];
      assert ([c] + s[..|p|])[1..] == s[..|p|];
      assert ([c] + p)[1..] == p;
    }
  }

  /** A path `seg/...` starts with `loc/`, for plain `seg` and `loc`, only when the segment is the locale. */
  lemma LeadingSegmentIsLocale(seg: string, rest: string, loc: string)
    requires '/' !in seg && '/' !in loc
    requires rest == [] || rest[0] == '/'
    ensures HasPrefix(seg + rest, loc + "/") ==> seg == loc
  {
    var s := seg + rest;
    if HasPrefix(s, loc + "/") {
      assert s[..|loc| + 1] == loc + "/";
      assert forall i :: 0 <= i < |loc| ==> s[i] == loc[i] && s[i] != '/';
      assert s[|loc|] == '/';
      assert forall i :: 0 <= i < |seg| ==> s[i] == seg[i] && s[i] != '/';
      assert |seg| < |s| ==> s[|seg|] == '/';
      assert |seg| == |loc|;
      assert seg == s[..|seg|] == loc;
    }
  }

  /** A path that starts with a segment other than a supported locale is left alone by every locale's replacement. */
  lemma {:induction false} StripLocalesKeeps(path: string, first: string, rest: string, locales: seq<string>)
    requires PlainLocales(locales)
    requires path == first + rest && first != "" && '/' !in first && first !in locales
    requires rest == [] || rest[0] == '/'
    ensures StripLocales(path, locales) == path
    decreases |locales|
  {
    if locales != [] {
      var loc := locales[0];
      assert loc in locales;
      assert path[0] == first[0] != '/';
      assert !HasPrefix(path, "/" + loc + "/") by {
        assert ("/" + loc + "/")[0] == '/';
      }
      LeadingSegmentIsLocale(first, rest, loc);
      assert path != "/" + loc by { assert ("/" + loc)[0] == '/'; }
      assert path != loc by {
        if rest == [] { assert path == first; } else { assert path[|first|] == '/'; }
      }
      assert StripLocale(path, loc) == path;
      assert forall i :: 0 <= i < |locales[1..]| ==> locales[1..][i] == locales[i + 1];
      StripLocalesKeeps(path, first, rest, locales[1..]);
    }
  }

  /** `/loc/rest` for another plain locale `other` is left alone by `other`'s replacement. */
  lemma StripOtherLocale(loc: string, other: string, rest: string)
    requires loc != "" && '/' !in loc && other != "" && '/' !in other && other != loc
    ensures StripLocale("/" + loc + "/" + rest, other) == "/" + loc + "/" + rest
  {
    var path := "/" + loc + "/" + rest;
    var tail := loc + ("/" + rest);
    assert path == "/" + tail;
    assert "/" + other + "/" == "/" + (other + "/");
    PrefixCons('/', tail, other + "/");
    LeadingSegmentIsLocale(loc, "/" + rest, other);
    assert !HasPrefix(path, "/" + other + "/");
    assert !HasPrefix(path, other + "/") by { assert path[0] == '/' && other[0] != '/'; }
    assert path != "/" + other by {
      assert ("/" + other)[1..] == other;
      assert path[1..] == tail;
      assert tail[|loc|] == '/';
    }
    assert path != other by { assert other[0] != '/'; }
  }

  /** Every supported locale's replacement, in order, removes `/loc/` once and leaves the rest of the path. */
  lemma {:induction false} StripLocalesRemovesPrefix(loc: string, first: string, rest: string, locales: seq<string>)
    requires PlainLocales(locales) && loc in locales
    requires first != "" && '/' !in first && first !in locales
    requires rest == [] || rest[0] == '/'
    ensures StripLocales("/" + loc + ("/" + (first + rest)), locales) == first + rest
    decreases |locales|
  {
    var body := first + rest;
    var path := "/" + loc + "/" + body;
    assert path == "/" + loc + ("/" + (first + rest));
    assert forall i :: 0 <= i < |locales[1..]| ==> locales[1..][i] == locales[i + 1];
    if locales[0] == loc {
      assert HasPrefix(path, "/" + loc + "/");
      assert path[|loc| + 2..] == body;
      assert body != "/" + loc by { assert body[0] == first[0] != '/'; }
      assert body != loc by {
        if rest == [] { assert body == first; } else { assert body[|first|] == '/'; }
      }
      assert StripLocale(path, loc) == body;
      StripLocalesKeeps(body, first, rest, locales[1..]);
    } else {
      assert locales[0] in locales;
      StripOtherLocale(loc, locales[0], body);
      StripLocalesRemovesPrefix(loc, first, rest, locales[1..]);
    }
  }

  /** `loc/rest` for another plain locale `other` is left alone by `other`'s replacement. */
  lemma StripOtherBareLocale(loc: string, other: string, rest: string)
    requires loc != "" && '/' !in loc && other != "" && '/' !in other && other != loc
    ensures StripLocale(loc + "/" + rest, other) == loc + "/" + rest
  {
    var path := loc + "/" + rest;
    assert path == loc + ("/" + rest);
    assert path[0] == loc[0] && path[|loc|] == '/';
    assert !HasPrefix(path, "/" + other + "/") by { assert ("/" + other + "/")[0] == '/'; }
    LeadingSegmentIsLocale(loc, "/" + rest, other);
    assert path != "/" + other by { assert ("/" + other)[0] == '/'; }
  }

  /** Every supported locale's replacement, in order, turns `loc/` followed by a path into that path. */
  lemma {:induction false} StripLocalesRemovesBarePrefix(loc: string, first: string, rest: string,
                                                         locales: seq<string>)
    requires PlainLocales(locales) && loc in locales
    requires first != "" && '/' !in first && first !in locales
    requires rest == [] || rest[0] == '/'
    ensures StripLocales(loc + "/" + (first + rest), locales) == first + rest
    decreases |locales|
  {
    var body := first + rest;
    var path := loc + "/" + body;
    assert forall i :: 0 <= i < |locales[1..]| ==> locales[1..][i] == locales[i + 1];
    assert locales[0] in locales;
    if locales[0] == loc {
      assert !HasPrefix(path, "/" + loc + "/") by { assert path[0] == loc[0] && ("/" + loc + "/")[0] == '/'; }
      assert path[..|loc| + 1] == loc + "/";
      assert path[|loc| + 1..] == body;
      assert body != "/" + loc by { assert body[0] == first[0] != '/'; }
      assert body != loc by {
        if rest == [] { assert body == first; } else { assert body[|first|] == '/'; }
      }
      assert StripLocale(path, loc) == body;
      StripLocalesKeeps(body, first, rest, locales[1..]);
    } else {
      StripOtherBareLocale(loc, locales[0], body);
      StripLocalesRemovesBarePrefix(loc, first, rest, locales[1..]);
    }
  }

  /** The locale replacements leave an empty path empty. */
  lemma {:induction false} StripLocalesOfEmpty(locales: seq<string>)
    requires PlainLocales(locales)
    ensures StripLocales("", locales) == ""
    decreases |locales|
  {
    if locales != [] {
      assert locales[0] in locales;
      assert StripLocale("", locales[0]) == "";
      assert forall i :: 0 <= i < |locales[1..]| ==> locales[1..][i] == locales[i + 1];
      StripLocalesOfEmpty(locales[1..]);
    }
  }

  /** A string without `/` does not start with anything followed by `/`. */
  lemma NoSlashNoPrefix(s: string, p: string)
    requires '/' !in s
    ensures !HasPrefix(s, p + "/")
  {
    if |p| + 1 <= |s| {
      assert s[..|p| + 1][|p|] == s[|p|];
      assert (p + "/")[|p|] == '/';
    }
  }

  /** Every supported locale's replacement, in order, turns the bare supported locale `loc` into the empty path. */
  lemma {:induction false} StripLocalesBareLocale(loc: string, locales: seq<string>)
    requires PlainLocales(locales) && loc in locales
    ensures StripLocales(loc, locales) == ""
    decreases |locales|
  {
    var o := locales[0];
    assert o in locales;
    assert forall i :: 0 <= i < |locales[1..]| ==> locales[1..][i] == locales[i + 1];
    assert loc[0] != '/';
    if o == loc {
      assert !HasPrefix(loc, "/" + loc + "/") by { assert |"/" + loc + "/"| > |loc|; }
      assert !HasPrefix(loc, loc + "/") by { assert |loc + "/"| > |loc|; }
      assert StripLocale(loc, loc) == "";
      StripLocalesOfEmpty(locales[1..]);
    } else {
      assert !HasPrefix(loc, "/" + o + "/") by { assert ("/" + o + "/")[0] == '/'; }
      NoSlashNoPrefix(loc, o);
      assert loc != "/" + o by { assert ("/" + o)[0] == '/'; }
      assert StripLocale(loc, o) == loc;
      StripLocalesBareLocale(loc, locales[1..]);
    }
  }

  /** A non-empty path not starting with `/` is its first segment, then nothing or a `/` and the rest. */
  lemma FirstSegmentSplit(t: string)
    requires t != [] && t[0] != '/'
    ensures var first := Explode(t, '/')[0];
      first != "" && '/' !in first && |first| <= |t| && t == first + t[|first|..] &&
      (t[|first|..] == [] || t[|first|..][0] == '/')
  {
    if '/' in t {
      var i := IndexOf(t, '/');
      assert Explode(t, '/')[0] == t[..i];
      assert t == t[..i] + t[i..];
    } else {
      assert Explode(t, '/')[0] == t;
    }
  }

  /** Four-part concatenation regrouped to the right. */
  lemma ConcatRight(a: string, b: string, c: string, d: string)
    ensures a + b + c + d == a + (b + c + d)
  {
  }

  /** Slash-joining segments puts a `/` before the segments joined by `/`. */
  lemma {:induction false} SlashJoinImplode(slugs: seq<string>)
    requires |slugs| >= 1
    ensures SlashJoin(slugs) == "/" + Implode(slugs, '/')
    decreases |slugs|
  {
    var init := slugs[..|slugs| - 1];
    var last := slugs[|slugs| - 1];
    if |slugs| == 1 {
      assert init == [];
      assert SlashJoin(slugs) == "" + "/" + last;
    } else {
      SlashJoinImplode(init);
      ImplodeSnoc(init, last, '/');
      assert init + [last] == slugs;
      ConcatRight("/", Implode(init, '/'), "/", last);
    }
  }

  /** Segments joined by `/` start with the first segment, followed by nothing or by a `/`. */
  lemma ImplodeHead(slugs: seq<string>)
    requires |slugs| >= 1
    ensures Implode(slugs, '/') == slugs[0] + Implode(slugs, '/')[|slugs[0]|..]
    ensures var tail := Implode(slugs, '/')[|slugs[0]|..]; tail == [] || tail[0] == '/'
  {
    var body := Implode(slugs, '/');
    if |slugs| == 1 {
      assert body[|slugs[0]|..] == [];
    } else {
      var tail := ['/'] + Implode(slugs[1..], '/');
      assert body == slugs[0] + tail;
      assert body[|slugs[0]|..] == tail;
    }
  }

  /** Slash-joined plain slugs start with the first slug, followed by nothing or by a `/`. */
  lemma SlashJoinShape(slugs: seq<string>)
    requires |slugs| >= 1
    ensures SlashJoin(slugs) == "/" + Implode(slugs, '/')
    ensures Implode(slugs, '/') == slugs[0] + Implode(slugs, '/')[|slugs[0]|..]
    ensures var tail := Implode(slugs, '/')[|slugs[0]|..]; tail == [] || tail[0] == '/'
  {
    SlashJoinImplode(slugs);
    ImplodeHead(slugs);
  }

  /** Plain slugs joined by `/` neither start nor end with `/`. */
  lemma ImplodeEnds(slugs: seq<string>)
    requires |slugs| >= 1 && PlainSlugs(slugs)
    ensures var body := Implode(slugs, '/'); body != [] && body[0] != '/' && body[|body| - 1] != '/'
  {
    SlashJoinShape(slugs);
    var body := Implode(slugs, '/');
    assert body[0] == slugs[0][0];
    if |slugs| == 1 {
      assert body == slugs[0];
    } else {
      var init := slugs[..|slugs| - 1];
      var last := slugs[|slugs| - 1];
      ImplodeSnoc(init, last, '/');
      assert init + [last] == slugs;
      assert body[|body| - 1] == last[|last| - 1];
    }
  }

  /** The locale replacements turn `/loc` followed by the slash-joined slugs into the slugs joined by `/`. */
  lemma StripLocalesOfBuiltUrl(loc: string, slugs: seq<string>, locales: seq<string>)
    requires PlainLocales(locales) && loc in locales
    requires |slugs| >= 1 && PlainSlugs(slugs) && slugs[0] !in locales
    ensures StripLocales("/" + loc + SlashJoin(slugs), locales) == Implode(slugs, '/')
  {
    SlashJoinShape(slugs);
    var body := Implode(slugs, '/');
    var rest := body[|slugs[0]|..];
    assert SlashJoin(slugs) == "/" + (slugs[0] + rest);
    StripLocalesRemovesPrefix(loc, slugs[0], rest, locales);
  }

  /**
   * `clearPath` applied to `/loc` followed by the slash-joined slugs gives the
   * slugs joined by `/`, provided the first slug is not itself a supported locale.
   */
  lemma ClearPathOfBuiltUrl(loc: string, slugs: seq<string>, locales: seq<string>)
    requires PlainLocales(locales) && loc in locales
    requires |slugs| >= 1 && PlainSlugs(slugs) && slugs[0] !in locales
    ensures ClearPath(Some(PathOnly("/" + loc + SlashJoin(slugs))), locales) == Implode(slugs, '/')
  {
    var body := Implode(slugs, '/');
    StripLocalesOfBuiltUrl(loc, slugs, locales);
    ImplodeEnds(slugs);
    TrimLeftNoop(body, Slash);
    TrimRightNoop(body, Slash);
  }

  /**
   * The replacements run for every supported locale in turn, so a first slug
   * that equals a supported locale is removed along with the locale prefix:
   * with `loc` and `slug` both supported, `/loc/slug/x` clears to `x`.
   */
  lemma ClearPathStripsLocaleSlug(loc: string, slug: string, x: string)
    requires PlainLocales([loc, slug, x]) && loc != slug && x != slug
    ensures ClearPath(Some(PathOnly("/" + loc + "/" + (slug + "/" + x))), [loc, slug]) == x
  {
    assert loc in [loc, slug, x] && slug in [loc, slug, x] && x in [loc, slug, x];
    var body := slug + "/" + x;
    var path := "/" + loc + "/" + body;
    assert path[..|loc| + 2] == "/" + loc + "/" && path[|loc| + 2..] == body;
    assert body[|slug|] == '/';
    assert body != "/" + loc by { assert body[0] == slug[0] != '/'; }
    assert StripLocale(path, loc) == body;
    assert !HasPrefix(body, "/" + slug + "/") by { assert body[0] != ("/" + slug + "/")[0]; }
    assert body[..|slug| + 1] == slug + "/" && body[|slug| + 1..] == x;
    assert x != "/" + slug by { assert x[0] != '/'; }
    assert StripLocale(body, slug) == x;
    assert [loc, slug][1..] == [slug] && [slug][1..] == [];
    assert StripLocales(x, []) == x;
    assert StripLocales(body, [slug]) == StripLocales(x, []);
    assert StripLocales(path, [loc, slug]) == StripLocales(body, [slug]);
    TrimBothNoop(x, Slash);
  }

  // ---------------------------------------------------------------------
  // The segment walk and the route test
  // ---------------------------------------------------------------------

  /** Parameter names paired with the values found for them, in order. */
  function Zip(params: seq<string>, values: seq<string>): (items: Attributes)
    requires |params| == |values|
    ensures |items| == |params|
    ensures forall i :: 0 <= i < |params| ==> items[i] == (params[i], values[i])
  {
    seq(|params|, i requires 0 <= i < |params| => (params[i], values[i]))
  }

  ghost predicate Distinct(xs: seq<string>) {
    forall i, j :: 0 <= i < j < |xs| ==> xs[i] != xs[j]
  }

  /** The positions the walk has recorded after the first `n` parameters were found, one per segment. */
  function Positions(params: seq<string>, n: nat): map<nat, string>
    requires n <= |params|
  {
    map j: nat | j < n :: params[j]
  }

  lemma PositionsSnoc(params: seq<string>, n: nat)
    requires n < |params|
    ensures Positions(params, n)[n := params[n]] == Positions(params, n + 1)
  {
  }

  /**
   * Each segment's lookup, in the state the walk reaches it in, yields exactly
   * its parameter and value. In that state the recorded positions name the
   * earlier parameters, and the context is the earlier pairs when it is
   * shared and empty when it is not.
   */
  ghost predicate ResolvesInContext(t: Translator, models: Models, slugs: seq<string>, params: seq<string>,
                                    values: seq<string>, locale: string, shareContext: bool)
    requires |slugs| == |params| == |values|
  {
    forall i :: 0 <= i < |slugs| ==>
      SegmentHit(t, models, i, Positions(params, i), slugs[i], locale,
                 if shareContext then Zip(params[..i], values[..i]) else []) == Some([(params[i], values[i])])
  }

  lemma MergeOne<V>(a: Assoc<V>, k: string, v: V)
    ensures Merge(a, [(k, v)]) == Put(a, k, v)
  {
    assert [(k, v)][1..] == [];
  }

  /**
   * Under `ResolvesInContext`, the walk from `position` on collects one entry
   * per segment, in order, and records a position for every segment.
   */
  lemma {:induction false} ResolveSegmentsCollects(t: Translator, models: Models, slugs: seq<string>, params: seq<string>,
                                                   values: seq<string>, position: nat, locale: string,
                                                   shareContext: bool)
    requires |slugs| == |params| == |values| && position <= |slugs|
    requires Distinct(params)
    requires ResolvesInContext(t, models, slugs, params, values, locale, shareContext)
    ensures ResolveSegments(t, models, slugs, position, Zip(params[..position], values[..position]),
                            Positions(params, position), locale, shareContext)
         == (Zip(params, values), Positions(params, |params|))
    decreases |slugs| - position
  {
    var items := Zip(params[..position], values[..position]);
    if position == |slugs| {
      assert params[..position] == params && values[..position] == values;
    } else {
      var context := if shareContext then items else [];
      var hit := SegmentHit(t, models, position, Positions(params, position), slugs[position], locale, context);
      assert hit == Some([(params[position], values[position])]);
      assert !HasKey(items, params[position]);
      var merged := Merge(items, [(params[position], values[position])]);
      MergeOne(items, params[position], values[position]);
      assert params[..position + 1] == params[..position] + [params[position]];
      assert values[..position + 1] == values[..position] + [values[position]];
      assert merged == Zip(params[..position + 1], values[..position + 1]);
      PositionsSnoc(params, position);
      ResolveSegmentsCollects(t, models, slugs, params, values, position + 1, locale, shareContext);
    }
  }

  /** No route registered before `routeName` with as many parameters has the same parameter set. */
  ghost predicate FirstWithParams(reg: Registry, routeName: string, params: seq<string>)
    requires HasKey(reg, routeName)
  {
    forall j :: 0 <= j < KeyIndex(reg, routeName) && |reg[j].1| == |params| ==> !SameParams(reg[j].1, params)
  }

  /**
   * For a registry with unique names, the route test over a registered route's
   * own parameters names that route exactly when no route registered before it
   * with as many parameters has the same parameter set.
   */
  lemma MatchRouteFindsRoute(reg: Registry, routeName: string, params: seq<string>)
    requires UniqueKeys(reg)
    requires Get(reg, routeName) == Some(params)
    ensures MatchRoute(reg, params, |params|) == Some(routeName) <==> FirstWithParams(reg, routeName, params)
  {
    var k := KeyIndex(reg, routeName);
    assert reg[k].1 == params;
    assert |reg[k].1| == |params| && SameParams(reg[k].1, params);
    var r := MatchRoute(reg, params, |params|);
    var i :| 0 <= i < |reg| && reg[i].0 == r.value && |reg[i].1| == |params| && SameParams(reg[i].1, params) &&
      forall j :: 0 <= j < i ==> !(|reg[j].1| == |params| && SameParams(reg[j].1, params));
    if FirstWithParams(reg, routeName, params) {
      assert i == k;
    }
    if r.value == routeName {
      assert i == k;
    }
  }

  // ---------------------------------------------------------------------
  // Round trip
  // ---------------------------------------------------------------------

  /** `getDynamicDataFromUrl` on a non-empty URL, step by step. */
  lemma DynamicDataSteps(t: Translator, allRoutes: seq<Route>, models: Models, parse: UrlParser,
                         locales: seq<string>, url: string, fromLocale: string, corrected: bool)
    requires !IsEmpty(url)
    ensures var t' := PrepareDynamicRoutes(t, allRoutes);
      var segs := Explode(ClearPath(parse(url), locales), '/');
      var walk := ResolveSegments(t', models, segs, 0, [], map[], fromLocale, corrected);
      DynamicDataFromUrl(t, allRoutes, models, parse, locales, url, fromLocale, corrected)
        == (t', if |walk.0| == |segs| && (corrected ==> AllPositionsHit(walk.1, |segs|))
                then Resolved(walk.0, MatchRoute(t'.dynamicRoutes, Keys(walk.0), |segs|)) else Unresolved)
  {
  }

  /**
   * The walk over a non-empty URL with the registry built: the URL splits into
   * `segs` and the walk over them collects `items`.
   */
  ghost predicate WalkOutcome(t: Translator, models: Models, parse: UrlParser, locales: seq<string>, url: string,
                              fromLocale: string, shareContext: bool, segs: seq<string>, items: Attributes)
  {
    t.dynamicRoutes != [] && !IsEmpty(url) &&
    Explode(ClearPath(parse(url), locales), '/') == segs &&
    ResolveSegments(t, models, segs, 0, [], map[], fromLocale, shareContext).0 == items
  }

  /** With the registry built, a URL whose every segment resolves gives the collected items and the matching route. */
  lemma DynamicDataOfSegments(t: Translator, allRoutes: seq<Route>, models: Models, parse: UrlParser,
                              locales: seq<string>, url: string, fromLocale: string, corrected: bool,
                              segs: seq<string>, items: Attributes, routeName: Option<string>)
    requires WalkOutcome(t, models, parse, locales, url, fromLocale, corrected, segs, items)
    requires corrected ==> AllPositionsHit(ResolveSegments(t, models, segs, 0, [], map[], fromLocale, corrected).1, |segs|)
    requires |items| == |segs| && MatchRoute(t.dynamicRoutes, Keys(items), |segs|) == routeName
    ensures DynamicDataFromUrl(t, allRoutes, models, parse, locales, url, fromLocale, corrected)
         == (t, Resolved(items, routeName))
  {
  }

  /** With the registry built, a URL where some segment found nothing is not resolved. */
  lemma DynamicDataOfShortWalk(t: Translator, allRoutes: seq<Route>, models: Models, parse: UrlParser,
                               locales: seq<string>, url: string, fromLocale: string, corrected: bool,
                               segs: seq<string>, items: Attributes)
    requires WalkOutcome(t, models, parse, locales, url, fromLocale, corrected, segs, items)
    requires |items| != |segs|
    ensures DynamicDataFromUrl(t, allRoutes, models, parse, locales, url, fromLocale, corrected) == (t, Unresolved)
  {
  }

  /** A built URL that the parser reads as a bare path splits back into its slugs. */
  lemma SegmentsOfBuiltUrl(parse: UrlParser, locales: seq<string>, loc: string, slugs: seq<string>)
    requires PlainLocales(locales) && loc in locales
    requires |slugs| >= 1 && PlainSlugs(slugs) && slugs[0] !in locales
    requires parse("/" + loc + SlashJoin(slugs)) == Some(PathOnly("/" + loc + SlashJoin(slugs)))
    ensures Explode(ClearPath(parse("/" + loc + SlashJoin(slugs)), locales), '/') == slugs
  {
    ClearPathOfBuiltUrl(loc, slugs, locales);
    forall i | 0 <= i < |slugs| ensures '/' !in slugs[i] { }
    ExplodeImplode(slugs, '/');
  }

  /**
   * The conditions under which a built URL resolves back: the route has
   * distinct parameters and one slug per parameter, the slugs and locales fit
   * in one segment each and the first slug is not a locale, the URL parser
   * reads the URL as a bare path, and each slug resolves to its parameter in
   * the state the walk reaches it in.
   */
  ghost predicate ResolvableUrl(t: Translator, models: Models, parse: UrlParser, locales: seq<string>, loc: string,
                                params: seq<string>, slugs: seq<string>, values: seq<string>, fromLocale: string,
                                shareContext: bool)
  {
    |params| >= 1 && Distinct(params) && |slugs| == |params| == |values| &&
    PlainLocales(locales) && loc in locales && PlainSlugs(slugs) && slugs[0] !in locales &&
    parse("/" + loc + SlashJoin(slugs)) == Some(PathOnly("/" + loc + SlashJoin(slugs))) &&
    ResolvesInContext(t, models, slugs, params, values, fromLocale, shareContext)
  }

  /** The segment walk over a built URL collects the pairs the slugs stand for. */
  lemma ItemsOfBuiltUrl(t: Translator, models: Models, parse: UrlParser, locales: seq<string>, loc: string,
                        params: seq<string>, slugs: seq<string>, values: seq<string>, fromLocale: string,
                        shareContext: bool)
    requires ResolvableUrl(t, models, parse, locales, loc, params, slugs, values, fromLocale, shareContext)
    ensures Explode(ClearPath(parse("/" + loc + SlashJoin(slugs)), locales), '/') == slugs
    ensures |params| == |values| &&
      ResolveSegments(t, models, slugs, 0, [], map[], fromLocale, shareContext)
        == (Zip(params, values), Positions(params, |params|))
  {
    SegmentsOfBuiltUrl(parse, locales, loc, slugs);
    assert params[..0] == [] && values[..0] == [];
    assert Positions(params, 0) == map[];
    ResolveSegmentsCollects(t, models, slugs, params, values, 0, fromLocale, shareContext);
  }

  /** A path that starts with `/` is not empty in PHP's sense. */
  lemma LeadingSlashNotEmpty(a: string, b: string)
    ensures !IsEmpty("/" + a + b)
  {
    assert ("/" + a + b)[0] == '/';
  }

  /** The keys of the zipped pairs are the parameter names. */
  lemma KeysOfZip(params: seq<string>, values: seq<string>)
    requires |params| == |values|
    ensures Keys(Zip(params, values)) == params
  {
  }

  /**
   * Resolving `/loc` followed by a route's slugs gives back the route name and
   * the parameter/value pairs the slugs stand for, as written and corrected,
   * provided the registry is built, each slug resolves in the state the walk
   * reaches it in (with the context the reading passes), and no earlier route
   * has the same parameter set.
   */
  lemma ResolveBuiltUrl(t: Translator, allRoutes: seq<Route>, models: Models, parse: UrlParser,
                        locales: seq<string>, loc: string, routeName: string, params: seq<string>,
                        slugs: seq<string>, values: seq<string>, fromLocale: string, corrected: bool)
    requires t.dynamicRoutes != [] && UniqueKeys(t.dynamicRoutes)
    requires Get(t.dynamicRoutes, routeName) == Some(params)
    requires ResolvableUrl(t, models, parse, locales, loc, params, slugs, values, fromLocale, corrected)
    requires FirstWithParams(t.dynamicRoutes, routeName, params)
    ensures |params| == |values| &&
      DynamicDataFromUrl(t, allRoutes, models, parse, locales, "/" + loc + SlashJoin(slugs), fromLocale, corrected)
        == (t, Resolved(Zip(params, values), Some(routeName)))
  {
    var url := "/" + loc + SlashJoin(slugs);
    BuiltUrlWalk(t, models, parse, locales, loc, params, slugs, values, fromLocale, corrected);
    var items := Zip(params, values);
    KeysOfZip(params, values);
    MatchRouteFindsRoute(t.dynamicRoutes, routeName, params);
    DynamicDataOfSegments(t, allRoutes, models, parse, locales, url, fromLocale, corrected, slugs, items,
                          Some(routeName));
  }

  /** The walk over a resolvable built URL: one pair per slug, and a hit recorded at every segment. */
  lemma BuiltUrlWalk(t: Translator, models: Models, parse: UrlParser, locales: seq<string>, loc: string,
                     params: seq<string>, slugs: seq<string>, values: seq<string>, fromLocale: string,
                     corrected: bool)
    requires t.dynamicRoutes != []
    requires ResolvableUrl(t, models, parse, locales, loc, params, slugs, values, fromLocale, corrected)
    ensures |params| == |values| == |slugs|
    ensures WalkOutcome(t, models, parse, locales, "/" + loc + SlashJoin(slugs), fromLocale, corrected, slugs,
                        Zip(params, values))
    ensures AllPositionsHit(ResolveSegments(t, models, slugs, 0, [], map[], fromLocale, corrected).1, |slugs|)
  {
    LeadingSlashNotEmpty(loc, SlashJoin(slugs));
    ItemsOfBuiltUrl(t, models, parse, locales, loc, params, slugs, values, fromLocale, corrected);
    PositionsCoverAll(params);
  }

  lemma PositionsCoverAll(params: seq<string>)
    ensures AllPositionsHit(Positions(params, |params|), |params|)
  {
  }

  /**
   * The forward build followed by the reverse resolution: build a route's URL
   * from attribute values that are already slugs, resolve it with the
   * corrected reading (each lookup sees the items found before it), and get
   * the route and the pairs back.
   */
  lemma BuildThenResolveSluged(t: Translator, allRoutes: seq<Route>, models: Models, parse: UrlParser,
                               locales: seq<string>, loc: string, routeName: string, params: seq<string>,
                               attributes: Attributes, slugs: seq<string>, values: seq<string>, fromLocale: string)
    requires t.dynamicRoutes != [] && UniqueKeys(t.dynamicRoutes)
    requires Get(t.dynamicRoutes, routeName) == Some(params)
    requires |slugs| == |params| && forall i :: 0 <= i < |params| ==> Get(attributes, params[i]) == Some(slugs[i])
    requires ResolvableUrl(t, models, parse, locales, loc, params, slugs, values, fromLocale, true)
    requires FirstWithParams(t.dynamicRoutes, routeName, params)
    ensures var built := BuildUrl(t, models, "/" + loc, loc, routeName, attributes, true);
      built.Success? && |params| == |values| &&
      GetDynamicDataFromUrl(t, allRoutes, models, parse, locales, built.value, fromLocale)
        == (t, Resolved(Zip(params, values), Some(routeName)))
  {
    DynamicRouteProperties.BuildUrlSluged(t, models, "/" + loc, loc, routeName, params, attributes, slugs);
    assert "/" + loc + SlashJoin(slugs) == ("/" + loc) + SlashJoin(slugs);
    ResolveBuiltUrl(t, allRoutes, models, parse, locales, loc, routeName, params, slugs, values, fromLocale, true);
  }

  // ---------------------------------------------------------------------
  // Whole or nothing
  // ---------------------------------------------------------------------

  /** Every successful lookup yields a single item, as a slug lookup for one model does. */
  ghost predicate SingleItemHits(t: Translator, models: Models, locale: string) {
    forall position, previousPositions, slug, context ::
      SegmentHit(t, models, position, previousPositions, slug, locale, context).Some? ==>
        |SegmentHit(t, models, position, previousPositions, slug, locale, context).value| == 1
  }

  /** A single-item hit grows the collected items by at most one. */
  lemma SingleHitMerge(t: Translator, models: Models, position: nat, previousPositions: map<nat, string>,
                       slug: string, locale: string, context: Attributes, items: Attributes)
    requires SingleItemHits(t, models, locale)
    requires SegmentHit(t, models, position, previousPositions, slug, locale, context).Some?
    ensures var found := SegmentHit(t, models, position, previousPositions, slug, locale, context).value;
      |found| == 1 && |Merge(items, found)| <= |items| + 1
  {
    var found := SegmentHit(t, models, position, previousPositions, slug, locale, context).value;
    assert found == [(found[0].0, found[0].1)];
    MergeOne(items, found[0].0, found[0].1);
  }

  /** With single-item hits, the walk adds at most one item per segment. */
  lemma {:induction false} ResolveSegmentsBound(t: Translator, models: Models, segs: seq<string>, position: nat,
                                                items: Attributes, previousPositions: map<nat, string>,
                                                locale: string, shareContext: bool)
    requires position <= |segs| && SingleItemHits(t, models, locale)
    ensures |ResolveSegments(t, models, segs, position, items, previousPositions, locale, shareContext).0|
         <= |items| + (|segs| - position)
    decreases |segs| - position
  {
    if position < |segs| {
      var context := if shareContext then items else [];
      var hit := SegmentHit(t, models, position, previousPositions, segs[position], locale, context);
      if hit.None? {
        ResolveSegmentsBound(t, models, segs, position + 1, items, previousPositions, locale, shareContext);
        assert ResolveSegments(t, models, segs, position, items, previousPositions, locale, shareContext)
            == ResolveSegments(t, models, segs, position + 1, items, previousPositions, locale, shareContext);
      } else {
        SingleHitMerge(t, models, position, previousPositions, segs[position], locale, context, items);
        var merged := Merge(items, hit.value);
        var positions := previousPositions[position := hit.value[0].0];
        ResolveSegmentsBound(t, models, segs, position + 1, merged, positions, locale, shareContext);
        assert ResolveSegments(t, models, segs, position, items, previousPositions, locale, shareContext)
            == ResolveSegments(t, models, segs, position + 1, merged, positions, locale, shareContext);
      }
    }
  }

  /** The walk keeps every position recorded before it. */
  lemma {:induction false} ResolveSegmentsKeepsPositions(t: Translator, models: Models, segs: seq<string>,
                                                         position: nat, items: Attributes,
                                                         previousPositions: map<nat, string>,
                                                         locale: string, shareContext: bool)
    requires position <= |segs|
    ensures previousPositions.Keys
         <= ResolveSegments(t, models, segs, position, items, previousPositions, locale, shareContext).1.Keys
    decreases |segs| - position
  {
    if position < |segs| {
      var context := if shareContext then items else [];
      var hit := SegmentHit(t, models, position, previousPositions, segs[position], locale, context);
      if hit.None? {
        ResolveSegmentsKeepsPositions(t, models, segs, position + 1, items, previousPositions, locale, shareContext);
      } else {
        ResolveSegmentsKeepsPositions(t, models, segs, position + 1, Merge(items, hit.value),
                                      previousPositions[position := hit.value[0].0], locale, shareContext);
      }
    }
  }

  /**
   * With single-item hits, the walk adds at most one item per segment, and it
   * reaches one item per segment only when every segment position was recorded
   * as a hit. Positions recorded before are kept.
   */
  lemma {:induction false} ResolveSegmentsCounts(t: Translator, models: Models, segs: seq<string>, position: nat,
                                                 items: Attributes, previousPositions: map<nat, string>,
                                                 locale: string, shareContext: bool)
    requires position <= |segs| && SingleItemHits(t, models, locale)
    ensures var r := ResolveSegments(t, models, segs, position, items, previousPositions, locale, shareContext);
      |r.0| <= |items| + (|segs| - position) &&
      (forall i :: i in previousPositions ==> i in r.1) &&
      (|r.0| == |items| + (|segs| - position) ==> forall i :: position <= i < |segs| ==> i in r.1)
    decreases |segs| - position
  {
    ResolveSegmentsBound(t, models, segs, position, items, previousPositions, locale, shareContext);
    ResolveSegmentsKeepsPositions(t, models, segs, position, items, previousPositions, locale, shareContext);
    if position < |segs| {
      var context := if shareContext then items else [];
      var hit := SegmentHit(t, models, position, previousPositions, segs[position], locale, context);
      if hit.None? {
        ResolveSegmentsBound(t, models, segs, position + 1, items, previousPositions, locale, shareContext);
      } else {
        SingleHitMerge(t, models, position, previousPositions, segs[position], locale, context, items);
        var merged := Merge(items, hit.value);
        var positions := previousPositions[position := hit.value[0].0];
        ResolveSegmentsCounts(t, models, segs, position + 1, merged, positions, locale, shareContext);
        ResolveSegmentsKeepsPositions(t, models, segs, position + 1, merged, positions, locale, shareContext);
        assert position in positions;
      }
    }
  }

  /** With single-item hits, a walk from the start that yields one item per segment recorded a hit at every segment. */
  lemma FullWalkHitsEverySegment(t: Translator, models: Models, segs: seq<string>, locale: string, shareContext: bool)
    requires SingleItemHits(t, models, locale)
    ensures var r := ResolveSegments(t, models, segs, 0, [], map[], locale, shareContext);
      |r.0| == |segs| ==> forall i :: 0 <= i < |segs| ==> i in r.1
  {
    ResolveSegmentsCounts(t, models, segs, 0, [], map[], locale, shareContext);
  }

  /**
   * Whole or nothing: a resolved URL had a hit at every one of its segments,
   * so a URL with any segment that no model recognises is not resolved. The
   * corrected reading guarantees this outright; as written, only the item
   * count is tested, which implies it when every hit yields a single item.
   */
  lemma ResolvedMeansEverySegmentHit(t: Translator, allRoutes: seq<Route>, models: Models, parse: UrlParser,
                                     locales: seq<string>, url: string, fromLocale: string, corrected: bool)
    requires !corrected ==> SingleItemHits(PrepareDynamicRoutes(t, allRoutes), models, fromLocale)
    ensures var t' := PrepareDynamicRoutes(t, allRoutes);
      var segs := Explode(ClearPath(parse(url), locales), '/');
      DynamicDataFromUrl(t, allRoutes, models, parse, locales, url, fromLocale, corrected).1.Resolved? ==>
        forall i :: 0 <= i < |segs| ==> i in ResolveSegments(t', models, segs, 0, [], map[], fromLocale, corrected).1
  {
    if corrected {
      CorrectedResolvedHitsEverySegment(t, allRoutes, models, parse, locales, url, fromLocale);
    } else {
      var t' := PrepareDynamicRoutes(t, allRoutes);
      var segs := Explode(ClearPath(parse(url), locales), '/');
      FullWalkHitsEverySegment(t', models, segs, fromLocale, corrected);
      ResolvedHasItemPerSegment(t, allRoutes, models, parse, locales, url, fromLocale, corrected);
    }
  }

  /** The corrected reading: its own test demands a position for every segment. */
  lemma CorrectedResolvedHitsEverySegment(t: Translator, allRoutes: seq<Route>, models: Models, parse: UrlParser,
                                          locales: seq<string>, url: string, fromLocale: string)
    ensures var t' := PrepareDynamicRoutes(t, allRoutes);
      var segs := Explode(ClearPath(parse(url), locales), '/');
      DynamicDataFromUrl(t, allRoutes, models, parse, locales, url, fromLocale, true).1.Resolved? ==>
        forall i :: 0 <= i < |segs| ==> i in ResolveSegments(t', models, segs, 0, [], map[], fromLocale, true).1
  {
    if IsEmpty(url) {
      assert DynamicDataFromUrl(t, allRoutes, models, parse, locales, url, fromLocale, true).1 == NoUrl;
    } else {
      var t' := PrepareDynamicRoutes(t, allRoutes);
      var segs := Explode(ClearPath(parse(url), locales), '/');
      var walk := ResolveSegments(t', models, segs, 0, [], map[], fromLocale, true);
      DynamicDataSteps(t, allRoutes, models, parse, locales, url, fromLocale, true);
      CorrectedTestHitsAll(DynamicDataFromUrl(t, allRoutes, models, parse, locales, url, fromLocale, true).1,
                           segs, walk, MatchRoute(t'.dynamicRoutes, Keys(walk.0), |segs|));
    }
  }

  /** An outcome decided by the corrected test is resolved only when every segment has a position. */
  lemma CorrectedTestHitsAll(d: DynamicData, segs: seq<string>, walk: (Attributes, map<nat, string>),
                             routeName: Option<string>)
    requires d == if |walk.0| == |segs| && AllPositionsHit(walk.1, |segs|) then Resolved(walk.0, routeName)
                  else Unresolved
    ensures d.Resolved? ==> forall i :: 0 <= i < |segs| ==> i in walk.1
  {
  }

  /** A resolved URL collected exactly one item per segment. */
  lemma ResolvedHasItemPerSegment(t: Translator, allRoutes: seq<Route>, models: Models, parse: UrlParser,
                                  locales: seq<string>, url: string, fromLocale: string, corrected: bool)
    ensures var t' := PrepareDynamicRoutes(t, allRoutes);
      var segs := Explode(ClearPath(parse(url), locales), '/');
      DynamicDataFromUrl(t, allRoutes, models, parse, locales, url, fromLocale, corrected).1.Resolved? ==>
        |ResolveSegments(t', models, segs, 0, [], map[], fromLocale, corrected).0| == |segs|
  {
    if !IsEmpty(url) {
      DynamicDataSteps(t, allRoutes, models, parse, locales, url, fromLocale, corrected);
    }
  }

  // ---------------------------------------------------------------------
  // The lookup context (see the finding in the README)
  // ---------------------------------------------------------------------

  /** A category `a` that exists on its own, and a product `b` that is found only within a category. */
  function NestedModels(): Models {
    Models(
      (model: string, value: string, param: string, locale: string) => value,
      (position: nat, reg: Registry, relation: Assoc<seq<string>>, previousPositions: map<nat, string>) => ["Item"],
      (model: string, slug: string, locale: string, context: Attributes) =>
        if slug == "a" then [("category", "1")]
        else if slug == "b" && context != [] then [("product", "2")]
        else [])
  }

  const ShowRoutes: Registry := [("show", ["category", "product"])]

  function IdentityParser(): UrlParser {
    (s: string) => Some(PathOnly(s))
  }

  /** The URL `/en/a/b` reduces to the segments `a` and `b`. */
  lemma NestedUrlSegments()
    ensures Explode(ClearPath(IdentityParser()("/" + "en" + SlashJoin(["a", "b"])), ["en"]), '/') == ["a", "b"]
  {
    var slugs := ["a", "b"];
    assert forall i :: 0 <= i < |slugs| ==> slugs[i] != "" && '/' !in slugs[i];
    SegmentsOfBuiltUrl(IdentityParser(), ["en"], "en", slugs);
  }

  /** With an empty context, the walk over `a` and `b` finds the category but not the product. */
  lemma NestedWalkIgnored()
    ensures ResolveSegments(Translator(["show"], [], ShowRoutes), NestedModels(), ["a", "b"], 0, [], map[], "en", false).0
         == [("category", "1")]
  {
    var t := Translator(["show"], [], ShowRoutes);
    var models := NestedModels();
    var first := [("category", "1")];
    assert SegmentHit(t, models, 0, map[], "a", "en", []) == Some(first);
    assert SegmentHit(t, models, 1, map[0 := "category"], "b", "en", []) == None;
    MergeOne([], "category", "1");
    assert Merge([], first) == first;
  }

  /** Without the context, the walk over `/en/a/b` collects the category only. */
  lemma NestedOutcomeIgnored()
    ensures WalkOutcome(Translator(["show"], [], ShowRoutes), NestedModels(), IdentityParser(), ["en"],
                        "/" + "en" + SlashJoin(["a", "b"]), "en", false, ["a", "b"], [("category", "1")])
  {
    LeadingSlashNotEmpty("en", SlashJoin(["a", "b"]));
    NestedUrlSegments();
    NestedWalkIgnored();
  }

  /**
   * As written, the product lookup never sees the category found before it,
   * so `/en/a/b` is not resolved even though both of its slugs denote items.
   */
  lemma ContextIgnoredAsWritten(allRoutes: seq<Route>)
    ensures GetDynamicDataFromUrlAsWritten(Translator(["show"], [], ShowRoutes), allRoutes, NestedModels(),
                                           IdentityParser(), ["en"], "/" + "en" + SlashJoin(["a", "b"]), "en").1
         == Unresolved
  {
    NestedOutcomeIgnored();
    DynamicDataOfShortWalk(Translator(["show"], [], ShowRoutes), allRoutes, NestedModels(), IdentityParser(), ["en"],
                           "/" + "en" + SlashJoin(["a", "b"]), "en", false, ["a", "b"], [("category", "1")]);
  }

  /** With the earlier items passed along, the walk over `a` and `b` finds the category and then the product. */
  lemma NestedWalkShared()
    ensures ResolveSegments(Translator(["show"], [], ShowRoutes), NestedModels(), ["a", "b"], 0, [], map[], "en", true)
         == ([("category", "1"), ("product", "2")], map[0 := "category", 1 := "product"])
  {
    var t := Translator(["show"], [], ShowRoutes);
    var models := NestedModels();
    var first := [("category", "1")];
    assert SegmentHit(t, models, 0, map[], "a", "en", []) == Some(first);
    assert SegmentHit(t, models, 1, map[0 := "category"], "b", "en", first) == Some([("product", "2")]);
    MergeOne([], "category", "1");
    assert Merge([], first) == first;
    MergeOne(first, "product", "2");
    assert Merge(first, [("product", "2")]) == [("category", "1"), ("product", "2")];
  }

  /** With the context, the walk over `/en/a/b` collects the category and the product. */
  lemma NestedOutcomeShared()
    ensures WalkOutcome(Translator(["show"], [], ShowRoutes), NestedModels(), IdentityParser(), ["en"],
                        "/" + "en" + SlashJoin(["a", "b"]), "en", true, ["a", "b"], [("category", "1"), ("product", "2")])
  {
    LeadingSlashNotEmpty("en", SlashJoin(["a", "b"]));
    NestedUrlSegments();
    NestedWalkShared();
  }

  /** With the context, both segments of `a/b` record a hit. */
  lemma NestedEverySegmentShared()
    ensures AllPositionsHit(ResolveSegments(Translator(["show"], [], ShowRoutes), NestedModels(), ["a", "b"], 0, [],
                                            map[], "en", true).1, |["a", "b"]|)
  {
    NestedWalkShared();
    var positions := map[0 := "category", 1 := "product"];
    assert 0 in positions && 1 in positions;
  }

  /** The two items name the parameters of `show`, which the route test picks. */
  lemma NestedMatch()
    ensures MatchRoute(ShowRoutes, Keys([("category", "1"), ("product", "2")]), 2) == Some("show")
  {
    var keys := Keys([("category", "1"), ("product", "2")]);
    assert keys == ["category", "product"];
    assert ShowRoutes[0] == ("show", ["category", "product"]);
    GetAt(ShowRoutes, 0);
    MatchRouteFindsRoute(ShowRoutes, "show", ["category", "product"]);
  }

  /** With the earlier items passed along, `/en/a/b` resolves to both items and the `show` route. */
  lemma ContextSharedResolves(allRoutes: seq<Route>)
    ensures GetDynamicDataFromUrl(Translator(["show"], [], ShowRoutes), allRoutes, NestedModels(),
                                  IdentityParser(), ["en"], "/" + "en" + SlashJoin(["a", "b"]), "en").1
         == Resolved([("category", "1"), ("product", "2")], Some("show"))
  {
    NestedOutcomeShared();
    NestedEverySegmentShared();
    NestedMatch();
    DynamicDataOfSegments(Translator(["show"], [], ShowRoutes), allRoutes, NestedModels(), IdentityParser(), ["en"],
                          "/" + "en" + SlashJoin(["a", "b"]), "en", true, ["a", "b"],
                          [("category", "1"), ("product", "2")], Some("show"));
  }

  // ---------------------------------------------------------------------
  // The completeness test (see the finding in the README)
  // ---------------------------------------------------------------------

  /** A lookup that finds a category and a product for the slug `a`, and nothing for any other slug. */
  function PairModels(): Models {
    Models(
      (model: string, value: string, param: string, locale: string) => value,
      (position: nat, reg: Registry, relation: Assoc<seq<string>>, previousPositions: map<nat, string>) => ["Item"],
      (model: string, slug: string, locale: string, context: Attributes) =>
        if slug == "a" then [("category", "1"), ("product", "2")] else [])
  }

  /** The walk over `a` and `zzz` collects two items from `a` and records no hit for `zzz`. */
  lemma PairWalk(shareContext: bool)
    ensures ResolveSegments(Translator(["show"], [], ShowRoutes), PairModels(), ["a", "zzz"], 0, [], map[], "en",
                            shareContext)
         == ([("category", "1"), ("product", "2")], map[0 := "category"])
  {
    var t := Translator(["show"], [], ShowRoutes);
    var models := PairModels();
    var found := [("category", "1"), ("product", "2")];
    var context := if shareContext then found else [];
    assert SegmentHit(t, models, 0, map[], "a", "en", []) == Some(found);
    assert SegmentHit(t, models, 1, map[0 := "category"], "zzz", "en", context) == None;
    assert found[1..] == [("product", "2")];
    MergeOne([], "category", "1");
    MergeOne([("category", "1")], "product", "2");
    assert Merge([], found) == found;
  }

  /** The URL `/en/a/zzz` reduces to the segments `a` and `zzz`. */
  lemma PairUrlSegments()
    ensures Explode(ClearPath(IdentityParser()("/" + "en" + SlashJoin(["a", "zzz"])), ["en"]), '/') == ["a", "zzz"]
  {
    var slugs := ["a", "zzz"];
    assert forall i :: 0 <= i < |slugs| ==> slugs[i] != "" && '/' !in slugs[i];
    SegmentsOfBuiltUrl(IdentityParser(), ["en"], "en", slugs);
  }

  /** The walk over `/en/a/zzz`, in either reading. */
  lemma PairOutcome(corrected: bool)
    ensures WalkOutcome(Translator(["show"], [], ShowRoutes), PairModels(), IdentityParser(), ["en"],
                        "/" + "en" + SlashJoin(["a", "zzz"]), "en", corrected, ["a", "zzz"],
                        [("category", "1"), ("product", "2")])
  {
    LeadingSlashNotEmpty("en", SlashJoin(["a", "zzz"]));
    PairUrlSegments();
    PairWalk(corrected);
  }

  /**
   * As written, the count test lets a two-item hit make up for a segment that
   * found nothing: `/en/a/zzz` is resolved to the `show` route although no
   * model recognises `zzz`.
   */
  lemma CountTestAcceptsMiss(allRoutes: seq<Route>)
    ensures SegmentHit(Translator(["show"], [], ShowRoutes), PairModels(), 1, map[0 := "category"], "zzz", "en", [])
         == None
    ensures GetDynamicDataFromUrlAsWritten(Translator(["show"], [], ShowRoutes), allRoutes, PairModels(),
                                           IdentityParser(), ["en"], "/" + "en" + SlashJoin(["a", "zzz"]), "en").1
         == Resolved([("category", "1"), ("product", "2")], Some("show"))
  {
    PairOutcome(false);
    NestedMatch();
    DynamicDataOfSegments(Translator(["show"], [], ShowRoutes), allRoutes, PairModels(), IdentityParser(), ["en"],
                          "/" + "en" + SlashJoin(["a", "zzz"]), "en", false, ["a", "zzz"],
                          [("category", "1"), ("product", "2")], Some("show"));
  }

  /** Corrected, the same URL is not resolved, because its second segment recorded no hit. */
  lemma EverySegmentTestRejectsMiss(allRoutes: seq<Route>)
    ensures GetDynamicDataFromUrl(Translator(["show"], [], ShowRoutes), allRoutes, PairModels(),
                                  IdentityParser(), ["en"], "/" + "en" + SlashJoin(["a", "zzz"]), "en").1
         == Unresolved
  {
    var url := "/" + "en" + SlashJoin(["a", "zzz"]);
    PairOutcome(true);
    PairWalk(true);
    assert 1 !in map[0 := "category"];
    DynamicDataSteps(Translator(["show"], [], ShowRoutes), allRoutes, PairModels(), IdentityParser(), ["en"], url, "en",
                     true);
  }
}
