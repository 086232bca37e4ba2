/**
 * The dynamic route translator: a registry of the candidate routes and their
 * parameter names, the forward build of a localized path from a route name
 * and attribute values, and the reverse resolution of a path back to a route
 * name and the items its slugs stand for.
 */
module DynamicRouteTranslator {
  import opened Wrappers
  import opened PhpStrings
  import opened PhpArrays
  import opened PhpUrls
  import opened Routing

  /** Route name to parameter names, in registration order (`dynamicRoutes`). */
  type Registry = Assoc<seq<string>>

  /** Values by parameter name: route attributes, or the items resolved from slugs. */
  type Attributes = Assoc<string>

  /** The translator's configuration and its memoised registry. */
  datatype Translator = Translator(
    candidatesRouteNames: seq<string>,
    modelParamRelation: Assoc<seq<string>>,
    dynamicRoutes: Registry)

  /**
   * The model layer the translator instantiates by class name:
   * `findLocalisationSlugByItem(model, value, param, locale)`,
   * `get_model_relation(position, dynamicRoutes, modelParamRelation, previousPositions)`
   * and `findItemBySlug(model, slug, locale, context)`.
   */
  datatype Models = Models(
    findLocalisationSlugByItem: (string, string, string, string) -> string,
    getModelRelation: (nat, Registry, Assoc<seq<string>>, map<nat, string>) -> seq<string>,
    findItemBySlug: (string, string, string, Attributes) -> Attributes)

  datatype TranslatorError =
    | RouteNotFound(routeName: string)
    | InvalidParams(param: string, routeName: string)
    | NoModelForParam(param: string)

  /** What `getDynamicDataFromUrl` returns: `false`, `null`, or the resolved items with an optional route name. */
  datatype DynamicData =
    | NoUrl
    | Unresolved
    | Resolved(findedItems: Attributes, routeName: Option<string>)

  // ---------------------------------------------------------------------
  // Registry
  // ---------------------------------------------------------------------

  /** A route enters the registry when it has a non-empty name listed among the candidates. */
  predicate IsCandidate(route: Route, candidates: seq<string>) {
    route.name.Some? && !IsEmpty(route.name.value) && route.name.value in candidates
  }

  /** The scan over all routes: each candidate writes its parameter names under its name. */
  function CollectRoutes(routes: seq<Route>, candidates: seq<string>): (reg: Registry)
    ensures UniqueKeys(reg)
  {
    if routes == [] then []
    else
      var prev := CollectRoutes(routes[..|routes| - 1], candidates);
      var last := routes[|routes| - 1];
      if IsCandidate(last, candidates) then
        PutGet(prev, last.name.value, last.parameterNames);
        Put(prev, last.name.value, last.parameterNames)
      else prev
  }

  /** `prepareDinamicRoute`: build the registry unless it is already non-empty. */
  function PrepareDynamicRoutes(t: Translator, allRoutes: seq<Route>): (t': Translator)
    ensures t.dynamicRoutes != [] ==> t' == t
    ensures t'.candidatesRouteNames == t.candidatesRouteNames
    ensures t'.modelParamRelation == t.modelParamRelation
    ensures UniqueKeys(t.dynamicRoutes) ==> UniqueKeys(t'.dynamicRoutes)
  {
    if t.dynamicRoutes != [] then t
    else t.(dynamicRoutes := CollectRoutes(allRoutes, t.candidatesRouteNames))
  }

  // ---------------------------------------------------------------------
  // Forward: route name and attributes to a path
  // ---------------------------------------------------------------------

  /** `findModelByParam`: the first model, in configuration order, whose parameter list holds `param`. */
  function FindModelByParam(relation: Assoc<seq<string>>, param: string): (r: Option<string>)
    ensures r.None? <==> forall i :: 0 <= i < |relation| ==> param !in relation[i].1
    ensures r.Some? ==> exists i :: (0 <= i < |relation| && relation[i].0 == r.value && param in relation[i].1 &&
      forall j :: 0 <= j < i ==> param !in relation[j].1)
  {
    if relation == [] then None
    else if param in relation[0].1 then Some(relation[0].0)
    else
      var r := FindModelByParam(relation[1..], param);
      assert forall i :: 1 <= i < |relation| ==> relation[i] == relation[1..][i - 1];
      r
  }

  /** The path segment for one route parameter, or the error the source raises for it. */
  function Segment(t: Translator, models: Models, routeName: string, param: string, attributes: Attributes,
                   locale: string, attributesSluged: bool): Result<string, TranslatorError>
  {
    match Get(attributes, param)
    case None => Failure(InvalidParams(param, routeName))
    case Some(value) =>
      if attributesSluged then Success(value)
      else match FindModelByParam(t.modelParamRelation, param)
        case None => Failure(NoModelForParam(param))
        case Some(model) => Success(models.findLocalisationSlugByItem(model, value, param, locale))
  }

  /** The segments for a parameter list, in order; the first failing parameter decides the error. */
  function Segments(t: Translator, models: Models, routeName: string, params: seq<string>, attributes: Attributes,
                    locale: string, attributesSluged: bool): (r: Result<seq<string>, TranslatorError>)
    ensures r.Success? ==> |r.value| == |params|
    decreases |params|
  {
    if params == [] then Success([])
    else
      match Segments(t, models, routeName, params[..|params| - 1], attributes, locale, attributesSluged)
      case Failure(e) => Failure(e)
      case Success(segs) =>
        match Segment(t, models, routeName, params[|params| - 1], attributes, locale, attributesSluged)
        case Failure(e) => Failure(e)
        case Success(s) => Success(segs + [s])
  }

  /** Each segment preceded by a `/`, in order. */
  function SlashJoin(segs: seq<string>): string
  {
    if segs == [] then "" else SlashJoin(segs[..|segs| - 1]) + "/" + segs[|segs| - 1]
  }

  /**
   * The URL the forward build produces against an already prepared registry.
   * The source reads the registry entry without checking it; an unknown route
   * name is taken as the error the framework's handler raises for that read.
   */
  function BuildUrl(t: Translator, models: Models, url: string, locale: string, routeName: string,
                    attributes: Attributes, attributesSluged: bool): Result<string, TranslatorError>
  {
    match Get(t.dynamicRoutes, routeName)
    case None => Failure(RouteNotFound(routeName))
    case Some(params) =>
      match Segments(t, models, routeName, params, attributes, locale, attributesSluged)
      case Failure(e) => Failure(e)
      case Success(segs) => Success(url + SlashJoin(segs))
  }

  /** Once a prefix of the parameter list fails, the whole list fails with the same error. */
  lemma {:induction false} SegmentsFailurePersists(t: Translator, models: Models, routeName: string, params: seq<string>,
                                                   k: nat, attributes: Attributes, locale: string, attributesSluged: bool)
    requires k <= |params|
    requires Segments(t, models, routeName, params[..k], attributes, locale, attributesSluged).Failure?
    ensures Segments(t, models, routeName, params, attributes, locale, attributesSluged) ==
            Segments(t, models, routeName, params[..k], attributes, locale, attributesSluged)
    decreases |params| - k
  {
    if k < |params| {
      var next := params[..k + 1];
      assert next[..|next| - 1] == params[..k];
      SegmentsFailurePersists(t, models, routeName, params, k + 1, attributes, locale, attributesSluged);
    } else {
      assert params[..k] == params;
    }
  }

  /** One more parameter extends the segments by its own, or fails with its error. */
  lemma SegmentsExtend(t: Translator, models: Models, routeName: string, params: seq<string>, i: nat,
                       attributes: Attributes, locale: string, attributesSluged: bool, segs: seq<string>)
    requires i < |params|
    requires Segments(t, models, routeName, params[..i], attributes, locale, attributesSluged) == Success(segs)
    ensures var seg := Segment(t, models, routeName, params[i], attributes, locale, attributesSluged);
      Segments(t, models, routeName, params[..i + 1], attributes, locale, attributesSluged)
        == (if seg.Success? then Success(segs + [seg.value]) else Failure(seg.error))
  {
    var prefix := params[..i + 1];
    assert prefix[..|prefix| - 1] == params[..i];
    assert prefix[|prefix| - 1] == params[i];
  }

  lemma AppendSegment(url: string, joined: string, seg: string)
    ensures url + joined + "/" + seg == url + (joined + "/" + seg)
  {
  }

  lemma SlashJoinSnoc(segs: seq<string>, s: string)
    ensures SlashJoin(segs + [s]) == SlashJoin(segs) + "/" + s
  {
    var all := segs + [s];
    assert all[..|all| - 1] == segs;
  }

  /**
   * `getUrlFromRouteName`: prepare the registry, then walk the route's
   * parameters in declared order, appending `/` and the segment for each.
   */
  method GetUrlFromRouteName(t: Translator, allRoutes: seq<Route>, models: Models, url: string, locale: string,
                             routeName: string, attributes: Attributes, attributesSluged: bool)
    returns (t': Translator, r: Result<string, TranslatorError>)
    ensures t' == PrepareDynamicRoutes(t, allRoutes)
    ensures r == BuildUrl(t', models, url, locale, routeName, attributes, attributesSluged)
  {
    t' := PrepareDynamicRoutes(t, allRoutes);
    var routeParams := Get(t'.dynamicRoutes, routeName);
    if routeParams.None? {
      return t', Failure(RouteNotFound(routeName));
    }
    var params := routeParams.value;
    var built := url;
    ghost var segs: seq<string> := [];
    var i := 0;
    while i < |params|
      invariant 0 <= i <= |params|
      invariant Segments(t', models, routeName, params[..i], attributes, locale, attributesSluged) == Success(segs)
      invariant built == url + SlashJoin(segs)
    {
      SegmentsExtend(t', models, routeName, params, i, attributes, locale, attributesSluged, segs);
      var seg := Segment(t', models, routeName, params[i], attributes, locale, attributesSluged);
      if seg.Failure? {
        SegmentsFailurePersists(t', models, routeName, params, i + 1, attributes, locale, attributesSluged);
        return t', Failure(seg.error);
      }
      SlashJoinSnoc(segs, seg.value);
      AppendSegment(url, SlashJoin(segs), seg.value);
      built := built + "/" + seg.value;
      segs := segs + [seg.value];
      i := i + 1;
    }
    assert params[..i] == params;
    r := Success(built);
  }

  // ---------------------------------------------------------------------
  // Reverse: a path back to a route name and resolved items
  // ---------------------------------------------------------------------

  /** The two `preg_replace` calls for one locale: drop a leading `locale/` (or `/locale/`), then a path that is just the locale. */
  function StripLocale(path: string, locale: string): string
  {
    var p :=
      if HasPrefix(path, "/" + locale + "/") then path[|locale| + 2..]
      else if HasPrefix(path, locale + "/") then path[|locale| + 1..]
      else path;
    if p == "/" + locale || p == locale then "" else p
  }

  /** The replacements applied for every supported locale, in supported-locale order. */
  function StripLocales(path: string, locales: seq<string>): string
    decreases |locales|
  {
    if locales == [] then path else StripLocales(StripLocale(path, locales[0]), locales[1..])
  }

  /** `clearPath`: the URL's path with supported-locale prefixes removed and no `/` at either end. */
  function ClearPath(parsed: Option<ParsedUrl>, locales: seq<string>): (path: string)
    ensures path == [] || (path[0] != '/' && path[|path| - 1] != '/')
    ensures parsed.None? || parsed.value.path.None? ==> path == ""
  {
    var p := if parsed.None? || parsed.value.path.None? then "" else StripLocales(parsed.value.path.value, locales);
    TrimBoth(p, Slash)
  }

  /** Per segment, the first candidate model whose `findItemBySlug` yields a non-empty result wins. */
  function FirstHit(models: Models, slugModels: seq<string>, slug: string, locale: string, context: Attributes)
    : (r: Option<Attributes>)
    ensures r.None? <==> forall i :: 0 <= i < |slugModels| ==> models.findItemBySlug(slugModels[i], slug, locale, context) == []
    ensures r.Some? ==> r.value != [] && exists i :: (0 <= i < |slugModels| &&
      models.findItemBySlug(slugModels[i], slug, locale, context) == r.value &&
      forall j :: 0 <= j < i ==> models.findItemBySlug(slugModels[j], slug, locale, context) == [])
  {
    if slugModels == [] then None
    else
      var found := models.findItemBySlug(slugModels[0], slug, locale, context);
      if found != [] then Some(found)
      else
        var r := FirstHit(models, slugModels[1..], slug, locale, context);
        assert forall i :: 1 <= i < |slugModels| ==> slugModels[i] == slugModels[1..][i - 1];
        r
  }

  /** The lookup for the segment at `position`: the candidate models `get_model_relation` names, tried in order. */
  function SegmentHit(t: Translator, models: Models, position: nat, previousPositions: map<nat, string>,
                      slug: string, locale: string, context: Attributes): Option<Attributes>
  {
    FirstHit(models, models.getModelRelation(position, t.dynamicRoutes, t.modelParamRelation, previousPositions),
             slug, locale, context)
  }

  /**
   * The loop over the path segments from `position` on. A hit is merged into
   * the items and its first key recorded for its position. `shareContext`
   * selects what each lookup receives as context: the items accumulated so
   * far, or an empty array.
   */
  function ResolveSegments(t: Translator, models: Models, segs: seq<string>, position: nat, items: Attributes,
                           previousPositions: map<nat, string>, locale: string, shareContext: bool)
    : (r: (Attributes, map<nat, string>))
    requires position <= |segs|
    decreases |segs| - position
  {
    if position == |segs| then (items, previousPositions)
    else
      var context := if shareContext then items else [];
      match SegmentHit(t, models, position, previousPositions, segs[position], locale, context)
      case None => ResolveSegments(t, models, segs, position + 1, items, previousPositions, locale, shareContext)
      case Some(found) =>
        ResolveSegments(t, models, segs, position + 1, Merge(items, found),
                        previousPositions[position := found[0].0], locale, shareContext)
  }

  /** The route test of the source: the parameter list and the resolved keys hold the same names. */
  predicate SameParams(params: seq<string>, keys: seq<string>) {
    (set x | x in params) == (set x | x in keys)
  }

  /** The first registered route with `n` parameters whose parameter set equals the resolved key set. */
  function MatchRoute(reg: Registry, keys: seq<string>, n: nat): (r: Option<string>)
    ensures r.None? <==> forall i :: 0 <= i < |reg| ==> !(|reg[i].1| == n && SameParams(reg[i].1, keys))
    ensures r.Some? ==> exists i :: (0 <= i < |reg| && reg[i].0 == r.value && |reg[i].1| == n &&
      SameParams(reg[i].1, keys) && forall j :: 0 <= j < i ==> !(|reg[j].1| == n && SameParams(reg[j].1, keys)))
  {
    if reg == [] then None
    else
      ArrayDiffSymmetricIff(reg[0].1, keys);
      if |reg[0].1| == n && ArrayDiff(reg[0].1, keys) == ArrayDiff(keys, reg[0].1) then Some(reg[0].0)
      else
        var r := MatchRoute(reg[1..], keys, n);
        assert forall i :: 1 <= i < |reg| ==> reg[i] == reg[1..][i - 1];
        r
  }

  /** Every one of the first `n` segment positions recorded a hit. */
  predicate AllPositionsHit(positions: map<nat, string>, n: nat) {
    forall i :: 0 <= i < n ==> i in positions
  }

  /**
   * The reverse resolution, as written or corrected. As written, every lookup
   * receives an empty context, and the URL counts as resolved when the items
   * number the segments. Corrected, every lookup receives the items found so
   * far, and in addition every segment must have had a hit.
   */
  function DynamicDataFromUrl(t: Translator, allRoutes: seq<Route>, models: Models, parse: UrlParser,
                              supportedLocales: seq<string>, url: string, fromLocale: string, corrected: bool)
    : (r: (Translator, DynamicData))
    ensures IsEmpty(url) ==> r == (t, NoUrl)
    ensures !IsEmpty(url) ==> r.0 == PrepareDynamicRoutes(t, allRoutes) && !r.1.NoUrl?
  {
    if IsEmpty(url) then (t, NoUrl)
    else
      var t' := PrepareDynamicRoutes(t, allRoutes);
      var segs := Explode(ClearPath(parse(url), supportedLocales), '/');
      var (items, positions) := ResolveSegments(t', models, segs, 0, [], map[], fromLocale, corrected);
      if |items| == |segs| && (corrected ==> AllPositionsHit(positions, |segs|)) then
        (t', Resolved(items, MatchRoute(t'.dynamicRoutes, Keys(items), |segs|)))
      else (t', Unresolved)
  }

  /**
   * `getDynamicDataFromUrl` as the source writes it: every lookup receives
   * the never-updated local `$findedItems`, that is, an empty context, and
   * only the number of collected items is compared with the segment count.
   */
  function GetDynamicDataFromUrlAsWritten(t: Translator, allRoutes: seq<Route>, models: Models, parse: UrlParser,
                                          supportedLocales: seq<string>, url: string, fromLocale: string)
    : (r: (Translator, DynamicData))
    ensures IsEmpty(url) ==> r == (t, NoUrl)
  {
    DynamicDataFromUrl(t, allRoutes, models, parse, supportedLocales, url, fromLocale, false)
  }

  /**
   * `getDynamicDataFromUrl` as intended: each lookup receives the items
   * resolved from the earlier segments, and a URL is resolved only when
   * every one of its segments found an item.
   */
  function GetDynamicDataFromUrl(t: Translator, allRoutes: seq<Route>, models: Models, parse: UrlParser,
                                 supportedLocales: seq<string>, url: string, fromLocale: string)
    : (r: (Translator, DynamicData))
    ensures IsEmpty(url) ==> r == (t, NoUrl)
    ensures !IsEmpty(url) ==> r.0 == PrepareDynamicRoutes(t, allRoutes)
    ensures r.1.Resolved? ==>
      var segs := Explode(ClearPath(parse(url), supportedLocales), '/');
      |r.1.findedItems| == |segs| && (r.1.routeName.Some? ==> HasKey(r.0.dynamicRoutes, r.1.routeName.value))
  {
    DynamicDataFromUrl(t, allRoutes, models, parse, supportedLocales, url, fromLocale, true)
  }
}
