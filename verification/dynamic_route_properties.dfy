/**
 * Properties of the dynamic route translator: what the registry holds, what
 * the forward build produces, how `clearPath` strips locale prefixes, that
 * reverse resolution is all-or-nothing, and that resolving a built URL gives
 * back the route and its items.
 */
module DynamicRouteProperties {
  import opened Wrappers
  import opened PhpStrings
  import opened PhpArrays
  import opened PhpUrls
  import opened Routing
  import opened DynamicRouteTranslator

  // ---------------------------------------------------------------------
  // Registry
  // ---------------------------------------------------------------------

  /** A route name is a registry key exactly when some candidate route carries it. */
  lemma {:induction false} RegistryKeys(routes: seq<Route>, candidates: seq<string>)
    ensures forall k :: HasKey(CollectRoutes(routes, candidates), k) <==>
      exists i :: 0 <= i < |routes| && IsCandidate(routes[i], candidates) && routes[i].name == Some(k)
    decreases |routes|
  {
    if routes != [] {
      var init := routes[..|routes| - 1];
      var last := routes[|routes| - 1];
      var prev := CollectRoutes(init, candidates);
      var reg := CollectRoutes(routes, candidates);
      RegistryKeys(init, candidates);
      if IsCandidate(last, candidates) {
        PutGet(prev, last.name.value, last.parameterNames);
      }
      forall k ensures HasKey(reg, k) <==>
        exists i :: 0 <= i < |routes| && IsCandidate(routes[i], candidates) && routes[i].name == Some(k)
      {
        assert routes[|routes| - 1] == last;
        var added := IsCandidate(last, candidates) && k == last.name.value;
        assert !added ==> (HasKey(reg, k) <==> HasKey(prev, k)) by {
          assert !added ==> Get(reg, k) == Get(prev, k);
        }
        if exists i :: 0 <= i < |routes| && IsCandidate(routes[i], candidates) && routes[i].name == Some(k) {
          var i :| 0 <= i < |routes| && IsCandidate(routes[i], candidates) && routes[i].name == Some(k);
          if i < |init| {
            assert init[i] == routes[i];
          }
        }
        if HasKey(prev, k) {
          var i :| 0 <= i < |init| && IsCandidate(init[i], candidates) && init[i].name == Some(k);
          assert routes[i] == init[i];
        }
      }
    }
  }

  /** Under each name the registry holds the parameter list of the last candidate route with that name. */
  lemma {:induction false} RegistryValues(routes: seq<Route>, candidates: seq<string>)
    ensures forall k :: HasKey(CollectRoutes(routes, candidates), k) ==>
      exists i :: (0 <= i < |routes| && IsCandidate(routes[i], candidates) && routes[i].name == Some(k) &&
        routes[i].parameterNames == Get(CollectRoutes(routes, candidates), k).value &&
        forall j :: i < j < |routes| ==> routes[j].name != Some(k))
    decreases |routes|
  {
    if routes != [] {
      var init := routes[..|routes| - 1];
      var last := routes[|routes| - 1];
      var prev := CollectRoutes(init, candidates);
      var reg := CollectRoutes(routes, candidates);
      RegistryValues(init, candidates);
      if IsCandidate(last, candidates) {
        PutGet(prev, last.name.value, last.parameterNames);
      }
      forall k | HasKey(reg, k)
        ensures exists i :: (0 <= i < |routes| && IsCandidate(routes[i], candidates) && routes[i].name == Some(k) &&
          routes[i].parameterNames == Get(reg, k).value &&
          forall j :: i < j < |routes| ==> routes[j].name != Some(k))
      {
        if IsCandidate(last, candidates) && k == last.name.value {
          assert routes[|routes| - 1] == last;
        } else {
          assert HasKey(prev, k) && Get(reg, k) == Get(prev, k);
          var i :| 0 <= i < |init| && IsCandidate(init[i], candidates) && init[i].name == Some(k) &&
            init[i].parameterNames == Get(prev, k).value &&
            forall j :: i < j < |init| ==> init[j].name != Some(k);
          assert routes[i] == init[i];
          assert forall j :: i < j < |init| ==> routes[j] == init[j];
          assert last.name != Some(k);
        }
      }
    }
  }

  /** Preparing the registry twice is the same as preparing it once. */
  lemma PrepareIdempotent(t: Translator, allRoutes: seq<Route>)
    ensures PrepareDynamicRoutes(PrepareDynamicRoutes(t, allRoutes), allRoutes) == PrepareDynamicRoutes(t, allRoutes)
  {
  }

  // ---------------------------------------------------------------------
  // Forward build
  // ---------------------------------------------------------------------

  /** All parameters before index `k` yield a segment. */
  ghost predicate SegmentsUpTo(t: Translator, models: Models, routeName: string, params: seq<string>, k: nat,
                               attributes: Attributes, locale: string, attributesSluged: bool)
    requires k <= |params|
  {
    forall i :: 0 <= i < k ==> Segment(t, models, routeName, params[i], attributes, locale, attributesSluged).Success?
  }

  /** When every parameter yields a segment, the segments are those of the parameters, in declared order. */
  lemma {:induction false} SegmentsAllSucceed(t: Translator, models: Models, routeName: string, params: seq<string>,
                                              attributes: Attributes, locale: string, attributesSluged: bool)
    requires SegmentsUpTo(t, models, routeName, params, |params|, attributes, locale, attributesSluged)
    ensures var r := Segments(t, models, routeName, params, attributes, locale, attributesSluged);
      r.Success? && |r.value| == |params| &&
      forall i :: 0 <= i < |params| ==>
        Segment(t, models, routeName, params[i], attributes, locale, attributesSluged) == Success(r.value[i])
    decreases |params|
  {
    if params != [] {
      var init := params[..|params| - 1];
      var lastParam := params[|params| - 1];
      assert forall i :: 0 <= i < |init| ==> init[i] == params[i];
      SegmentsAllSucceed(t, models, routeName, init, attributes, locale, attributesSluged);
      var segs := Segments(t, models, routeName, init, attributes, locale, attributesSluged).value;
      var last := Segment(t, models, routeName, lastParam, attributes, locale, attributesSluged);
      assert last.Success?;
      var all := segs + [last.value];
      assert Segments(t, models, routeName, params, attributes, locale, attributesSluged) == Success(all);
      forall i | 0 <= i < |params|
        ensures Segment(t, models, routeName, params[i], attributes, locale, attributesSluged) == Success(all[i])
      {
        if i < |init| {
          assert all[i] == segs[i];
        }
      }
    }
  }

  /** When parameter `k` is the first without a segment, the build fails with its error. */
  lemma {:induction false} SegmentsFirstFailure(t: Translator, models: Models, routeName: string, params: seq<string>,
                                                k: nat, attributes: Attributes, locale: string, attributesSluged: bool)
    requires k < |params|
    requires SegmentsUpTo(t, models, routeName, params, k, attributes, locale, attributesSluged)
    requires Segment(t, models, routeName, params[k], attributes, locale, attributesSluged).Failure?
    ensures Segments(t, models, routeName, params, attributes, locale, attributesSluged) ==
      Failure(Segment(t, models, routeName, params[k], attributes, locale, attributesSluged).error)
  {
    var pre := params[..k];
    assert forall i :: 0 <= i < k ==> pre[i] == params[i];
    SegmentsAllSucceed(t, models, routeName, pre, attributes, locale, attributesSluged);
    var segs := Segments(t, models, routeName, pre, attributes, locale, attributesSluged).value;
    SegmentsExtend(t, models, routeName, params, k, attributes, locale, attributesSluged, segs);
    SegmentsFailurePersists(t, models, routeName, params, k + 1, attributes, locale, attributesSluged);
  }

  /**
   * With slugs already resolved, the built URL is the given `url` followed by
   * one `/` and the attribute value for each route parameter, in declared order.
   */
  lemma BuildUrlSluged(t: Translator, models: Models, url: string, locale: string, routeName: string,
                       params: seq<string>, attributes: Attributes, values: seq<string>)
    requires Get(t.dynamicRoutes, routeName) == Some(params)
    requires |values| == |params|
    requires forall i :: 0 <= i < |params| ==> Get(attributes, params[i]) == Some(values[i])
    ensures BuildUrl(t, models, url, locale, routeName, attributes, true) == Success(url + SlashJoin(values))
  {
    SegmentsAllSucceed(t, models, routeName, params, attributes, locale, true);
    var segs := Segments(t, models, routeName, params, attributes, locale, true).value;
    assert segs == values;
  }

  /**
   * A parameter without a value aborts the build with an error naming it and
   * the route; no partial URL comes out. The first such parameter (in declared
   * order) is the one named. The check for a missing value comes before any
   * slug lookup, so this holds in both modes, as long as the earlier
   * parameters have a model when slugs still have to be looked up.
   */
  lemma BuildUrlMissingParam(t: Translator, models: Models, url: string, locale: string, routeName: string,
                             params: seq<string>, k: nat, attributes: Attributes, attributesSluged: bool)
    requires Get(t.dynamicRoutes, routeName) == Some(params)
    requires k < |params| && !HasKey(attributes, params[k])
    requires forall i :: 0 <= i < k ==> HasKey(attributes, params[i])
    requires !attributesSluged ==> forall i :: 0 <= i < k ==> FindModelByParam(t.modelParamRelation, params[i]).Some?
    ensures BuildUrl(t, models, url, locale, routeName, attributes, attributesSluged) ==
      Failure(InvalidParams(params[k], routeName))
  {
    SegmentsFirstFailure(t, models, routeName, params, k, attributes, locale, attributesSluged);
  }

  /** An unknown route name is reported as such. */
  lemma BuildUrlUnknownRoute(t: Translator, models: Models, url: string, locale: string, routeName: string,
                             attributes: Attributes, attributesSluged: bool)
    requires !HasKey(t.dynamicRoutes, routeName)
    ensures BuildUrl(t, models, url, locale, routeName, attributes, attributesSluged) == Failure(RouteNotFound(routeName))
  {
  }
}
