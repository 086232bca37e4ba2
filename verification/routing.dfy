/** The package's route class: a framework route with two extra boolean markers. */
module Routing {
  import opened Wrappers

  /**
   * A route as the localization code sees it: its name (routes may be
   * unnamed), the parameter names the framework compiled from its URI, and
   * the `dynamic` and `translatable` markers this package adds.
   */
  datatype Route = Route(
    name: Option<string>,
    parameterNames: seq<string>,
    dynamic: bool,
    translatable: bool)

  /** A freshly constructed route carries neither marker. */
  function NewRoute(name: Option<string>, parameterNames: seq<string>): (r: Route)
    ensures !r.dynamic && !r.translatable
    ensures r.name == name && r.parameterNames == parameterNames
  {
    Route(name, parameterNames, false, false)
  }

  /** `makeDynamic()`: switches `dynamic` on and touches nothing else. */
  function MakeDynamic(r: Route): (r': Route)
    ensures r'.dynamic
    ensures r'.translatable == r.translatable
    ensures r'.name == r.name && r'.parameterNames == r.parameterNames
  {
    r.(dynamic := true)
  }

  /** `makeTranslatable()`: switches `translatable` on and touches nothing else. */
  function MakeTranslatable(r: Route): (r': Route)
    ensures r'.translatable
    ensures r'.dynamic == r.dynamic
    ensures r'.name == r.name && r'.parameterNames == r.parameterNames
  {
    r.(translatable := true)
  }

  /** Both setters are idempotent and the order in which they are applied does not matter. */
  lemma SettersIdempotentAndCommute(r: Route)
    ensures MakeDynamic(MakeDynamic(r)) == MakeDynamic(r)
    ensures MakeTranslatable(MakeTranslatable(r)) == MakeTranslatable(r)
    ensures MakeDynamic(MakeTranslatable(r)) == MakeTranslatable(MakeDynamic(r))
  {
  }
}
