/**
 * Resolving a city fragment typed by the user against the city registry
 * (`get_matching_cities`). The registry is the list of city names in the
 * order of the city table.
 */
module CityResolver {
  import opened Wrappers
  import opened Seqs
  import opened Text

  /**
   * The registry names the fragment may stand for: none for a missing or empty
   * fragment; the fragment alone when it is a registry name; otherwise the
   * names starting with it (a one-character fragment) or containing it.
   */
  function MatchingCities(registry: seq<string>, fragment: Option<string>): (r: seq<string>)
    ensures fragment == None || fragment == Some("") ==> r == []
    ensures fragment.Some? && fragment.value != "" && fragment.value in registry ==> r == [fragment.value]
    ensures fragment.Some? && fragment.value != "" && fragment.value !in registry && |fragment.value| < 2 ==>
      && SubsequenceOf(r, registry)
      && forall name :: name in r <==> name in registry && StartsWith(name, fragment.value)
    ensures fragment.Some? && fragment.value !in registry && |fragment.value| >= 2 ==>
      && SubsequenceOf(r, registry)
      && forall name :: name in r <==> name in registry && Contains(name, fragment.value)
    ensures forall name :: name in r ==> name in registry
  {
    match fragment
    case None => []
    case Some(f) =>
      if f == "" then []
      else if f in registry then [f]
      else if |f| < 2 then Filter(registry, name => StartsWith(name, f))
      else Filter(registry, name => Contains(name, f))
  }
}
