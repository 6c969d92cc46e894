/**
 * The two reference tables: the street table (one row per street name, with
 * the columns the suggestion pipeline reads) and the city population table
 * from which each city's population score is derived.
 */
module Tables {
  import opened Wrappers

  /**
   * One row of the street table. `officialCode` is the street code of the
   * street's official name (a synonym row points at its official row);
   * `popScore` is the row's city's population score.
   */
  datatype StreetRow = StreetRow(
    cityCode: int,
    cityName: string,
    streetCode: int,
    streetName: string,
    officialCode: int,
    isOfficialName: bool,
    popScore: real)

  /** The `official_factor` column: a one percent bonus for official names. */
  function OfficialFactor(isOfficialName: bool): (f: real)
    ensures isOfficialName ==> f == 1.01
    ensures !isOfficialName ==> f == 1.0
  {
    (if isOfficialName then 1 else 0) as real * 0.01 + 1.0
  }

  /** A row of the city population table: the population counts of the working-age brackets. */
  datatype CityPopulation = CityPopulation(
    cityCode: int,
    cityName: string,
    regionCode: int,
    pop19To45: nat,
    pop46To55: nat,
    pop56To64: nat)

  /** The `pop_19_64` column. */
  function WorkingAge(c: CityPopulation): nat {
    c.pop19To45 + c.pop46To55 + c.pop56To64
  }

  /** The sum of the `pop_19_64` column. */
  function TotalWorkingAge(cities: seq<CityPopulation>): (total: nat)
    ensures forall c :: c in cities ==> WorkingAge(c) <= total
  {
    if cities == [] then 0 else WorkingAge(cities[0]) + TotalWorkingAge(cities[1..])
  }

  /** Each city's working-age population divided by `total`. */
  function Shares(cities: seq<CityPopulation>, total: real): (r: seq<real>)
    requires total > 0.0
    ensures |r| == |cities|
    ensures forall i :: 0 <= i < |cities| ==> r[i] == WorkingAge(cities[i]) as real / total
  {
    if cities == [] then [] else [WorkingAge(cities[0]) as real / total] + Shares(cities[1..], total)
  }

  function Sum(xs: seq<real>): real {
    if xs == [] then 0.0 else xs[0] + Sum(xs[1..])
  }

  /**
   * The `pop_score` column: each city's share of the working-age population
   * of all cities. There is no score when that population is zero (the
   * division would not give a number).
   */
  function PopScores(cities: seq<CityPopulation>): (r: Option<seq<real>>)
    ensures r.None? <==> TotalWorkingAge(cities) == 0
    ensures r.Some? ==> |r.value| == |cities| && forall i :: 0 <= i < |cities| ==> 0.0 <= r.value[i] <= 1.0
    ensures r.Some? ==> forall i :: 0 <= i < |cities| ==>
      r.value[i] == WorkingAge(cities[i]) as real / TotalWorkingAge(cities) as real
  {
    var total := TotalWorkingAge(cities);
    if total == 0 then None
    else
      var r := Shares(cities, total as real);
      assert forall i :: 0 <= i < |cities| ==> 0.0 <= r[i] <= 1.0 by {
        forall i | 0 <= i < |cities| ensures 0.0 <= r[i] <= 1.0 {
          assert cities[i] in cities;
          ShareAtMostOne(WorkingAge(cities[i]), total);
        }
      }
      Some(r)
  }

  lemma ShareAtMostOne(part: nat, total: nat)
    requires part <= total && total > 0
    ensures 0.0 <= part as real / total as real <= 1.0
  {
  }

  /** The population scores of all cities add up to one. */
  lemma PopScoresSumToOne(cities: seq<CityPopulation>)
    requires TotalWorkingAge(cities) > 0
    ensures Sum(PopScores(cities).value) == 1.0
  {
    var total := TotalWorkingAge(cities) as real;
    SumOfShares(cities, total);
    assert PopScores(cities).value == Shares(cities, total);
    DivSelf(total);
  }

  lemma DivSelf(t: real)
    requires t > 0.0
    ensures t / t == 1.0
  {
    var q := t / t;
    assert q * t == 1.0 * t;
  }

  lemma {:induction false} SumOfShares(cities: seq<CityPopulation>, total: real)
    requires total > 0.0
    ensures Sum(Shares(cities, total)) == TotalWorkingAge(cities) as real / total
  {
    if cities != [] {
      SumOfShares(cities[1..], total);
      var a, b := WorkingAge(cities[0]) as real, TotalWorkingAge(cities[1..]) as real;
      assert Shares(cities, total)[1..] == Shares(cities[1..], total);
      DivAdd(a, b, total);
    }
  }

  lemma DivAdd(a: real, b: real, t: real)
    requires t > 0.0
    ensures a / t + b / t == (a + b) / t
  {
    var x, y := a / t, b / t;
    assert x * t == a && y * t == b;
    assert (x + y) * t == a + b;
  }
}
