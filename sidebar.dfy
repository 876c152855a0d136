/**
 * `create_sidebar` without its widgets: the option list of every filter
 * dimension, and the resolution of the user's picks into a filter selection.
 */
module Sidebar {
  import opened Wrappers
  import opened Ordering
  import opened Tables

  /** An inclusive age interval, as the range slider returns it. */
  datatype AgeRange = AgeRange(lo: int, hi: int)

  /**
   * What the user chose in the widgets: an empty multiselect is `[]`, an
   * untouched slider `None`.
   */
  datatype Picks = Picks(
    continent: seq<string>,
    country: seq<string>,
    sport: seq<string>,
    gender: seq<string>,
    age: Option<AgeRange>)

  /** The dictionary `create_sidebar` returns, one field per key. */
  datatype FilterSelection = FilterSelection(
    continent: seq<string>,
    country: seq<string>,
    sport: seq<string>,
    gender: seq<string>,
    age: AgeRange)

  /** `int(athletes_df['Age'].min())` raises when no athlete has an age. */
  datatype SidebarError = NoKnownAge

  /** `athletes_df[athletes_df['Continent'].isin(continents)]['country']`. */
  function CountriesIn(athletes: seq<Athlete>, continents: seq<string>): (r: seq<string>)
    ensures forall c :: c in r <==>
      exists i :: 0 <= i < |athletes| && athletes[i].country == c && athletes[i].continent in continents
    decreases |athletes|
  {
    if athletes == [] then []
    else
      var rest := CountriesIn(athletes[1..], continents);
      assert forall i :: 1 <= i < |athletes| ==> athletes[i] == athletes[1..][i - 1];
      if athletes[0].continent in continents then [athletes[0].country] + rest else rest
  }

  /** `athletes_df['gender'].dropna()`. */
  function KnownGenders(athletes: seq<Athlete>): (r: seq<string>)
    ensures forall g :: g in r <==> exists i :: 0 <= i < |athletes| && athletes[i].gender == Some(g)
    decreases |athletes|
  {
    if athletes == [] then []
    else
      var rest := KnownGenders(athletes[1..]);
      assert forall i :: 1 <= i < |athletes| ==> athletes[i] == athletes[1..][i - 1];
      if athletes[0].gender.Some? then [athletes[0].gender.value] + rest else rest
  }

  /** Continent options: every athlete continent, once each, ascending. */
  function ContinentOptions(athletes: seq<Athlete>): (r: seq<string>)
    ensures StrictlySorted(r)
    ensures forall c :: c in r <==> exists i :: 0 <= i < |athletes| && athletes[i].continent == c
  {
    var column := seq(|athletes|, i requires 0 <= i < |athletes| => athletes[i].continent);
    assert forall i :: 0 <= i < |athletes| ==> column[i] == athletes[i].continent;
    var r := SortedDistinct(column);
    assert forall c :: c in r <==> c in Elements(column);
    r
  }

  /**
   * Country options, the cascading dimension: the countries of the athletes
   * whose continent is among the already resolved `continents`, once each, ascending.
   */
  function CountryOptions(athletes: seq<Athlete>, continents: seq<string>): (r: seq<string>)
    ensures StrictlySorted(r)
    ensures forall c :: c in r <==>
      exists i :: 0 <= i < |athletes| && athletes[i].country == c && athletes[i].continent in continents
  {
    var countries := CountriesIn(athletes, continents);
    var r := SortedDistinct(countries);
    assert forall c :: c in r <==> c in Elements(countries);
    r
  }

  /** Sport options: every athlete's cleaned disciplines text, once each, ascending. */
  function SportOptions(athletes: seq<Athlete>): (r: seq<string>)
    ensures StrictlySorted(r)
    ensures forall s :: s in r <==> exists i :: 0 <= i < |athletes| && athletes[i].disciplines == s
  {
    var column := seq(|athletes|, i requires 0 <= i < |athletes| => athletes[i].disciplines);
    assert forall i :: 0 <= i < |athletes| ==> column[i] == athletes[i].disciplines;
    var r := SortedDistinct(column);
    assert forall s :: s in r <==> s in Elements(column);
    r
  }

  /** Gender options: the non-null genders, once each, ascending. */
  function GenderOptions(athletes: seq<Athlete>): (r: seq<string>)
    ensures StrictlySorted(r)
    ensures forall g :: g in r <==> exists i :: 0 <= i < |athletes| && athletes[i].gender == Some(g)
  {
    var genders := KnownGenders(athletes);
    var r := SortedDistinct(genders);
    assert forall g :: g in r <==> g in Elements(genders);
    r
  }

  /** `athletes_df['Age'].min()`, which skips missing ages; `None` when there is no age at all. */
  function MinAge(athletes: seq<Athlete>): (r: Option<int>)
    ensures r.None? <==> forall i :: 0 <= i < |athletes| ==> athletes[i].age.None?
    ensures r.Some? ==> forall i :: 0 <= i < |athletes| && athletes[i].age.Some? ==> r.value <= athletes[i].age.value
    ensures r.Some? ==> exists i :: 0 <= i < |athletes| && athletes[i].age == r
    decreases |athletes|
  {
    if athletes == [] then None
    else
      var rest := MinAge(athletes[1..]);
      assert forall i :: 1 <= i < |athletes| ==> athletes[i] == athletes[1..][i - 1];
      match athletes[0].age
      case None => rest
      case Some(a) =>
        if rest.Some? && rest.value < a then rest else Some(a)
  }

  /** `athletes_df['Age'].max()`, which skips missing ages; `None` when there is no age at all. */
  function MaxAge(athletes: seq<Athlete>): (r: Option<int>)
    ensures r.None? <==> forall i :: 0 <= i < |athletes| ==> athletes[i].age.None?
    ensures r.Some? ==> forall i :: 0 <= i < |athletes| && athletes[i].age.Some? ==> athletes[i].age.value <= r.value
    ensures r.Some? ==> exists i :: 0 <= i < |athletes| && athletes[i].age == r
    decreases |athletes|
  {
    if athletes == [] then None
    else
      var rest := MaxAge(athletes[1..]);
      assert forall i :: 1 <= i < |athletes| ==> athletes[i] == athletes[1..][i - 1];
      match athletes[0].age
      case None => rest
      case Some(a) =>
        if rest.Some? && rest.value > a then rest else Some(a)
  }

  /**
   * `(int(Age.min()), int(Age.max()))`, the slider's bounds and default: every
   * known age lies inside, both ends are attained, and there is no range when
   * no athlete has an age.
   */
  function AgeBounds(athletes: seq<Athlete>): (r: Option<AgeRange>)
    ensures r.None? <==> forall i :: 0 <= i < |athletes| ==> athletes[i].age.None?
    ensures r.Some? ==> forall i :: 0 <= i < |athletes| && athletes[i].age.Some? ==>
      r.value.lo <= athletes[i].age.value <= r.value.hi
    ensures r.Some? ==> exists i :: 0 <= i < |athletes| && athletes[i].age == Some(r.value.lo)
    ensures r.Some? ==> exists i :: 0 <= i < |athletes| && athletes[i].age == Some(r.value.hi)
  {
    var lo, hi := MinAge(athletes), MaxAge(athletes);
    if lo.None? || hi.None? then None else Some(AgeRange(lo.value, hi.value))
  }

  /**
   * `create_sidebar(athletes_df)`: each multiselect left empty falls back to
   * its whole option list, the country options being computed from the
   * resolved continents; the slider defaults to the observed age range.
   */
  method CreateSidebar(athletes: seq<Athlete>, picks: Picks) returns (r: Result<FilterSelection, SidebarError>)
    ensures r.Err? <==> AgeBounds(athletes).None?
    ensures r.Ok? ==> r.value.continent == if picks.continent == [] then ContinentOptions(athletes) else picks.continent
    ensures r.Ok? ==> r.value.country == if picks.country == [] then CountryOptions(athletes, r.value.continent) else picks.country
    ensures r.Ok? ==> r.value.sport == if picks.sport == [] then SportOptions(athletes) else picks.sport
    ensures r.Ok? ==> r.value.gender == if picks.gender == [] then GenderOptions(athletes) else picks.gender
    ensures r.Ok? && picks.age.Some? ==> r.value.age == picks.age.value
    ensures r.Ok? && picks.age.None? ==> r.value.age == AgeBounds(athletes).value
  {
    var allContinents := ContinentOptions(athletes);
    var selContinent := picks.continent;
    if selContinent == [] {
      selContinent := allContinents;
    }

    var availableCountries := CountryOptions(athletes, selContinent);
    var selCountry := picks.country;
    if selCountry == [] {
      selCountry := availableCountries;
    }

    var allSports := SportOptions(athletes);
    var selSport := picks.sport;
    if selSport == [] {
      selSport := allSports;
    }

    var allGenders := GenderOptions(athletes);
    var selGender := picks.gender;
    if selGender == [] {
      selGender := allGenders;
    }

    var bounds := AgeBounds(athletes);
    if bounds.None? {
      return Err(NoKnownAge);
    }
    var selAge := if picks.age.Some? then picks.age.value else bounds.value;

    r := Ok(FilterSelection(selContinent, selCountry, selSport, selGender, selAge));
  }

  /**
   * With no continent picked, every athlete's country is offered: an empty
   * choice widens the cascade instead of emptying it.
   */
  lemma NoContinentPickOffersEveryCountry(athletes: seq<Athlete>)
    ensures forall i :: 0 <= i < |athletes| ==>
      athletes[i].country in CountryOptions(athletes, ContinentOptions(athletes))
  {
  }

  /** A country none of whose athletes is on a chosen continent is never offered. */
  lemma CountryOutsideContinentsNotOffered(athletes: seq<Athlete>, continents: seq<string>, country: string)
    requires forall i :: 0 <= i < |athletes| && athletes[i].country == country ==> athletes[i].continent !in continents
    ensures country !in CountryOptions(athletes, continents)
  {
  }

  /** Narrowing the continents can only narrow the countries offered. */
  lemma CountryOptionsMonotone(athletes: seq<Athlete>, narrow: seq<string>, wide: seq<string>)
    requires forall c :: c in narrow ==> c in wide
    ensures forall c :: c in CountryOptions(athletes, narrow) ==> c in CountryOptions(athletes, wide)
  {
  }
}
