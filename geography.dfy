/**
 * `get_continent` and `get_iso3_code`: country-name resolution through the
 * pycountry and pycountry_convert libraries, with their fallbacks.
 */
module Geography {
  import opened Wrappers

  /**
   * The library lookups, which are not part of this model. Each returns
   * `None` where the library raises. `searchFuzzy` gives the alpha-3 codes of
   * `pycountry.countries.search_fuzzy`'s matches, best first; a library
   * `LookupError` is the empty sequence.
   */
  datatype Lookups = Lookups(
    nameToAlpha2: string -> Option<string>,
    alpha2ToContinentCode: string -> Option<string>,
    continentCodeToName: string -> Option<string>,
    searchFuzzy: string -> seq<string>)

  /** Continent sentinel for names the libraries cannot resolve. */
  const Other: string := "Other"

  /**
   * `get_continent(name)`: name, then alpha-2 code, then continent code, then
   * continent name; any step that fails gives `Other`.
   */
  function GetContinent(geo: Lookups, name: string): (r: string)
    ensures geo.nameToAlpha2(name).None? ==> r == Other
    ensures (geo.nameToAlpha2(name).Some? &&
             geo.alpha2ToContinentCode(geo.nameToAlpha2(name).value).None?) ==> r == Other
    ensures (geo.nameToAlpha2(name).Some? &&
             geo.alpha2ToContinentCode(geo.nameToAlpha2(name).value).Some? &&
             geo.continentCodeToName(geo.alpha2ToContinentCode(geo.nameToAlpha2(name).value).value).None?)
            ==> r == Other
  {
    match geo.nameToAlpha2(name)
    case None => Other
    case Some(alpha2) =>
      match geo.alpha2ToContinentCode(alpha2)
      case None => Other
      case Some(code) =>
        match geo.continentCodeToName(code)
        case None => Other
        case Some(continent) => continent
  }

  /** The continent is the sentinel or a name the continent table gives. */
  lemma ContinentIsKnownOrOther(geo: Lookups, name: string)
    ensures GetContinent(geo, name) == Other ||
            exists code :: geo.continentCodeToName(code) == Some(GetContinent(geo, name))
  {
  }

  /** When every step succeeds, the continent is the one the libraries name. */
  lemma ContinentWhenResolved(geo: Lookups, name: string, alpha2: string, code: string, continent: string)
    requires geo.nameToAlpha2(name) == Some(alpha2)
    requires geo.alpha2ToContinentCode(alpha2) == Some(code)
    requires geo.continentCodeToName(code) == Some(continent)
    ensures GetContinent(geo, name) == continent
  {
  }

  /** The fixed table consulted when fuzzy search fails, for Olympic-specific names. */
  const ManualIso3: map<string, Option<string>> := map[
    "Great Britain" := Some("GBR"),
    "Korea" := Some("KOR"),
    "Chinese Taipei" := Some("TWN"),
    "Hong Kong, China" := Some("HKG"),
    "Refugee Olympic Team" := None,
    "Kosovo" := Some("XKX")
  ]

  /** `manual_map.get(name, None)`. */
  function ManualLookup(name: string): (r: Option<string>)
    ensures name !in ManualIso3 ==> r == None
    ensures r.Some? ==> name in ManualIso3 && r.value in {"GBR", "KOR", "TWN", "HKG", "XKX"}
  {
    if name in ManualIso3 then ManualIso3[name] else None
  }

  /**
   * `get_iso3_code(name)`: the best fuzzy match's alpha-3 code, or else the
   * manual table's entry, or else `None`.
   */
  function GetIso3(geo: Lookups, name: string): (r: Option<string>)
    ensures geo.searchFuzzy(name) != [] ==> r == Some(geo.searchFuzzy(name)[0])
    ensures geo.searchFuzzy(name) == [] ==> r == ManualLookup(name)
  {
    var matches := geo.searchFuzzy(name);
    if matches != [] then Some(matches[0]) else ManualLookup(name)
  }

  /** The manual table's answers, on a fuzzy-search miss. */
  lemma Iso3Fallbacks(geo: Lookups, name: string)
    requires geo.searchFuzzy(name) == []
    ensures name == "Great Britain" ==> GetIso3(geo, name) == Some("GBR")
    ensures name == "Korea" ==> GetIso3(geo, name) == Some("KOR")
    ensures name == "Chinese Taipei" ==> GetIso3(geo, name) == Some("TWN")
    ensures name == "Hong Kong, China" ==> GetIso3(geo, name) == Some("HKG")
    ensures name == "Kosovo" ==> GetIso3(geo, name) == Some("XKX")
    ensures name == "Refugee Olympic Team" ==> GetIso3(geo, name) == None
    ensures name !in ManualIso3 ==> GetIso3(geo, name) == None
  {
  }

  /** A code is only ever the library's best match or a manual-table entry. */
  lemma Iso3Origin(geo: Lookups, name: string)
    ensures GetIso3(geo, name).Some? ==>
      (geo.searchFuzzy(name) != [] && GetIso3(geo, name).value == geo.searchFuzzy(name)[0]) ||
      (name in ManualIso3 && ManualIso3[name] == GetIso3(geo, name))
  {
  }
}
