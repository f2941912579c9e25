/**
 * The city index: the records, the sorted index built from them, and the
 * `CityTimezones` queries over it (exact lookup by binary search, substring
 * and fuzzy name search, filters, de-duplicated lists, population ranking,
 * nearest cities, time differences and template formatting).
 */
module CityIndex {
  import opened Wrappers
  import opened Text
  import opened Sorting
  import opened EditDistance
  import opened TimeFormat

  // ---------------------------------------------------------------------
  // Records
  // ---------------------------------------------------------------------

  /** `CityInfo`: one record of the dataset. */
  datatype CityInfo = CityInfo(
    name: string,
    country: string,
    timezone: string,
    latitude: real,
    longitude: real,
    population: Option<int>)

  /** `IndexedCity`: a record with its country upper-cased and its search key. */
  datatype IndexedCity = IndexedCity(info: CityInfo, searchKey: string)

  /** The composite key `${lower(name)}|${upper(country)}`. */
  function SearchKey(name: string, country: string): string
  {
    Lower(name) + "|" + Upper(country)
  }

  /** An index entry as the constructor makes it: normalised country, key derived from name and country. */
  predicate WellFormed(c: IndexedCity)
  {
    && Upper(c.info.country) == c.info.country
    && c.searchKey == SearchKey(c.info.name, c.info.country)
  }

  /** The `map` step of the constructor for one record. */
  function IndexCity(c: CityInfo): (r: IndexedCity)
    ensures WellFormed(r)
    ensures r.info == c.(country := Upper(c.country))
    ensures r.searchKey == Lower(c.name) + "|" + Upper(c.country)
  {
    UpperIdempotent(c.country);
    IndexedCity(c.(country := Upper(c.country)), SearchKey(c.name, c.country))
  }

  function IndexAll(data: seq<CityInfo>): (r: seq<IndexedCity>)
    ensures |r| == |data|
    ensures forall i :: 0 <= i < |data| ==> r[i] == IndexCity(data[i])
  {
    seq(|data|, i requires 0 <= i < |data| => IndexCity(data[i]))
  }

  /** The comparator of the index: `a.searchKey.localeCompare(b.searchKey) <= 0`. */
  predicate KeyLe(a: IndexedCity, b: IndexedCity)
  {
    LessEq(a.searchKey, b.searchKey)
  }

  lemma KeyLeTotalPreorder()
    ensures TotalPreorder(KeyLe)
  {
    LessEqTotalOrder();
  }

  /**
   * The constructor's `map(...).sort(...)`: a permutation of the normalised
   * records, ordered by search key, every entry well formed.
   */
  function BuildIndex(data: seq<CityInfo>): (r: seq<IndexedCity>)
    ensures multiset(r) == multiset(IndexAll(data))
    ensures Sorted(r, KeyLe)
    ensures forall i :: 0 <= i < |r| ==> WellFormed(r[i])
  {
    KeyLeTotalPreorder();
    var r := SortBy(IndexAll(data), KeyLe);
    assert forall i :: 0 <= i < |r| ==> r[i] in multiset(IndexAll(data));
    r
  }

  /** Records with the same name and country up to case get the same key. */
  lemma SameKeyUpToCase(n1: string, c1: string, n2: string, c2: string)
    requires Lower(n1) == Lower(n2) && Upper(c1) == Upper(c2)
    ensures SearchKey(n1, c1) == SearchKey(n2, c2)
  {
  }

  /**
   * The key is injective on names without "|": equal keys mean equal
   * lower-cased names and equal upper-cased countries.
   */
  lemma SearchKeyInjective(n1: string, c1: string, n2: string, c2: string)
    requires '|' !in Lower(n1) && '|' !in Lower(n2)
    requires SearchKey(n1, c1) == SearchKey(n2, c2)
    ensures Lower(n1) == Lower(n2) && Upper(c1) == Upper(c2)
  {
    var a, b := Lower(n1), Lower(n2);
    var k1, k2 := SearchKey(n1, c1), SearchKey(n2, c2);
    var m := if |a| <= |b| then |a| else |b|;
    assert k1[m] == k2[m];
    assert |a| == |b|;
    assert a == k1[..|a|] && b == k2[..|b|];
    assert Upper(c1) == k1[|a| + 1..] && Upper(c2) == k2[|b| + 1..];
  }

  /** Entries with equal keys sit next to each other in a key-sorted index. */
  lemma EqualKeysContiguous(s: seq<IndexedCity>, i: nat, k: nat, j: nat)
    requires Sorted(s, KeyLe)
    requires i <= k <= j < |s| && s[i].searchKey == s[j].searchKey
    ensures s[k].searchKey == s[i].searchKey
  {
    if i < k < j {
      LessAsymmetric(s[i].searchKey, s[k].searchKey);
    }
  }

  // ---------------------------------------------------------------------
  // Criteria of the filters
  // ---------------------------------------------------------------------

  predicate InTimezone(c: IndexedCity, tz: string)
  {
    c.info.timezone == tz
  }

  predicate InCountry(c: IndexedCity, country: string)
  {
    c.info.country == country
  }

  /** `city.name.toLowerCase().includes(term)` */
  predicate NameContains(c: IndexedCity, term: string)
  {
    Contains(Lower(c.info.name), term)
  }

  /** `levenshteinDistance(city.name.toLowerCase(), term) <= maxDistance` */
  predicate WithinDistance(c: IndexedCity, query: (string, int))
  {
    Distance(Lower(c.info.name), query.0) <= query.1
  }

  /** A name containing the term makes the whole key contain it. */
  lemma NameMatchInKey(c: IndexedCity, term: string)
    requires WellFormed(c) && NameContains(c, term)
    ensures Contains(c.searchKey, term)
  {
    assert c.searchKey == Lower(c.info.name) + ("|" + Upper(c.info.country));
    ContainsExtend(Lower(c.info.name), "|" + Upper(c.info.country), term);
  }

  /** `population ?? 0`: the recorded population, or 0 when there is none. */
  function Population(c: IndexedCity): (p: int)
    ensures c.info.population.Some? ==> p == c.info.population.value
    ensures c.info.population.None? ==> p == 0
  {
    match c.info.population
    case Some(p) => p
    case None => 0
  }

  /** The comparator of `getMajorCities`: larger populations first. */
  predicate PopulationLe(a: IndexedCity, b: IndexedCity)
  {
    Population(a) >= Population(b)
  }

  lemma PopulationLeTotalPreorder()
    ensures TotalPreorder(PopulationLe)
  {
  }

  lemma DistanceLeTotalPreorder()
    ensures TotalPreorder(DistanceLe)
  {
  }

  /** A city with its distance from the query point, as `findNearestCities` returns it. */
  datatype RankedCity = RankedCity(entry: IndexedCity, distance: real)

  /** The comparator of `findNearestCities`: nearer first. */
  predicate DistanceLe(a: RankedCity, b: RankedCity)
  {
    a.distance <= b.distance
  }

  /** Treats an empty timezone like a missing one, as a JavaScript `!tz` test does. */
  predicate Present(tz: Option<string>): (b: bool)
    ensures b <==> tz.Some? && |tz.value| > 0
  {
    tz.Some? && tz.value != ""
  }

  // The strings are parameters pinned by `requires` rather than literals in the
  // contract, which keeps the verifier from unfolding the functions on literal arguments.
  lemma LowerLondon(london: string, londun: string, shouted: string, londonnn: string)
    requires london == "London" && londun == "Londun" && shouted == "LONDUN" && londonnn == "Londonnn"
    ensures Lower(london) == "london" && Lower(londonnn) == "londonnn"
    ensures Lower(londun) == "londun" && Lower(shouted) == "londun"
  {
  }

  // ---------------------------------------------------------------------
  // The index object
  // ---------------------------------------------------------------------

  class CityTimezones {
    /** The sorted index; `readonly`, so a constant of the object. */
    const cities: seq<IndexedCity>

    /** What construction guarantees for the lifetime of the object. */
    ghost predicate Valid()
    {
      && Sorted(cities, KeyLe)
      && forall i :: 0 <= i < |cities| ==> WellFormed(cities[i])
    }

    /** Builds the index from the dataset (the bundled JSON in the library). */
    constructor (data: seq<CityInfo>)
      ensures Valid()
      ensures multiset(cities) == multiset(IndexAll(data))
    {
      cities := BuildIndex(data);
    }

    // -------------------------------------------------------------------
    // Exact lookup
    // -------------------------------------------------------------------

    /**
     * The binary search between `low` and `high` (inclusive), written as
     * recursion: it finds an entry with the key exactly when one exists there.
     */
    ghost function Search(key: string, low: int, high: int): (r: int)
      requires Valid()
      requires 0 <= low && high < |cities| && low <= high + 1
      ensures r == -1 || (low <= r <= high && cities[r].searchKey == key)
      ensures r == -1 <==> forall i :: low <= i <= high ==> cities[i].searchKey != key
      decreases high - low
    {
      if low > high then -1
      else
        var mid := (low + high) / 2;
        var cmp := Compare(cities[mid].searchKey, key);
        if cmp == 0 then mid
        else if cmp < 0 then
          SmallerBelow(key, low, mid);
          Search(key, mid + 1, high)
        else
          LargerAbove(key, mid, high);
          Search(key, low, mid - 1)
    }

    /** Left of an entry whose key sorts before `key`, no entry has `key`. */
    lemma SmallerBelow(key: string, low: int, mid: int)
      requires Valid() && 0 <= low <= mid < |cities| && Less(cities[mid].searchKey, key)
      ensures forall i :: low <= i <= mid ==> cities[i].searchKey != key
    {
      forall i | low <= i <= mid ensures cities[i].searchKey != key {
        LessIrreflexive(key);
        LessAsymmetric(cities[mid].searchKey, key);
        assert i < mid ==> KeyLe(cities[i], cities[mid]);
      }
    }

    /** Right of an entry whose key sorts after `key`, no entry has `key`. */
    lemma LargerAbove(key: string, mid: int, high: int)
      requires Valid() && 0 <= mid <= high < |cities| && Less(key, cities[mid].searchKey)
      ensures forall i :: mid <= i <= high ==> cities[i].searchKey != key
    {
      forall i | mid <= i <= high ensures cities[i].searchKey != key {
        LessIrreflexive(key);
        LessAsymmetric(key, cities[mid].searchKey);
        assert mid < i ==> KeyLe(cities[mid], cities[i]);
      }
    }

    /**
     * `binarySearch(searchKey)`: an index whose entry has the key, or -1
     * exactly when no entry has it.
     */
    method BinarySearch(searchKey: string) returns (index: int)
      requires Valid()
      ensures index == Search(searchKey, 0, |cities| - 1)
      ensures -1 <= index < |cities|
      ensures index >= 0 ==> cities[index].searchKey == searchKey
      ensures index == -1 <==> forall i :: 0 <= i < |cities| ==> cities[i].searchKey != searchKey
    {
      var low, high := 0, |cities| - 1;
      while low <= high
        invariant 0 <= low && high < |cities| && low <= high + 1
        invariant Search(searchKey, low, high) == Search(searchKey, 0, |cities| - 1)
        decreases high - low
      {
        var mid := (low + high) / 2;  // `(low + high) >>> 1` on non-negative indices
        var cmp := Compare(cities[mid].searchKey, searchKey);
        if cmp == 0 {
          return mid;
        }
        if cmp < 0 {
          low := mid + 1;
        } else {
          high := mid - 1;
        }
      }
      return -1;
    }

    /** The timezone `getTimezone` answers with, as a function of its arguments. */
    ghost function TimezoneOf(cityName: string, country: string): Option<string>
      requires Valid()
    {
      var i := Search(SearchKey(cityName, country), 0, |cities| - 1);
      if i >= 0 then Some(cities[i].info.timezone) else None
    }

    /**
     * `getTimezone(cityName, country)`: the timezone of an entry whose key is
     * built from the arguments, or `None` exactly when there is no such entry.
     */
    method GetTimezone(cityName: string, country: string) returns (tz: Option<string>)
      requires Valid()
      ensures tz == TimezoneOf(cityName, country)
      ensures tz.None? <==> forall i :: 0 <= i < |cities| ==> cities[i].searchKey != SearchKey(cityName, country)
      ensures tz.Some? ==> exists i :: 0 <= i < |cities| && cities[i].searchKey == SearchKey(cityName, country)
                                                          && cities[i].info.timezone == tz.value
    {
      var searchKey := SearchKey(cityName, country);
      var index := BinarySearch(searchKey);
      tz := if index >= 0 then Some(cities[index].info.timezone) else None;
    }

    /** `isValidCity(cityName, country)`: some entry has the key built from the arguments. */
    method IsValidCity(cityName: string, country: string) returns (b: bool)
      requires Valid()
      ensures b <==> exists i :: 0 <= i < |cities| && cities[i].searchKey == SearchKey(cityName, country)
    {
      var index := BinarySearch(SearchKey(cityName, country));
      b := index != -1;
    }

    /**
     * Every entry is found by its own name and country, in any letter case;
     * when no other entry shares its key, the answer is its own timezone.
     */
    lemma LookupFindsEntry(k: nat, cityName: string, country: string)
      requires Valid() && k < |cities|
      requires Lower(cityName) == Lower(cities[k].info.name) && Upper(country) == cities[k].info.country
      ensures TimezoneOf(cityName, country).Some?
      ensures (forall i :: 0 <= i < |cities| && i != k ==> cities[i].searchKey != cities[k].searchKey) ==>
                TimezoneOf(cityName, country) == Some(cities[k].info.timezone)
    {
      assert SearchKey(cityName, country) == cities[k].searchKey;
    }

    // -------------------------------------------------------------------
    // Name search
    // -------------------------------------------------------------------

    /**
     * `searchCities(query)`: skips the entries whose key does not contain the
     * term, then keeps, in index order, every entry whose lower-cased name
     * contains it. The skipped entries never match, so the result is exactly
     * the filter of the whole index.
     */
    method SearchCities(query: string) returns (results: seq<IndexedCity>)
      requires Valid()
      ensures results == Filter(cities, NameContains, Lower(query))
    {
      var searchTerm := Lower(query);
      results := [];
      var index := 0;
      while index < |cities| && !Contains(cities[index].searchKey, searchTerm)
        invariant 0 <= index <= |cities|
        invariant Filter(cities[..index], NameContains, searchTerm) == []
      {
        if NameContains(cities[index], searchTerm) {
          NameMatchInKey(cities[index], searchTerm);
        }
        FilterSnoc(cities, index, NameContains, searchTerm);
        index := index + 1;
      }
      while index < |cities|
        invariant 0 <= index <= |cities|
        invariant results == Filter(cities[..index], NameContains, searchTerm)
      {
        var city := cities[index];
        FilterSnoc(cities, index, NameContains, searchTerm);
        if Contains(Lower(city.info.name), searchTerm) {
          results := results + [city];
        }
        index := index + 1;
      }
      assert cities[..index] == cities;
    }

    /** Every result of a substring search contains the lower-cased query; the empty query matches every entry. */
    lemma SearchCitiesMatches(query: string)
      ensures forall x :: x in Filter(cities, NameContains, Lower(query)) ==> x in cities && Contains(Lower(x.info.name), Lower(query))
      ensures query == "" ==> Filter(cities, NameContains, Lower(query)) == cities
    {
      FilterMultiset(cities, NameContains, Lower(query));
      if query == "" {
        assert forall i :: 0 <= i < |cities| ==> NameContains(cities[i], "");
        FilterAll(cities, NameContains, "");
      }
    }

    /**
     * `searchCitiesFuzzy(query, maxDistance)`: in index order, every entry
     * whose lower-cased name is within `maxDistance` edits of the lower-cased
     * query, the distance being the one `LevenshteinDistance` computes.
     */
    function SearchCitiesFuzzy(query: string, maxDistance: int): (results: seq<IndexedCity>)
      ensures forall x :: x in results <==> x in cities && Distance(Lower(x.info.name), Lower(query)) <= maxDistance
      ensures forall x :: multiset(results)[x] ==
                if Distance(Lower(x.info.name), Lower(query)) <= maxDistance then multiset(cities)[x] else 0
    {
      FilterMultiset(cities, WithinDistance, (Lower(query), maxDistance));
      Filter(cities, WithinDistance, (Lower(query), maxDistance))
    }

    /** The empty query only reaches names no longer than the distance bound. */
    lemma FuzzyEmptyQuery(maxDistance: int)
      ensures forall x :: x in SearchCitiesFuzzy("", maxDistance) ==> |x.info.name| <= maxDistance
    {
    }

    /** Every entry is found by its own name, in any letter case, at any distance bound from 0. */
    lemma FuzzyFindsExactName(k: nat, query: string, maxDistance: int)
      requires k < |cities| && Lower(query) == Lower(cities[k].info.name) && 0 <= maxDistance
      ensures cities[k] in SearchCitiesFuzzy(query, maxDistance)
    {
      DistanceZeroIff(Lower(query), Lower(query));
    }

    // The strings are parameters pinned by `requires` rather than literals in the
    // contract, which keeps the verifier from unfolding the functions on literal arguments.
    /** "Londun" and "LONDUN" reach "London" within 2 edits; "Londonnn" does not within 1. */
    lemma FuzzyLondon(k: nat, londun: string, shouted: string, londonnn: string)
      requires k < |cities| && cities[k].info.name == "London"
      requires londun == "Londun" && shouted == "LONDUN" && londonnn == "Londonnn"
      ensures cities[k] in SearchCitiesFuzzy(londun, 2)
      ensures cities[k] in SearchCitiesFuzzy(shouted, 2)
      ensures cities[k] !in SearchCitiesFuzzy(londonnn, 1)
    {
      LowerLondon(cities[k].info.name, londun, shouted, londonnn);
      LondonExamples(Lower(cities[k].info.name), Lower(londun), Lower(londonnn));
    }

    /**
     * Both name searches ignore the letter case of the query: the query, its
     * lower-cased and its upper-cased form give the same results.
     */
    lemma SearchIgnoresQueryCase(query: string, maxDistance: int)
      ensures Filter(cities, NameContains, Lower(Lower(query))) == Filter(cities, NameContains, Lower(query))
      ensures Filter(cities, NameContains, Lower(Upper(query))) == Filter(cities, NameContains, Lower(query))
      ensures SearchCitiesFuzzy(Lower(query), maxDistance) == SearchCitiesFuzzy(query, maxDistance)
      ensures SearchCitiesFuzzy(Upper(query), maxDistance) == SearchCitiesFuzzy(query, maxDistance)
    {
      LowerIdempotent(query);
      LowerOfUpper(query);
    }

    // -------------------------------------------------------------------
    // Projections
    // -------------------------------------------------------------------

    /** `getAllCities()`: the index itself, in key order. */
    function GetAllCities(): (r: seq<IndexedCity>)
      requires Valid()
      ensures r == cities
      ensures Sorted(r, KeyLe)
      ensures forall i :: 0 <= i < |r| ==> WellFormed(r[i])
      ensures |r| == |cities|
    {
      cities
    }

    /** `getCitiesByTimezone(tz)`: the entries in that timezone, each as often as in the index, in index order. */
    function GetCitiesByTimezone(timezone: string): (r: seq<IndexedCity>)
      ensures forall x :: multiset(r)[x] == if x.info.timezone == timezone then multiset(cities)[x] else 0
      ensures forall x :: x in r <==> x in cities && x.info.timezone == timezone
    {
      FilterMultiset(cities, InTimezone, timezone);
      Filter(cities, InTimezone, timezone)
    }

    /** `getCitiesByCountry(country)`: the entries whose country is the upper-cased argument, in index order. */
    function GetCitiesByCountry(country: string): (r: seq<IndexedCity>)
      ensures forall x :: multiset(r)[x] == if x.info.country == Upper(country) then multiset(cities)[x] else 0
      ensures forall x :: x in r <==> x in cities && x.info.country == Upper(country)
    {
      FilterMultiset(cities, InCountry, Upper(country));
      Filter(cities, InCountry, Upper(country))
    }

    function Countries(): (r: seq<string>)
      ensures |r| == |cities| && forall i :: 0 <= i < |cities| ==> r[i] == cities[i].info.country
    {
      seq(|cities|, i requires 0 <= i < |cities| => cities[i].info.country)
    }

    function Timezones(): (r: seq<string>)
      ensures |r| == |cities| && forall i :: 0 <= i < |cities| ==> r[i] == cities[i].info.timezone
    {
      seq(|cities|, i requires 0 <= i < |cities| => cities[i].info.timezone)
    }

    /** `getUniqueCountries()`: every country of the index once, in ascending order. */
    function GetUniqueCountries(): (r: seq<string>)
      ensures StrictlySorted(r)
      ensures forall c :: c in r <==> exists i :: 0 <= i < |cities| && cities[i].info.country == c
    {
      var all := Countries();
      assert forall c :: c in all <==> exists i :: 0 <= i < |cities| && cities[i].info.country == c by {
        forall c | c in all ensures exists i :: 0 <= i < |cities| && cities[i].info.country == c {
          var i :| 0 <= i < |all| && all[i] == c;
        }
      }
      SortedDistinct(all)
    }

    /** `getUniqueTimezones()`: every timezone of the index once, in ascending order. */
    function GetUniqueTimezones(): (r: seq<string>)
      ensures StrictlySorted(r)
      ensures forall tz :: tz in r <==> exists i :: 0 <= i < |cities| && cities[i].info.timezone == tz
    {
      var all := Timezones();
      assert forall tz :: tz in all <==> exists i :: 0 <= i < |cities| && cities[i].info.timezone == tz by {
        forall tz | tz in all ensures exists i :: 0 <= i < |cities| && cities[i].info.timezone == tz {
          var i :| 0 <= i < |all| && all[i] == tz;
        }
      }
      SortedDistinct(all)
    }

    /** `isValidTimezone(tz)`: some entry of the index is in that timezone. */
    function IsValidTimezone(timezone: string): (b: bool)
      ensures b <==> exists i :: 0 <= i < |cities| && cities[i].info.timezone == timezone
    {
      timezone in GetUniqueTimezones()
    }

    /**
     * `getMajorCities(country, limit)`: the country's entries by decreasing
     * population (missing counts as 0), cut by `slice(0, limit)`. No entry of
     * the country left out has a larger population than one that was kept.
     */
    function GetMajorCities(country: string, limit: int): (r: seq<IndexedCity>)
      ensures |r| == SliceEnd(|GetCitiesByCountry(country)|, limit)
      ensures forall x :: x in r ==> x in cities && x.info.country == Upper(country)
      ensures Sorted(r, PopulationLe)
      ensures multiset(r) <= multiset(GetCitiesByCountry(country))
      ensures KeepsFirst(GetCitiesByCountry(country), r, PopulationLe)
    {
      var matching := GetCitiesByCountry(country);
      PopulationLeTotalPreorder();
      var r := TopK(matching, PopulationLe, limit);
      assert forall x :: x in r ==> x in cities && x.info.country == Upper(country) by {
        forall x | x in r ensures x in cities && x.info.country == Upper(country) {
          assert x in matching;
        }
      }
      r
    }

    /**
     * `findNearestCities(lat, lon, maxResults)` with `haversine` standing for
     * the distance computation: entries paired with their distance from the
     * point, nearest first, cut by `slice(0, maxResults)`. No entry left out
     * is nearer than one that was kept.
     */
    function FindNearestCities(lat: real, lon: real, maxResults: int,
                               haversine: (real, real, real, real) -> real): (r: seq<RankedCity>)
      ensures |r| == SliceEnd(|cities|, maxResults)
      ensures forall x :: x in r ==>
                x.entry in cities && x.distance == haversine(lat, lon, x.entry.info.latitude, x.entry.info.longitude)
      ensures Sorted(r, DistanceLe)
      ensures multiset(r) <= multiset(Ranked(lat, lon, haversine))
      ensures KeepsFirst(Ranked(lat, lon, haversine), r, DistanceLe)
    {
      var ranked := Ranked(lat, lon, haversine);
      DistanceLeTotalPreorder();
      TopK(ranked, DistanceLe, maxResults)
    }

    /** Every entry with its distance from the point. */
    function Ranked(lat: real, lon: real, haversine: (real, real, real, real) -> real): (r: seq<RankedCity>)
      ensures |r| == |cities|
      ensures forall i :: 0 <= i < |cities| ==>
                r[i] == RankedCity(cities[i], haversine(lat, lon, cities[i].info.latitude, cities[i].info.longitude))
    {
      seq(|cities|, i requires 0 <= i < |cities| =>
        RankedCity(cities[i], haversine(lat, lon, cities[i].info.latitude, cities[i].info.longitude)))
    }

    // -------------------------------------------------------------------
    // Time differences
    // -------------------------------------------------------------------

    /**
     * What `getTimeDifference` answers, with `offset` standing for
     * `getTimezoneOffset`: nothing when a city is unknown (or has an empty
     * timezone) or an offset is unavailable, else the destination offset minus
     * the source offset.
     */
    ghost function TimeDifference(fromCity: string, fromCountry: string, toCity: string, toCountry: string,
                                  offset: string -> Option<int>): Option<int>
      requires Valid()
    {
      var fromTz := TimezoneOf(fromCity, fromCountry);
      var toTz := TimezoneOf(toCity, toCountry);
      if !Present(fromTz) || !Present(toTz) then None
      else if offset(fromTz.value).None? || offset(toTz.value).None? then None
      else Some(offset(toTz.value).value - offset(fromTz.value).value)
    }

    /** `getTimeDifference(fromCity, fromCountry, toCity, toCountry)`. */
    method GetTimeDifference(fromCity: string, fromCountry: string, toCity: string, toCountry: string,
                             offset: string -> Option<int>) returns (r: Option<int>)
      requires Valid()
      ensures r == TimeDifference(fromCity, fromCountry, toCity, toCountry, offset)
      ensures r.Some? ==> exists i, j ::
                && 0 <= i < |cities| && 0 <= j < |cities|
                && cities[i].searchKey == SearchKey(fromCity, fromCountry)
                && cities[j].searchKey == SearchKey(toCity, toCountry)
                && offset(cities[i].info.timezone).Some? && offset(cities[j].info.timezone).Some?
                && r.value == offset(cities[j].info.timezone).value - offset(cities[i].info.timezone).value
      ensures (forall i :: 0 <= i < |cities| ==> cities[i].searchKey != SearchKey(fromCity, fromCountry)) ==> r.None?
      ensures (forall i :: 0 <= i < |cities| ==> cities[i].searchKey != SearchKey(toCity, toCountry)) ==> r.None?
    {
      var fromTimezone := GetTimezone(fromCity, fromCountry);
      var toTimezone := GetTimezone(toCity, toCountry);
      if !Present(fromTimezone) || !Present(toTimezone) {
        return None;
      }
      var fromOffset := offset(fromTimezone.value);
      var toOffset := offset(toTimezone.value);
      if fromOffset.None? || toOffset.None? {
        return None;
      }
      r := Some(toOffset.value - fromOffset.value);
    }

    /** Swapping the two cities negates the difference. */
    lemma TimeDifferenceAntisymmetric(a: string, ac: string, b: string, bc: string, offset: string -> Option<int>)
      requires Valid()
      ensures TimeDifference(a, ac, b, bc, offset).Some? <==> TimeDifference(b, bc, a, ac, offset).Some?
      ensures TimeDifference(a, ac, b, bc, offset).Some? ==>
                TimeDifference(a, ac, b, bc, offset).value == -TimeDifference(b, bc, a, ac, offset).value
    {
    }

    /** A city is zero minutes from itself whenever its offset is known. */
    lemma TimeDifferenceToSelf(a: string, ac: string, offset: string -> Option<int>)
      requires Valid()
      ensures TimeDifference(a, ac, a, ac, offset).Some? ==> TimeDifference(a, ac, a, ac, offset).value == 0
    {
    }

    // -------------------------------------------------------------------
    // Formatting
    // -------------------------------------------------------------------

    /**
     * `formatCityInfo(city, format)`: replaces the first `{name}`, then the
     * first `{country}`, `{timezone}` and `{coordinates}` of the text built so
     * far; `coordinates` stands for the rendered `${latitude},${longitude}`.
     */
    function FormatCityInfo(city: CityInfo, format: string, coordinates: string): (r: string)
      ensures (forall i :: !OccursAt(format, "{name}", i)) && (forall i :: !OccursAt(format, "{country}", i))
              && (forall i :: !OccursAt(format, "{timezone}", i)) && (forall i :: !OccursAt(format, "{coordinates}", i))
              ==> r == format
    {
      var s1 := ReplaceFirst(format, "{name}", city.name);
      var s2 := ReplaceFirst(s1, "{country}", city.country);
      var s3 := ReplaceFirst(s2, "{timezone}", city.timezone);
      ReplaceFirst(s3, "{coordinates}", coordinates)
    }

    /**
     * A template of the form `{name}<sep>{country}`, such as the default
     * `{name}, {country}`, gives the name, the separator and the country,
     * when none of the three contains a `{`.
     */
    lemma FormatNameCountry(city: CityInfo, sep: string, coordinates: string)
      requires '{' !in sep && '{' !in city.name && '{' !in city.country
      ensures FormatCityInfo(city, "{name}" + sep + "{country}", coordinates) == city.name + sep + city.country
    {
      var name, country := "{name}", "{country}";
      var format := name + sep + country;
      var s1 := city.name + sep + country;
      var s2 := city.name + sep + city.country;
      assert ReplaceFirst(format, name, city.name) == s1 by {
        assert format == [] + name + (sep + country);
        ReplaceAfter([], name, sep + country, city.name);
      }
      assert ReplaceFirst(s1, country, city.country) == s2 by {
        assert s1 == (city.name + sep) + country + [];
        ReplaceAfter(city.name + sep, country, [], city.country);
      }
      assert ReplaceFirst(ReplaceFirst(s2, "{timezone}", city.timezone), "{coordinates}", coordinates) == s2 by {
        assert '{' !in s2;
        ReplaceAbsent(s2, "{timezone}", city.timezone);
        ReplaceAbsent(s2, "{coordinates}", coordinates);
      }
    }

    /**
     * A template holding each placeholder once, in the order the replacements
     * are made, gets every placeholder replaced by its field, provided no
     * surrounding text and no field put in before the last contains a `{`.
     */
    lemma FormatAllFields(city: CityInfo, p0: string, p1: string, p2: string, p3: string, p4: string,
                          coordinates: string)
      requires '{' !in p0 && '{' !in p1 && '{' !in p2 && '{' !in p3 && '{' !in p4
      requires '{' !in city.name && '{' !in city.country && '{' !in city.timezone
      ensures FormatCityInfo(city, p0 + "{name}" + p1 + "{country}" + p2 + "{timezone}" + p3 + "{coordinates}" + p4,
                             coordinates)
              == p0 + city.name + p1 + city.country + p2 + city.timezone + p3 + coordinates + p4
    {
      var n, c, t, k := "{name}", "{country}", "{timezone}", "{coordinates}";
      var a1 := p0 + city.name + p1;
      var a2 := a1 + city.country + p2;
      FillFirst(p0, n, p1, c, p2, t, p3, k, p4, city.name);
      FillSecond(a1, c, p2, t, p3, k, p4, city.country);
      FillLastTwo(a2, t, p3, k, p4, city.timezone, coordinates);
    }

    // The Fill lemmas below are proof steps only: each does one replacement for arbitrary
    // placeholder strings, which keeps literal placeholders out of their proofs.

    /** The first replacement of `FormatAllFields`, for any placeholders. */
    lemma FillFirst(p0: string, n: string, p1: string, c: string, p2: string, t: string, p3: string, k: string,
                    p4: string, v: string)
      requires n != [] && n[0] !in p0
      ensures ReplaceFirst(p0 + n + p1 + c + p2 + t + p3 + k + p4, n, v) == p0 + v + p1 + c + (p2 + t + p3 + k + p4)
    {
      var rest := p1 + c + p2 + t + p3 + k + p4;
      Regroup7(p0 + n, p1, c, p2, t, p3, k, p4);
      ReplaceAfter(p0, n, rest, v);
      Regroup7(p0 + v, p1, c, p2, t, p3, k, p4);
    }

    /** The first replacement in a template with two placeholders, for any placeholders. */
    lemma FillFirstOfTwo(p0: string, n: string, p1: string, t: string, p2: string, v: string)
      requires n != [] && n[0] !in p0
      ensures ReplaceFirst(p0 + n + p1 + t + p2, n, v) == p0 + v + p1 + t + p2
    {
      Regroup3(p0 + n, p1, t, p2);
      ReplaceAfter(p0, n, p1 + t + p2, v);
      Regroup3(p0 + v, p1, t, p2);
    }

    /** The second replacement of `FormatAllFields`, after the first value is in. */
    lemma FillSecond(a: string, c: string, p2: string, t: string, p3: string, k: string, p4: string, v: string)
      requires c != [] && c[0] !in a
      ensures ReplaceFirst(a + c + (p2 + t + p3 + k + p4), c, v) == a + v + p2 + t + (p3 + k + p4)
    {
      ReplaceAfter(a, c, p2 + t + p3 + k + p4, v);
      Regroup5(a + v, p2, t, p3, k, p4);
    }

    /** The last two replacements of `FormatAllFields`, after the first two values are in. */
    lemma FillLastTwo(a: string, t: string, p3: string, k: string, p4: string, v: string, w: string)
      requires t != [] && k != [] && t[0] !in a && k[0] !in a + v + p3
      ensures ReplaceFirst(ReplaceFirst(a + t + (p3 + k + p4), t, v), k, w) == a + v + p3 + w + p4
    {
      var a3 := a + v + p3;
      ReplaceAfter(a, t, p3 + k + p4, v);
      Regroup3(a + v, p3, k, p4);
      ReplaceAfter(a3, k, p4, w);
    }

    /**
     * A template such as `{name} ({timezone})`: the name and the timezone are
     * put in, and the absent `{country}` and `{coordinates}` change nothing.
     */
    lemma FormatNameTimezone(city: CityInfo, p0: string, p1: string, p2: string, coordinates: string)
      requires '{' !in p0 && '{' !in p1 && '{' !in p2
      requires '{' !in city.name && '{' !in city.timezone
      ensures FormatCityInfo(city, p0 + "{name}" + p1 + "{timezone}" + p2, coordinates)
              == p0 + city.name + p1 + city.timezone + p2
    {
      var n, c, t, k := "{name}", "{country}", "{timezone}", "{coordinates}";
      var format := p0 + n + p1 + t + p2;
      var a1 := p0 + city.name + p1;
      var s1 := a1 + t + p2;
      var s3 := a1 + city.timezone + p2;
      assert ReplaceFirst(format, n, city.name) == s1 by {
        FillFirstOfTwo(p0, n, p1, t, p2, city.name);
      }
      assert ReplaceFirst(s1, c, city.country) == s1 by {
        ReplaceOtherAbsent(a1, t, p2, c, city.country);
      }
      assert ReplaceFirst(s1, t, city.timezone) == s3 by {
        ReplaceAfter(a1, t, p2, city.timezone);
      }
      assert ReplaceFirst(s3, k, coordinates) == s3 by {
        assert '{' !in s3;
        ReplaceAbsent(s3, k, coordinates);
      }
    }
  }
}
