# City timezone index — a verified Dafny model

Metropolis-Tz ships one class, `CityTimezones`. The class holds an in-memory
table of city records. Each record has a name, an ISO country code, an IANA
timezone, coordinates and an optional population. The constructor builds the
table once: it upper-cases every country and gives every record a search key,
`lower(name) + "|" + upper(country)`. It then sorts the table by that key, and
nothing changes the table afterwards. The queries are:

- exact lookup of a city's timezone by binary search on the key;
- substring search and typo-tolerant (Levenshtein) search on names;
- filters by timezone and by country;
- the de-duplicated, sorted lists of countries and timezones;
- the most populous cities of a country and the cities nearest to a point;
- the time difference between two cities and its English phrasing;
- template formatting of a record.

The project is made of these modules:

- `Text` (`text.dfy`): ASCII case mapping, substring search, first-occurrence
  replacement, the ordinal string order and comparison, and joining.
- `Sorting` (`sorting.dfy`): order-preserving filtering, a stable sort with a
  comparator, `slice(0, n)`, "sort then slice", and "de-duplicate then sort".
- `EditDistance` (`edit_distance.dfy`): the edit-distance recurrence, and the
  dynamic-programming matrix method proved to compute it.
- `TimeFormat` (`time_format.dfy`): the phrase for a time difference, a parser
  for the phrase, and the round trip between the two.
- `CityIndex` (`city_index.dfy`): the records, the index construction and the
  class `CityTimezones` with every query.

The dataset, normally a bundled JSON import, is a constructor parameter. The
UTC offset of a timezone is a function parameter `offset`, and so is the
great-circle distance `haversine`. The table is a `const` field of the class,
because the source's field is `readonly` and is only assigned in the
constructor.

## Model

| member | source | states |
|---|---|---|
| CityIndex.IndexCity | lib/index.ts:36-40 | the record keeps its fields except that its country is upper-cased; its key is the lower-cased name, a bar and the upper-cased country; the result is well formed |
| CityIndex.IndexAll | lib/index.ts:36-40 | the normalised table has one record per input record, in input order, each normalised as `IndexCity` states |
| CityIndex.BuildIndex | lib/index.ts:35-41 | the index is a permutation of the normalised input records, is ordered by search key and has every entry well formed |
| CityIndex.CityTimezones.constructor | lib/index.ts:33-42 | after construction the object is valid (sorted, well formed) and its cities are a permutation of the normalised input |
| CityIndex.KeyLeTotalPreorder | lib/index.ts:41 | the key comparator used for sorting is total and transitive |
| CityIndex.SameKeyUpToCase | lib/index.ts:39 | records whose names agree up to case and whose countries agree up to case get the same key |
| CityIndex.SearchKeyInjective | lib/index.ts:39 | for names without a bar, equal keys mean equal lower-cased names and equal upper-cased countries |
| CityIndex.EqualKeysContiguous | lib/index.ts:41 | in the sorted index, entries with the same key form one contiguous run |
| CityIndex.CityTimezones.Search | lib/index.ts:44-58 | the halving search between two bounds returns an index in range whose entry has the key, or -1 exactly when no entry in range has it |
| CityIndex.CityTimezones.SmallerBelow | lib/index.ts:53 | on a sorted index, if the middle key sorts before the target then nothing at or below the middle holds the target |
| CityIndex.CityTimezones.LargerAbove | lib/index.ts:54 | on a sorted index, if the middle key sorts after the target then nothing at or above the middle holds the target |
| CityIndex.CityTimezones.BinarySearch | lib/index.ts:44-58 | the loop returns an index whose entry has the key, or -1 exactly when no entry has it |
| CityIndex.CityTimezones.GetTimezone | lib/index.ts:94-98 | returns the timezone of an entry whose key is built from the arguments, or nothing exactly when no entry has that key |
| CityIndex.CityTimezones.IsValidCity | lib/index.ts:339-341 | true exactly when some entry has the key built from the arguments |
| CityIndex.CityTimezones.LookupFindsEntry | lib/index.ts:94-98 | every entry is found by its own name and country in any letter case; if its key is unique, the answer is its own timezone |
| CityIndex.NameMatchInKey | lib/index.ts:114 | if a lower-cased name contains the term, so does the entry's key, so the skip loop cannot pass over a match |
| CityIndex.CityTimezones.SearchCities | lib/index.ts:108-128 | the skip loop followed by the collect loop yields exactly the index filtered by "lower-cased name contains the lower-cased query", in index order |
| CityIndex.CityTimezones.SearchCitiesMatches | lib/index.ts:121 | every substring-search result is an entry whose lower-cased name contains the lower-cased query; the empty query returns the whole index |
| EditDistance.Distance | lib/index.ts:60-83 | the edit distance is at least the difference of the lengths and at most the longer length, so it is the other string's length when one string is empty |
| EditDistance.LevenshteinDistance | lib/index.ts:60-83 | the matrix method returns exactly the recurrence's edit distance |
| EditDistance.FillRow | lib/index.ts:72-79 | filling one row makes every cell up to that row hold the distance between the corresponding prefixes, and leaves the first column intact |
| EditDistance.CellStep | lib/index.ts:73-78 | each matrix cell obeys the minimum of insert, delete and substitute-or-keep over prefixes |
| EditDistance.DistanceSymmetric | lib/index.ts:60-83 | the distance does not depend on the order of its arguments |
| EditDistance.DistanceZeroIff | lib/index.ts:60-83 | the distance is zero exactly when the strings are equal |
| EditDistance.DistanceAppend | lib/index.ts:60-83 | appending t to a string costs exactly the length of t |
| EditDistance.DistanceAtMostMismatches | lib/index.ts:73-78 | for equal-length strings the distance is at most the number of differing positions |
| EditDistance.LondonExamples | lib/__tests__/searchCitiesFuzzy.test.ts:11-19 | "london" and "londun" are 1 apart; "london" and "londonnn" are 2 apart |
| CityIndex.CityTimezones.SearchCitiesFuzzy | lib/index.ts:329-335 | an entry is in the result exactly when its lower-cased name is within the bound of the lower-cased query, with its multiplicity in the index |
| CityIndex.CityTimezones.SearchIgnoresQueryCase | lib/index.ts:329-330 | fuzzy search (and the substring search of lib/index.ts:109 likewise) gives the same results for a query, its lower-cased and its upper-cased form |
| CityIndex.CityTimezones.FuzzyEmptyQuery | lib/__tests__/searchCitiesFuzzy.test.ts:21-25 | the empty query only returns names no longer than the bound |
| CityIndex.CityTimezones.FuzzyFindsExactName | lib/__tests__/searchCitiesFuzzy.test.ts:6-9 | every entry is found by its own name, in any letter case, for any bound from 0 |
| CityIndex.CityTimezones.FuzzyLondon | lib/__tests__/searchCitiesFuzzy.test.ts:11-30 | "Londun" and "LONDUN" reach London within 2; "Londonnn" does not within 1 |
| CityIndex.CityTimezones.GetAllCities | lib/index.ts:134-136 | the index itself, so sorted by key with every entry well formed |
| CityIndex.CityTimezones.GetCitiesByTimezone | lib/index.ts:145-147 | exactly the entries in that timezone, each as often as in the index |
| CityIndex.CityTimezones.GetCitiesByCountry | lib/index.ts:192-195 | exactly the entries whose country is the upper-cased argument, each as often as in the index |
| CityIndex.CityTimezones.Ranked | lib/index.ts:270-274 | one pair per entry, in index order, holding the entry and its distance from the point |
| CityIndex.Population | lib/index.ts:311 | the population when present, 0 when missing |
| CityIndex.CityTimezones.GetUniqueCountries | lib/index.ts:153-155 | strictly ascending (so duplicate-free), holding exactly the countries that occur in the index |
| CityIndex.CityTimezones.GetUniqueTimezones | lib/index.ts:161-163 | strictly ascending (so duplicate-free), holding exactly the timezones that occur in the index |
| CityIndex.CityTimezones.IsValidTimezone | lib/index.ts:346-348 | true exactly when some entry has that timezone |
| CityIndex.CityTimezones.GetMajorCities | lib/index.ts:309-313 | the `slice(0, limit)` length; only entries of the upper-cased country; non-increasing population with a missing one counted as 0; a sub-multiset of the country's entries; (KeepsFirst) no entry of the country left out has a larger population than one kept |
| CityIndex.CityTimezones.FindNearestCities | lib/index.ts:269-277 | the `slice(0, maxResults)` length; each result is an entry paired with its distance from the point; results are in non-decreasing distance; a sub-multiset of the ranked entries, so no entry is repeated; (KeepsFirst) no entry left out is nearer than one kept |
| CityIndex.Present | lib/index.ts:217 | a timezone counts as present exactly when it exists and is not the empty string |
| CityIndex.CityTimezones.GetTimeDifference | lib/index.ts:208-225 | nothing when a city is unknown, its timezone is empty or an offset is unavailable; otherwise the destination offset minus the source offset of two entries that carry the argument keys |
| CityIndex.CityTimezones.TimeDifferenceAntisymmetric | lib/index.ts:208-225 | swapping the two cities keeps definedness and negates the difference |
| CityIndex.CityTimezones.TimeDifferenceToSelf | lib/index.ts:208-225 | a city is zero minutes from itself |
| TimeFormat.Describe | lib/index.ts:235-248 | "same time" exactly for zero; otherwise the phrase starts with "ahead by " for a positive and "behind by " for a negative difference |
| TimeFormat.FormatTimeDifference | lib/index.ts:235-248 | collecting the non-zero parts and joining them with " and " gives the phrase for that difference |
| TimeFormat.Quantity | lib/index.ts:242-244 | the count in decimal, a space and the unit, one character longer exactly when the count is not 1, and then ending in the plural s |
| TimeFormat.Span | lib/index.ts:242-246 | with whole hours the text starts with the hour count and "hour"; without, it starts with the minute count and "minute" |
| TimeFormat.FiveHoursBehind | lib/index.ts:232-233 | -300 minutes reads "behind by 5 hours" |
| TimeFormat.SpanRoundTrip | lib/index.ts:238-246 | the hours-and-minutes text reads back as hours times 60 plus minutes |
| TimeFormat.ParseDescribe | lib/index.ts:235-248 | parsing the phrase gives back the exact minute count, so no information is lost |
| TimeFormat.DescribeInjective | lib/index.ts:235-248 | different differences get different phrases |
| TimeFormat.ParseDigits | lib/index.ts:242-244 | reading the decimal digits of n after an already-read value continues it by those digits, so a rendered count reads back as itself |
| Text.Lower | lib/index.ts:38-39 | same length, no upper-case letter left, every other character unchanged |
| Text.Upper | lib/index.ts:38-39 | same length, no lower-case letter left, every other character unchanged |
| Text.LowerIdempotent | lib/index.ts:109 | lower-casing twice is lower-casing once |
| Text.LowerOfUpper | lib/index.ts:109 | lower-casing an upper-cased string is lower-casing it |
| Text.Contains | lib/index.ts:114-121 | a contained string is no longer than the container, and the empty string is contained in every string |
| Text.Join | lib/index.ts:246 | no parts give the empty string, one part gives that part |
| Text.JoinTwo | lib/index.ts:246 | two parts give the first, the separator and the second |
| Text.ReplaceFirst | lib/index.ts:318-322 | without an occurrence the text is unchanged; otherwise only the first occurrence is replaced |
| Text.ReplaceAfter | lib/index.ts:318-322 | if the text before the pattern cannot start it, that occurrence is the one replaced |
| Text.ReplaceAbsent | lib/index.ts:318-322 | a text without the first character of the pattern is unchanged |
| Text.ReplaceOtherAbsent | lib/index.ts:318-322 | a text whose only brace opens a different placeholder is unchanged |
| CityIndex.CityTimezones.FormatCityInfo | lib/index.ts:317-323 | a template without any placeholder comes back unchanged |
| CityIndex.CityTimezones.FormatNameCountry | lib/index.ts:317-323 | a template `{name}<sep>{country}`, the default `{name}, {country}` among them, gives name, separator and country when none of them contains a brace |
| CityIndex.CityTimezones.FormatNameTimezone | lib/__tests__/formatCityInfo.test.ts:18-21 | a template `<p0>{name}<p1>{timezone}<p2>`, such as `{name} ({timezone})`, gives the name and the timezone in place, the absent placeholders changing nothing, when no part and neither field contains a brace |
| CityIndex.CityTimezones.FormatAllFields | lib/index.ts:317-323 | a template holding `{name}`, `{country}`, `{timezone}` and `{coordinates}` in that order, with brace-free text around them, gets all four replaced by the fields and the coordinates text |
| Text.Compare | lib/index.ts:50 | zero exactly for equal strings, negative exactly when the first sorts before the second, positive exactly when it sorts after |
| Text.LessEqTotalOrder | lib/index.ts:41 | the string order is total, antisymmetric and transitive |
| Sorting.Filter | lib/index.ts:146 | the `filter` of lib/index.ts:146, 194 and 331: never longer than the input; what it keeps is stated by FilterMultiset and its order by FilterAppend |
| Sorting.FilterMultiset | lib/index.ts:146 | filtering keeps each element with its multiplicity exactly when it satisfies the predicate, and nothing else |
| Sorting.FilterAppend | lib/index.ts:146 | filtering distributes over concatenation, so the input order is kept |
| Sorting.FilterAll | lib/index.ts:146 | when every element satisfies the predicate, filtering returns the input unchanged |
| Sorting.SortBy | lib/index.ts:41 | the output is a permutation of the input and is sorted under any total preorder |
| Sorting.SliceEnd | lib/index.ts:276 | the length `slice(0, end)` keeps: end clamped to the length, with a negative end counting from the back |
| Sorting.TopK | lib/index.ts:310-312 | sort then slice: the sliced length, sorted, a sub-multiset of the input, and (KeepsFirst) every element left out comes no earlier than every element kept |
| Sorting.SortedDistinct | lib/index.ts:154 | strictly ascending, holding exactly the elements of the input |
| Sorting.StrictlySortedUnique | lib/index.ts:154 | two strictly ascending lists with the same elements are equal, so the de-duplicated sorted list is unique |

## Left out

- `getTimezoneOffset`, `convertTime` and `getCurrentTime` (lib/index.ts:173-183, 286-303, 357-367) depend on the clock, on `Date` and `toLocaleString`, and on the platform's IANA database. `getTimeDifference` takes the offset as a parameter `offset: string -> Option<int>` instead.
- `TimeDifferenceAntisymmetric`, `TimeDifferenceToSelf`: one `offset` function fixes one instant for both cities and both calls. The source reads the clock afresh in each `getTimezoneOffset` call (lib/index.ts:175), so across a daylight-saving change between two calls the source's results can break antisymmetry or give a non-zero difference to itself.
- `haversineDistance` (lib/index.ts:250-261) is floating-point trigonometry. `findNearestCities` takes the distance as a parameter `haversine`.
- The `{coordinates}` text in `formatCityInfo` is float-to-string conversion. `FormatCityInfo` takes the rendered text as a parameter.
- `FormatCityInfo`: JavaScript's `$`-patterns in the replacement string (`$&`, `$1`, ...) are not interpreted. Replacements are inserted literally, which is correct for texts without a `$`.
- `localeCompare` (lib/index.ts:41, 50) and the default `sort()` (lib/index.ts:154, 162) are both modelled by one ordinal lexicographic order on characters. Locale collation differs from it. The sort and the binary search share one comparator, so the lookup guarantees carry over to any total order in which comparing equal means being the same string. `localeCompare` is not such an order: it returns 0 for distinct but canonically equivalent strings (a precomposed letter against a letter plus combining mark). With it, `SearchKeyInjective` and the key-equality reasoning behind `GetTimezone` no longer hold, and a lookup may return an entry whose key differs from the one asked for. UTF-16 surrogate pairs are not distinguished from code points.
- `toLowerCase` and `toUpperCase` are modelled as ASCII case mapping. Full Unicode case mapping, which can change a string's length, is not part of this model.
- `SortBy`: the JavaScript sort is stable; the model uses a stable insertion sort but proves only sortedness and permutation, not stability.
- `GetAllCities`: the source returns the internal array itself, so a caller could mutate it. The model returns the immutable sequence, so aliasing is not captured.
- `SearchCities`, `GetCitiesByTimezone`, `GetCitiesByCountry`, `SearchCitiesFuzzy` and `GetMajorCities` return the index's own record objects (lib/index.ts:122, 146, 194, 331, 310). A caller that changes a record's name or country through them breaks the search-key invariant of the index. The model's records are values, so this aliasing is not captured.
- `TimeFormat.Describe`: minutes are unbounded integers. The source works on JavaScript doubles, and the model does not capture three consequences. A fractional number of minutes is accepted by the source. Above 2^53 the double quotient can round away from the exact floor. From 10^21 hours up, `${hours}` prints exponent form ("1e+21"), which `Digits` never produces. `Describe` therefore matches the source only for realistic magnitudes, and `ParseDescribe` and `DescribeInjective` are claims about the model within that range.
- `BinarySearch`: `(low + high) >>> 1` is written as `(low + high) / 2`. The two agree for non-negative indices below 2^31.
- `findNearestCities` and `getMajorCities`: the source's default arguments (5) are not modelled separately; callers pass the bound explicitly.
- `SearchCitiesFuzzy`: the default `maxDistance = 2` (lib/index.ts:329) is not modelled separately; callers pass the bound explicitly.
- `FormatCityInfo`: the default template `{name}, {country}` (lib/index.ts:317) is not modelled as a default argument; `FormatNameCountry` covers it with the separator `, `.
- The JSON import of the dataset (lib/index.ts:5) is replaced by the constructor parameter `data`.
- `eslint.config.js` holds no program logic and is not part of this model.
