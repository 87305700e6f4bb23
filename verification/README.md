# PlanetPatrol litter dashboard: a Dafny model of the data pipeline

This project models the client-side data pipeline of the PlanetPatrol litter
dashboard and proves properties of it. The dashboard works on an in-memory
snapshot of photo records: each record reports litter pieces, categories
(brand and label), a location and moderation state. The pipeline turns these
records into filtered views, summary counts, leaderboards, time series and
country groupings. Around it sit a few small pieces at the edges:

- the API loader;
- the water-test table helpers;
- the export script that buckets coordinates for offline country resolution;
- the proxy server's Firestore serialiser and cache;
- the older standalone dashboard in the root `app.js`.

The modules follow the source files:

| module | models |
|---|---|
| `Js` | JavaScript values and numbers (`Number()`, `String()`, truthiness, `toFixed(2)`, JSON text) |
| `Text`, `Base` | string helpers and the `Option`/`Result` wrappers |
| `Coords` | two-decimal coordinate keys |
| `Sorting`, `Ranking` | a stable sort and the count-then-name comparators |
| `Sums`, `Groups` | filters, counts and insertion-ordered tables |
| `PhotoHelpers` | `js/photo-helpers.js` |
| `DateUtils` | `js/date-utils.js` |
| `FilterRules` | `js/filter-rules.js` |
| `Filters` | `js/filters.js` |
| `Stats` | `js/stats.js` |
| `Missions` | `js/missions.js` |
| `TimeSeries` | `js/time-series.js` |
| `Geo`, `Location` | the pure parts of `js/location.js` |
| `WaterTests` | `js/water-tests.js` |
| `Api` | `js/api.js` |
| `ExtractResolutions` | `scripts/extract-location-resolutions.js` |
| `Server` | `server.js` |
| `LegacyApp` | `app.js` |

How the model represents JavaScript:

- **Values.** A JavaScript value is a datatype (`undefined`, `null`, boolean,
  number, string, array, object). An object is a sequence of (key, value)
  fields in `Object.keys` order, and a photo collection is such an object
  keyed by photo id.
- **Numbers.** A number is an exact decimal or NaN or ±Infinity.
- **Parameters.** Anything the code gets from outside is a parameter of the
  model rather than part of it:
  - date parsing;
  - the `Intl` country tables;
  - `localStorage`;
  - the reverse-geocoding providers;
  - the outcome of a `fetch`;
  - the Firestore read and the clock.

## Model

| member | source | states |
|---|---|---|
| DateUtils.MatchesYear | js/date-utils.js:2-7 | an empty year passes everything; otherwise a missing date or a year `parseInt` cannot read fails, and a dated photo passes exactly when its year is the parsed year |
| DateUtils.MatchesMonth | js/date-utils.js:10-16 | an empty month passes everything; a missing date fails; a month `parseInt` cannot read passes every dated photo; otherwise the month must be the parsed month |
| DateUtils.YearOptionSelectsYear | js/date-utils.js:2-7 | the year filter set to the decimal text of a year selects exactly the dated photos of that year |
| DateUtils.MonthOptionSelectsMonth | js/date-utils.js:10-16 | the month filter set to "3" or to "03" selects exactly the dated photos of March (for every month) |
| PhotoHelpers.Pieces | js/photo-helpers.js:2-4 | the pieces of a photo are never negative: a positive `pieces` number is kept, anything else (missing, text, NaN, negative) reads as 0 |
| PhotoHelpers.PiecesOfMissing | js/photo-helpers.js:2-4 | a missing or non-numeric `pieces` field counts as no pieces |
| PhotoHelpers.PublishedTakesPrecedence | js/photo-helpers.js:7-15 | when `published` is a boolean or the text "true"/"false", it alone decides moderation: overwriting `moderated` changes nothing |
| PhotoHelpers.ModeratedFallback | js/photo-helpers.js:7-15 | without a verdict from `published`, a photo is moderated exactly when `moderated` is truthy |
| PhotoHelpers.PhotoDate | js/photo-helpers.js:18-23 | the date is read from `updated`, else `moderated`, else `created` (first truthy one); none gives no date |
| PhotoHelpers.PhotoCategories | js/photo-helpers.js:26-28 | the `categories` array itself, or an empty list for anything that is not an array |
| PhotoHelpers.CategoryCount | js/photo-helpers.js:31-34 | always positive: a finite positive `number` is kept, anything else counts as 1 |
| PhotoHelpers.CategoryValue | js/photo-helpers.js:37-40 | never empty and trimmed: the trimmed field text, or "undefined" when that is blank |
| PhotoHelpers.PhotoCoordinates | js/photo-helpers.js:43-49 | coordinates exist exactly when latitude and longitude are finite and not both 0, and then they are those two numbers |
| PhotoHelpers.OneZeroCoordinateKept | js/photo-helpers.js:43-49 | a point with only one coordinate 0 (on the equator or the prime meridian) still has a location |
| PhotoHelpers.PhotoLocationKey | js/photo-helpers.js:52-58 | the key is "undefined" exactly when there are no coordinates; otherwise it reads back as the two coordinates rounded to hundredths |
| FilterRules.StatusFiltersPartition | js/filter-rules.js:8-13 | every photo passes exactly one of the "moderated" and "unmoderated" filters |
| FilterRules.OtherStatusPassesAll | js/filter-rules.js:8-13 | any other status value ("all" included) filters nothing out |
| FilterRules.PiecesFilterMonotone | js/filter-rules.js:16-18 | lowering the minimum-pieces threshold never rejects a photo that passed |
| FilterRules.ZeroThresholdPassesAll | js/filter-rules.js:16-18 | a threshold of 0 passes every photo |
| FilterRules.DateFilterSelectsMonthOfYear | js/filter-rules.js:21-24 | with a year and a month chosen, a photo passes exactly when it has a date in that month of that year |
| FilterRules.LocationFilterWithoutCoordinates | js/filter-rules.js:27-30 | a photo without coordinates passes the location filter only when no location, or the "undefined" bucket, is chosen |
| FilterRules.NormalizeSearch | js/filter-rules.js:32-34 | the normalised search term is trimmed and lower case |
| FilterRules.NormalizeSearchIdempotent | js/filter-rules.js:32-34 | normalising an already normalised term changes nothing |
| FilterRules.BrandLabelWithoutCategories | js/filter-rules.js:44-50 | a photo without categories passes the brand/label search exactly when the search is blank |
| FilterRules.CategoryMatchesOwnBrand | js/filter-rules.js:36-41 | a category matches a search for its own brand and for its own label |
| Stats.SumPiecesIsSum | js/stats.js:2-10 | the accumulation loop equals the sum of the pieces of the selected photos, in `Object.keys` order |
| Stats.CountPhotosIsCount | js/stats.js:13-21 | the counting loop equals the number of selected photos |
| Stats.SumTotalPiecesIsSum | js/stats.js:24-26 | the total is the sum of the pieces of every photo |
| Stats.PiecesPartition | js/stats.js:24-31 | the moderated and the unmoderated piece totals add up to the overall total |
| Stats.CountPartition | js/stats.js:33-41 | the moderated and the unmoderated counts add up to the number of photos |
| Stats.AddPhotoFacts | js/stats.js:47-58 | one photo adds its category counts (or 1 when it has no categories) to the grand total, and every total stays positive |
| Stats.UncategorisedAddsOne | js/stats.js:50-53 | a photo without categories adds exactly 1 to the "undefined" row and leaves every other row alone |
| Stats.AggregateCategoryTotalsFacts | js/stats.js:44-61 | every total is positive; the totals add up to the category counts of all photos (1 per uncategorised photo); and each name's total is the sum, over all photos, of the counts of that photo's categories carrying the name (1 for "undefined" per uncategorised photo) |
| Stats.AggregateKeys | js/stats.js:44-61 | a name has a row exactly when some photo mentions it (a category's value, or "undefined" for an uncategorised photo) |
| Stats.RowsTotal | js/stats.js:65-66 | turning the totals into `{ name, count }` rows keeps their sum |
| Stats.TopCategoryTotalsFacts | js/stats.js:64-69 | the rows are ranked by count descending then name and have distinct names; there are exactly as many as `slice(0, limit)` keeps of all the names (for a whole non-negative limit, the limit or all names when there are fewer); they are a prefix of all ranked rows, and each carries its name's total |
| Stats.SummarizePhotoCategoryTotalsFacts | js/stats.js:72-82 | the rows of one photo are ranked, have distinct names and add up to the photo's category counts. Each row's count is the sum of the counts of the photo's categories whose value is the row's name. A name has a row exactly when some category of the photo carries it, so a photo without categories has no rows |
| Missions.NormalizeMissionNameIdempotent | js/missions.js:3-8 | the normalised name is trimmed, lower case and single-spaced, and normalising it again changes nothing |
| Missions.MissionGroupKeyFacts | js/missions.js:3-16 | names with the same normalised form share a group; a group key is itself a normalised name and its own group key; and the key is "sky care" exactly for names whose normalised form starts with "sky care" |
| Missions.SkyCareVariants | js/missions.js:10-16 | "Sky Care 2022" and "Sky Care Mission 2024" fall into the one "sky care" group |
| Missions.MissionGroupKey | js/missions.js:10-16 | the group key is never empty |
| Missions.MissionPieces | js/missions.js:18-28 | the pieces are decided by the first of the four fields that is set (neither null nor undefined), whatever the later fields hold: its numeric value when finite, 0 otherwise; with none set, 0 |
| Missions.TotalPiecesFirst | js/missions.js:18-28 | a present `totalPieces` decides the pieces, whatever the other fields hold |
| Missions.NoPiecesField | js/missions.js:18-28 | a mission with none of the four fields has 0 pieces |
| Missions.HiddenMissionIgnored | js/missions.js:30-32 | a hidden (or missing) mission changes no group |
| Missions.GroupRow | js/missions.js:35-53 | a group exists exactly when a visible mission has its key, and its count is the sum of those missions' pieces. Its name is "Sky Care" for the Sky Care group. For any other group it is the first raw name that is neither blank nor a placeholder ("Unnamed mission", "undefined"). When there is none, it is the last non-blank raw name, which is then a placeholder, or "Unnamed mission" when every raw name is blank |
| Missions.GroupKeysUnique | js/missions.js:35-53 | no group key appears twice |
| Missions.TopMissionTotalsFacts | js/missions.js:55-59 | the rows are groups with a positive count, ranked by count descending then name; there are exactly as many as the limit cut to a whole number (never below 0), or all such groups when there are fewer; and they are a prefix of all such ranked groups |
| Filters.MatchingCategories | js/filters.js:20-22 | every category kept for a search matches the search term |
| Filters.KeptIffPasses | js/filters.js:8-23 | a photo is kept exactly when it passes the country, status, pieces, date and brand/label checks (and, with a search term, keeps a matching category) |
| Filters.KeptValue | js/filters.js:14-24 | without a search term the photo is kept unchanged; with one, only its `categories` changes, to the non-empty list of its matching categories |
| Filters.KeepEachSound | js/filters.js:6-26 | every output entry comes from an input entry under the same id |
| Filters.KeepEachOrder | js/filters.js:6-26 | the output ids are a subsequence of the input ids, in the same order |
| Filters.FilterPhotosFacts | js/filters.js:2-27 | the output holds exactly the passing photos (each under its own id, rewritten as kept), in input order |
| Filters.KeptAgain | js/filters.js:14-24 | filtering a kept photo again with the same values keeps it unchanged |
| Filters.SameChecksOutsideCategories | js/filters.js:9-12 | the country, status, pieces and date checks do not look at `categories` |
| Filters.FilterPhotosIdempotent | js/filters.js:2-27 | filtering an already filtered set with the same values changes nothing |
| Filters.SelectCountry | js/filters.js:96-97 | the selected country survives exactly when it is empty or one of the listed countries; otherwise the selection is cleared |
| Filters.SelectionSurvives | js/filters.js:87-100 | the selection kept is empty or the key of a known country of some photo, and a country some photo has is never cleared |
| Geo.LookupKey | js/location.js:138-146 | the lookup key is trimmed and made only of lower-case ASCII letters, digits and spaces |
| Geo.ParseCountryFromLabel | js/location.js:120-127 | never empty; a blank label or "unknown location"/"unknown country" in any case gives "Unknown country"; a label without a comma is its own country |
| Geo.LastNonBlankSegment | js/location.js:125 | the comma-separated segments that survive are all blank exactly when every part is blank; otherwise the last survivor is the trimmed last non-blank part |
| Geo.NormalizeCountryName | js/location.js:129-136 | never empty; blank or unknown text gives "Unknown country"; otherwise the alias table applies first, then the English name from the locale tables, falling back to the aliased text |
| Geo.AliasesApplyFirst | js/location.js:14-20 | "usa" in any spacing or case normalises exactly as "United States" does |
| Geo.NormalizeCountryCode | js/location.js:228-231 | the normalised code is trimmed and upper case |
| Geo.NormalizeCountryCodeIdempotent | js/location.js:228-231 | normalising a normalised code (UK already mapped to GB) changes nothing |
| Geo.OverridesWin | js/location.js:212-214 | Kosovo maps to XK and Vatican City to VA whatever the locale tables hold |
| Geo.CountryCodeFromName | js/location.js:220-226 | an unknown country has no code |
| Geo.CountryGroupKey | js/location.js:233-237 | the key starts with "cc:" exactly when the normalised code is two letters, and the code reads back from the rest of the key; otherwise the rest of the key is the lower-cased normalised name |
| Geo.NameGroupsMeet | js/location.js:233-237 | two records without a two-letter code share a group exactly when their normalised names agree up to case |
| Geo.GroupKeysSeparate | js/location.js:233-237 | for a record with a two-letter code, two records share a group exactly when their codes are equal |
| Geo.NormalizeLocationEntry | js/location.js:239-254 | a missing entry is the unknown entry; a text entry keeps the text as its label; an object keeps its trimmed label (or "Unknown location") and its own normalised code when it has one; the country is never empty |
| Geo.StoredEntryRoundTrip | js/location.js:239-254 | normalising a stored entry again keeps its label and its normalised code |
| Geo.UnknownEntryStaysUnknown | js/location.js:418-421 | the unknown entry is still unknown when read back, so the build loop retries it |
| Location.AllCoordinates | js/location.js:76-88 | at most one point per photo, each with finite coordinates |
| Location.AllCoordinatesMembers | js/location.js:76-88 | a point is listed exactly when a photo with that id has those coordinates |
| Location.CoordinateKey | js/location.js:91-93 | the dictionary key of finite coordinates reads back ("lat,lon", no space) as the coordinates rounded to hundredths |
| Location.UniqueCoordinatesFacts | js/location.js:96-103 | the unique coordinates have distinct keys, every key is a valid dictionary key, and every photo with coordinates has its key among them |
| Location.ToResolutionKey | js/location.js:289-291 | the resolution key ("lat, lon", comma and space) reads back as the rounded coordinates and is never a valid dictionary key |
| Location.DistanceSquared | js/location.js:293-297 | the result is exactly the squared Euclidean distance of the two points |
| Location.DistanceFacts | js/location.js:293-297 | the squared distance is non-negative, zero from a point to itself, and symmetric |
| Location.ResolutionRow | js/location.js:305-316 | a table row is taken exactly when its country is known and both coordinates are finite; without a key it is keyed by its resolution key |
| Location.ResolutionLookupWellFormed | js/location.js:299-322 | every point and every keyed entry of the resolution table has a known country and finite coordinates |
| Location.FirstLeast | js/location.js:336-344 | the scan finds the first point at the least distance below infinity, or none when there is no such point |
| Location.FetchCountryFromResolutionData | js/location.js:324-355 | the scan's answer is the table answer stated without it: an exact key hit answers first; otherwise the first point at the least distance answers (its country within the maximum distance, else unknown); with no point it is the unknown entry; every answer is a known country with no code |
| Location.FirstAnswer | js/location.js:408-416 | the first answer naming a known country, or the unknown entry when none does |
| Location.NearbyPoints | js/location.js:400-406 | the probe ring has exactly 8 points |
| Location.NearbyPointsOffsets | js/location.js:400-406 | the ring is +0.75 and −0.75 on latitude, then on longitude, then the same at 1.5 |
| Location.ProbeAnswers | js/location.js:408-414 | at each ring point Photon is asked before Nominatim, point by point in ring order |
| Location.FetchLocationLabel | js/location.js:268-287 | the stages run in order: a table answer naming a known country is returned; otherwise, with live look-ups off, the unknown entry; otherwise the first of Photon at the point, the nearby ring and Nominatim at the point that names a known country, or the unknown entry |
| Location.LoadLocationDictionary | js/location.js:424-441 | missing, unreadable or non-object storage gives an empty dictionary |
| Location.LoadLocationDictionaryFacts | js/location.js:424-441 | the loaded keys are exactly the stored keys that match the dictionary key pattern, each with its normalised entry |
| Location.SaveLoadRoundTrip | js/location.js:444-450 | a saved dictionary loads back with the same keys in the same order and the same labels |
| Location.GetOrBuildLocationDictionary | js/location.js:456-474 | known entries are never overwritten; each coordinate whose loaded entry is missing or unknown holds the normalised label that `fetchLocationLabel` settles on for it; every photo's coordinate key gets an entry; and the keys are the loaded keys plus the unique coordinate keys |
| Location.FirstCodeFor | js/location.js:527-531 | the code of the first entry of that country that has one, or none |
| Location.GetCountryCodeFromDictionary | js/location.js:520-535 | the first dictionary entry of the country that carries a code wins; without one the name-to-code table decides |
| Location.CountryInfoForPhoto | js/location.js:476-496 | a photo without coordinates is the unknown country; otherwise the dictionary entry's country and label, its code or else the dictionary's code for the country; the group key follows from country and code |
| Location.MissingKeyIsUnknown | js/location.js:486-488 | a photo whose coordinate key is not in the dictionary is in the unknown country |
| Location.StoredLabelShown | js/location.js:486-494 | a stored non-blank label is the label shown for the photo |
| Location.GroupInfosCover | js/location.js:498-515 | every known-country record has a group, and every group comes from such a record |
| Location.RankGroupsFacts | js/location.js:498-518 | every row is a known country with a count of at least 1, the counts add up to the known-country records, rows are sorted by count descending then country name, and keys are distinct; each row counts exactly the known-country records of its group, shows the country of the group's first record, and carries the code of the group's first record that has one ("" when none has) |
| Text.Pad2Facts | js/time-series.js:15-17 | for 0 to 99 the padded text is two digits and `parseInt` reads it back |
| TimeSeries.EscapeChar | js/time-series.js:6-13 | a character is rewritten to an entity (text starting "&") exactly when it is one of the five special characters |
| TimeSeries.EscapeTextIsEscapeEach | js/time-series.js:6-13 | the five `replaceAll` passes in order (ampersand first) equal escaping each character once, so nothing is escaped twice |
| TimeSeries.EscapeHtmlFacts | js/time-series.js:6-13 | the escaped text has no raw `<`, `>`, `"` or `'`, every `&` starts one of the five entities, and unescaping gives back the original text |
| TimeSeries.UnescapeEscapeEach | js/time-series.js:6-13 | escaping is undone by unescaping, character by character |
| TimeSeries.ChooseTimeGranularity | js/time-series.js:35-41 | "day" exactly when year and month are both set, "month" exactly when only the year is, "year" exactly when the year is blank (a month alone included) |
| TimeSeries.BucketKey | js/time-series.js:43-51 | the key is empty exactly when there is no date |
| TimeSeries.KeySplit | js/time-series.js:43-51 | for a year of 0 or later the key is "YYYY", "YYYY-MM" or "YYYY-MM-DD" with the month and day zero-padded to two digits |
| TimeSeries.NewDate | js/time-series.js:62-66 | `new Date(y, m, d)` always lands on a real calendar date, rolling over extra days and months |
| TimeSeries.NewDateOfCalendarDate | js/time-series.js:62-66 | for a day that exists in that month, `new Date` keeps the date unchanged (with a year 0 to 99 read as 1900 onwards) |
| TimeSeries.BucketKeyRoundTrip | js/time-series.js:43-67 | for years from 100 on, parsing the key of a date gives the first day of its bucket |
| TimeSeries.TwoDigitYearRead | js/time-series.js:53-67 | for years 0 to 99 the parsed key lands in 1900 to 1999, the first day of the bucket otherwise |
| TimeSeries.NegativeYearUnread | js/time-series.js:53-67 | the key of a negative year does not parse back (the minus sign splits the key) |
| TimeSeries.KeyReadsBack | js/time-series.js:43-67 | a key parses back exactly when its year is 0 or later |
| TimeSeries.SkippedRecordIgnored | js/time-series.js:124-127 | a record without a date, or dated 1970, changes no bucket |
| TimeSeries.LoopKeyed | js/time-series.js:122-134 | the bucket keys are unique and each bucket is stored under its own key |
| TimeSeries.LoopPhotoTotal | js/time-series.js:128-134 | the photo counts of the buckets add up to the number of charted records |
| TimeSeries.LoopPieceTotal | js/time-series.js:128-134 | the pieces of the buckets add up to the pieces of the charted records |
| TimeSeries.DatedKeepsAll | js/time-series.js:136-138 | when every key parses, attaching dates keeps every bucket, so the totals are unchanged |
| TimeSeries.SortedPoints | js/time-series.js:136-139 | the points are sorted by date, have distinct keys, and each comes from a bucket |
| TimeSeries.TimeSeriesOrdered | js/time-series.js:117-141 | the granularity is the chosen one, points are sorted by date with distinct keys, and each point's date is its parsed key |
| TimeSeries.TimeSeriesTotals | js/time-series.js:117-141 | the points' photo counts add up to the number of charted records and their pieces to those records' pieces; each point counts exactly the charted records whose date falls under its key, and holds their pieces |
| TimeSeries.TimeSeriesStrictlyAscending | js/time-series.js:117-141 | for calendar dates outside years 0 to 99, the points are strictly ascending by date |
| WaterTests.Truncate | js/water-tests.js:28-29 | text within the limit is kept whole; longer text becomes a prefix of itself followed by one ellipsis, exactly `maxLen` characters long (just the ellipsis when the limit is below 1) |
| WaterTests.SafeJsonStringify | js/water-tests.js:21-30 | a string is shown as itself and any other value as its JSON text, each truncated; only `undefined` yields no text |
| WaterTests.SafeJsonStringifyBound | js/water-tests.js:21-30 | for a limit of at least 1 the shown text never exceeds the limit, equals the full text exactly when that fits, and otherwise is the first `maxLen - 1` characters plus an ellipsis |
| WaterTests.FormatCellValue | js/water-tests.js:32-38 | null and undefined show as empty, booleans as `true`/`false`, strings as themselves, numbers as their JavaScript text, and arrays and objects as JSON cut to the default limit |
| WaterTests.FormatResultValueFacts | js/water-tests.js:40-45 | a boolean coliforms result reads Positive exactly when true and Negative exactly when false; every other result is formatted as a plain cell |
| WaterTests.FindFirst | js/water-tests.js:85-88 | the key found is a key of the record that satisfies the test and no earlier key does; nothing is found exactly when no key satisfies it |
| WaterTests.PrimaryResultOrder | js/water-tests.js:76-91 | the configured result field wins when present (with its units field); otherwise the first key ending in the reading suffix, then the first key mentioning it, then the field named after the test type, and finally no value |
| WaterTests.DateTimeOf | js/water-tests.js:103-104 | a missing or non-numeric `dateTime` reads as 0, so the sort never compares NaN |
| WaterTests.NewestLeMeaning | js/water-tests.js:102-108 | one record id sorts before another exactly when its time is later, or the times are equal and its id is not smaller |
| WaterTests.NewestLePreorder | js/water-tests.js:102-108 | the newest-first comparator is a total preorder, so the sort is well defined |
| WaterTests.SortedRecordIdsFacts | js/water-tests.js:100-109 | the sorted ids are a permutation of the record ids, their times never increase, and equal times keep the ids in descending order |
| WaterTests.LabelIn | js/water-tests.js:260-263 | a listed test type gets a label paired with it in the table; an unlisted type is shown as itself |
| WaterTests.WaterTestLabelFacts | js/water-tests.js:1-8 | each of the known test types has a label different from its raw key; any other type is shown as itself |
| WaterTests.CountryCell | js/water-tests.js:143-146 | the country cell is never empty |
| WaterTests.ColiformsLocationLabel | js/water-tests.js:143-150 | the location label is never empty |
| WaterTests.ColiformsLocationLabelFacts | js/water-tests.js:143-150 | a blank or `unknown country` country reads `undefined`; with a constituency the label is the constituency, a comma and the country, otherwise the country alone |
| WaterTests.NoConstituencyLookup | js/water-tests.js:139-141 | when no constituency lookup is loaded the label is just the country cell |
| Api.IsExpectedApiPayload | js/api.js:48-57 | the payload is accepted exactly when it is a plain object whose `photos` is a plain object; null, arrays and non-objects are refused |
| Api.EnsureNonEmpty | js/api.js:44-46 | the dataset is kept exactly when `photos` has at least one key, and refused exactly when it has none |
| Api.EnsureNonEmptyOfPayload | js/api.js:44-46 | for an accepted payload, non-empty means at least one photo id |
| Api.FetchAndNormalize | js/api.js:18-41 | loading succeeds exactly when the response is ok, its body parses, has the expected shape and holds a photo, and then yields that body; a failure never surfaces as an abort |
| Api.FetchAndNormalizeFailures | js/api.js:21-37 | a failed status, an unexpected shape and an empty dataset each fail with their own message, checked in that order; an abort at any step becomes the time-out message |
| Api.MessagesDistinct | js/api.js:23-35 | the status, shape, empty and time-out messages are pairwise different |
| Api.FetchData | js/api.js:4-10 | the loader yields the dataset exactly when loading succeeds; otherwise the error's message, or the fixed fallback when it has none, and never an empty message |
| ExtractResolutions.ParseFrom | scripts/extract-location-resolutions.js:17-25 | a limit left by the flag loop is either the one it started with or a positive finite number |
| ExtractResolutions.ParseArgs | scripts/extract-location-resolutions.js:15-27 | any limit the parsed arguments carry is a positive finite number |
| ExtractResolutions.ParseArgsDefaults | scripts/extract-location-resolutions.js:16 | without `--output` or `--limit` the arguments are the default output file and no limit |
| ExtractResolutions.TrailingFlagIgnored | scripts/extract-location-resolutions.js:19-23 | a flag in the last position, with no value after it, changes nothing |
| ExtractResolutions.LimitFlag | scripts/extract-location-resolutions.js:21-23 | `--limit v` keeps the default output and sets the limit to the number `v` when that is positive and finite, and to none otherwise |
| ExtractResolutions.OutputFlag | scripts/extract-location-resolutions.js:19-20 | `--output p` sets the output to the resolved path of `p` and leaves no limit |
| ExtractResolutions.LimitBuckets | scripts/extract-location-resolutions.js:122 | the processed buckets are a prefix of all buckets |
| ExtractResolutions.LimitBucketsCount | scripts/extract-location-resolutions.js:122 | a limit of k keeps exactly the first k buckets, or all of them when there are fewer |
| ExtractResolutions.KeyFromCoord | scripts/extract-location-resolutions.js:33-35 | the bucket key is the dashboard's resolution key, and it parses back to the two coordinates rounded to hundredths |
| ExtractResolutions.Classify | scripts/extract-location-resolutions.js:42-53 | a photo lacks coordinates exactly when either is not a finite number, is at zero/zero exactly when both are finite and zero, and otherwise is keyed by its rounded coordinates |
| ExtractResolutions.TallyPartition | scripts/extract-location-resolutions.js:42-59 | the missing and zero/zero counters count those photos, the bucket counts add up to the keyed photos, and together they account for every photo |
| ExtractResolutions.TallyKeyed | scripts/extract-location-resolutions.js:55-58 | the bucket table has one entry per key and each entry is filed under its own key |
| ExtractResolutions.TallyLookup | scripts/extract-location-resolutions.js:42-59 | a key has a bucket exactly when some photo falls into it; the bucket counts those photos and keeps the coordinates of the first of them |
| ExtractResolutions.SeenStaysFirst | scripts/extract-location-resolutions.js:56 | later photos in the same bucket do not replace the coordinates of the first |
| ExtractResolutions.ReportOrder | scripts/extract-location-resolutions.js:62 | the reported buckets have distinct keys and are ranked by count, descending, then by key |
| ExtractResolutions.ReportedIsStored | scripts/extract-location-resolutions.js:62 | every reported bucket is the bucket stored under its key |
| ExtractResolutions.StoredIsReported | scripts/extract-location-resolutions.js:62 | every stored bucket is reported |
| ExtractResolutions.BuildBucketsPartition | scripts/extract-location-resolutions.js:37-66 | the result counts the photos without coordinates and those at zero/zero, and bucket counts plus both counters equal the number of photos |
| ExtractResolutions.BuildBucketsOrder | scripts/extract-location-resolutions.js:61-62 | the buckets have distinct keys and are sorted by count, descending, with ties by key |
| ExtractResolutions.BuildBucketsContents | scripts/extract-location-resolutions.js:37-66 | each bucket counts exactly the photos with its key and keeps the first such photo's coordinates, and every keyed photo has a bucket |
| ExtractResolutions.ResolveKeepsOthers | scripts/extract-location-resolutions.js:132-146 | a cache entry whose key is not among the processed buckets is left as it was |
| ExtractResolutions.ResolveBucket | scripts/extract-location-resolutions.js:132-146 | for each processed bucket an entry already resolved as `ok` is kept, and any other is replaced by a fresh lookup |
| ExtractResolutions.ResolveLookups | scripts/extract-location-resolutions.js:131-147 | the number of lookups made equals the number of processed buckets without an `ok` entry |
| ExtractResolutions.RunSkipsResolved | scripts/extract-location-resolutions.js:121-146 | over the whole run, resolved entries are never looked up again, unresolved buckets within the limit get the geocoder's answer, other entries are untouched, and the lookup count matches |
| Server.Serialize | server.js:65-76 | null and undefined pass through, timestamps become ISO text, geo points are kept whole, and arrays and objects are converted element by element with their keys in order |
| Server.SerializeIsSerialized | server.js:65-76 | the converted value contains no timestamp outside a geo point |
| Server.SameKeysSameGeo | server.js:68 | converting the fields of an object does not change whether it is a geo point |
| Server.SerializeFixedPoint | server.js:65-76 | conversion leaves a value unchanged exactly when it already contains no timestamp outside a geo point |
| Server.SerializeIdempotent | server.js:65-76 | converting twice is the same as converting once |
| Server.PhotosPayload | server.js:78-85 | the payload has a single `photos` field holding every document, in order, under its id, with its data converted |
| Server.CacheTtl | server.js:8 | the cache lifetime is the configured number when that is truthy, and five minutes otherwise; it is never NaN or zero |
| Server.CacheDecision | server.js:87-115 | a fresh cache is served unchanged; otherwise a successful read is served and cached until the read time plus the lifetime, and a failed read serves the stale payload if any, or the error |
| Server.RefreshedIsFresh | server.js:99-103 | after a refresh the cache is fresh for the lifetime and is served without another read |
| Server.ExpiredIsRead | server.js:88-91 | a cached payload whose expiry is not later than now is not served without a read |
| Server.ApiResponse | server.js:143-152 | the photos route answers 200 with the payload, or 500 with a message that names the failed Firestore read |
| LegacyApp.GetPieces | app.js:13-15 | the pieces of a photo are its `pieces` number when that is truthy, negative counts included, and 0 otherwise; never NaN |
| LegacyApp.NegativePiecesKept | app.js:13-15 | a negative `pieces` value is kept by this reader, while the current dashboard reads it as 0 |
| LegacyApp.GetPhotoDate | app.js:23-28 | the date of a photo is its moderation time, else its update time, else its creation time, else none |
| LegacyApp.MatchesYear | app.js:31-34 | an empty year or an undated photo passes; a dated photo passes exactly when its year is the parsed year |
| LegacyApp.MatchesMonth | app.js:37-40 | an empty month or an undated photo passes; otherwise the month must be the parsed month and, when a year is chosen, the year must match |
| LegacyApp.CeilDiv | app.js:48 | the rounded-up quotient is the least integer whose multiple of the divisor reaches the dividend |
| LegacyApp.IsoWeek | app.js:43-49 | the week number of a calendar date, taken from the ordinal day of its Thursday, is between 1 and 53 |
| LegacyApp.IsoWeekAsWrittenOffByOne | app.js:43-49 | the week computed with the time of day kept equals the ISO week, except one too high when the time is after midnight and the Thursday's ordinal day is a multiple of 7 |
| LegacyApp.IsoWeekAsWrittenExample | app.js:45-48 | noon on 7 January 2021 is computed as week 2 although its ISO week is 1 |
| LegacyApp.MatchesWeek | app.js:52-55 | an empty week or an undated photo passes; otherwise the week `getISOWeek` computes as written must be the parsed week and, when a year is chosen, the year must match |
| LegacyApp.MatchesWeekIntended | app.js:52-55 | the same filter on the ISO week of the photo's date |
| LegacyApp.MatchesWeekAgree | app.js:43-55 | the week filter as written and the intended one decide alike, except for a photo taken after midnight whose Thursday's day of the year is a multiple of 7 |
| LegacyApp.MatchesWeekExample | app.js:43-55 | a photo taken at noon on 7 January 2021 passes the week filter "2" as written, and fails it under the ISO week |
| LegacyApp.YearFilterDiffers | app.js:31-34 | this year filter agrees with the current one except that it lets an undated photo through when a year is chosen |
| LegacyApp.CountsPartition | app.js:65-76 | moderated and unmoderated photos together are all the photos |
| LegacyApp.FilterPhotosFacts | app.js:79-94 | the filtered photos are exactly the entries that pass the status, pieces and date tests (the week test as written), and there are no more of them than of the input |
| LegacyApp.FilteredPhotosPass | app.js:79-94 | every photo read back from the filtered object passes all the tests, the week test as written included |
| LegacyApp.MinPieces | app.js:125 | the minimum pieces is the parsed number clamped at 0, and 0 when the text does not parse |
| LegacyApp.ApplyFiltersFacts | app.js:97-130 | the moderated and unmoderated cards add up to the total, the total never exceeds the input, and a status filter empties the other card |

## Left out

- Network I/O: `fetch`, the `AbortController` time-out, and the Photon and Nominatim requests. A provider is a function parameter returning a location entry; how a `fetch` settles is the input of `Api.FetchAndNormalize`; the geocoder of the export script is a parameter of `ExtractResolutions.Run`.
- The response mapping inside `fetchPhotonLocation`, `fetchNominatimCountry`, `findNearbyCountry` and `geocodeCountry`: these are network adapters, so their answers enter only as provider results.
- `js/location-resolver.js` (the rate-limited promise queue with in-flight caching): concurrency plus network.
- The single-flight de-duplication in `server.js` (`inflightPhotosFetch`): concurrent requests are not modelled; requests are handled one after another.
- The HTTP server, static file serving, path normalisation, credential loading and Firebase admin: I/O and configuration. The Firestore read, its finishing time and the clock are inputs of `Server.GetPhotosWithCache`.
- `localStorage` reads and writes: the stored dictionary is an input (missing, unreadable, or parsed JSON), and saving is the serialised value that a later load reads back.
- The export script's file system work (`loadExisting`, `writeOutput`, saving every `SAVE_EVERY` lookups), its request delays (`sleep`), console output and `path.resolve`. The resolved path is a parameter of `ExtractResolutions.ParseArgs`.
- `Intl.DisplayNames` country tables: uninterpreted lookup tables passed as parameters. Unicode NFKD normalisation is the identity.
- WeakMap and module-level memo caches: modelled as the pure functions they memoise. A `null` dictionary in `getCountryCodeFromDictionary` is not modelled, because every caller passes an object.
- Floating point: numbers are exact decimals, so addition never rounds. The conversions are concrete and differ from JavaScript as follows:
  - `Js.ToFixed2` rounds the exact decimal half up, whereas JavaScript rounds the binary double, so `1.005.toFixed(2)` is "1.00" in JavaScript and "1.01" here. This reaches coordinate, resolution and bucket keys.
  - `Js.StringToNumber` reads only optionally signed decimal literals and `Infinity`, so "1e3" and "0x10" are NaN here, where `Number()` gives 1000 and 16. An export-script `--limit 1e3` therefore sets no limit here.
  - `Js.NumberToString` never uses exponent form, whereas `String(1e21)` is "1e+21".
- `localeCompare` is plain code-point order on strings. String length counts characters, not UTF-16 code units.
- JavaScript date parsing and local time zones: a date is parsed by a parameter into a calendar (year, month, day), plus a time of day for the older dashboard. Daylight-saving shifts in the older week computation are not modelled.
- `Object.keys` moving integer-like keys to the front is not modelled: keys keep their stored order. For a value that is not an object the keys are empty, except in `Api.KeyCount`, which counts the characters of a string and the elements of an array.
- The `JSON.stringify` throw branch of `safeJsonStringify` (cyclic values and BigInts cannot be represented) and the message of a thrown value that is not an `Error`.
- `getConstituencyInfoForPhoto` is not defined anywhere in the repository, so the constituency is a parameter of `WaterTests.ColiformsLocationLabel`, and `WaterTests.NoConstituencyLookup` covers the case where it is absent.
- DOM and presentation: all of `js/render.js`, `js/app.js`, `js/dom.js` and `js/config.js`; the DOM parts of `js/filters.js`, `js/time-series.js`, `js/water-tests.js` and `app.js`. That includes `populateYearOptions`, `updateCountryHeader`, `populateDateFilters`, tables, modals and tooltips. `getFilterValues` reads the same minimum-pieces rule that `LegacyApp.MinPieces` states.
- Chart geometry and locale formatting (`niceCeilStep`, `smoothPathD`, the chart layout, `formatNumber`, `formatCompactNumber`, `toLocaleString`, `formatDateTime`, `formatDateOnly`) and `countryCodeToFlag`: floating point and presentation only.
- TimeSeries.BucketKeyRoundTrip: the round trip is stated for years from 100 upward. Years 0 to 99 and negative years are stated separately, in `TimeSeries.TwoDigitYearRead` and `TimeSeries.NegativeYearUnread`.
- LegacyApp.IsoWeekAsWrittenOffByOne: the relation is stated only when the Thursday's year lies outside 0 to 99, where `new Date(y, 0, 1)` reads the year as 1900 + y. LegacyApp.MatchesWeekAgree inherits that restriction.
- NormalizeSearch: lower case covers only the ASCII letters A to Z, whereas `toLowerCase` maps all of Unicode. So the brand "ÉVIAN" does not match the search "Évian" here (FilterRules.CategoryMatches compares the two lower-cased texts), while JavaScript keeps the photo.
- NormalizeMissionNameIdempotent: for the same reason "lower case" means ASCII lower case, so the missions "Île Propre" and "île propre" form two groups here (through Missions.NormalizeMissionName) and one in JavaScript.
- CategoryMatches: inherits the ASCII-only lower case of NormalizeSearch.
- NormalizeCountryCode: upper case covers only a to z, whereas `toUpperCase` maps all of Unicode. The same ASCII-only lower case is used for the "unknown" checks and the alias key in `Geo.ParseCountryFromLabel` and `Geo.NormalizeCountryName`, and for the name part of `Geo.CountryGroupKey`; so two country names that differ only in the case of a non-ASCII letter, and that the locale tables do not know, form two groups here. (`Geo.LookupKey` is unaffected: only ASCII letters and digits remain when it lower-cases.)
- NormalizeCountryName: the alias table is looked up as a plain table, whereas `COUNTRY_NAME_ALIASES[lower]` also finds inherited object properties. For the text "Constructor", JavaScript's alias is the `Object` function, so the source's result is not text at all; the model treats the name as having no alias.

## Findings

| source | as written | input that shows it | evidently intended | confidence | as-written member | corrected member |
|---|---|---|---|---|---|---|
| app.js:43-49 | `getISOWeek` copies the date with its time of day and divides the milliseconds since 1 January by a week, rounding up, so the time of day pushes an exact multiple of seven days over into the next week | 7 January 2021 at 12:00 local time: its Thursday is day 7 of the year, and the code gives week 2 | the ISO 8601 week, which is 1 for that date: the week comes from the Thursday's day of the year alone, whatever the time of day | not executed | LegacyApp.IsoWeekAsWritten, used by LegacyApp.MatchesWeek and the filter chain (shown by LegacyApp.IsoWeekAsWrittenExample, LegacyApp.IsoWeekAsWrittenOffByOne and LegacyApp.MatchesWeekExample) | LegacyApp.IsoWeek, used by LegacyApp.MatchesWeekIntended (related to the as-written filter by LegacyApp.MatchesWeekAgree) |
