# RepartidorApp route planner: a Dafny model of its core

RepartidorApp plans delivery routes for one or two vans in Posadas
(Córdoba, Spain). A list of delivery rows goes through four steps:

1. The rows are grouped by a normalised address key.
2. Each address is geocoded through a cache, a table of manual overrides and
   a five-strategy cascade against a search service.
3. The VROOM solver picks the visiting order and OSRM gives the
   turn-by-turn steps.
4. The answer is laid out as a stop list per route.

This project models those four steps as pure Dafny functions over
immutable data and proves what the code promises about them.

Modules, one per concern of the program:

| module | file | models |
|---|---|---|
| `Common` | common.dfy | shared constants (`MAX_STOPS`, `POSADAS_CENTER`, the acceptance window, the default origin), `Option`, sums, and the "keep the answers there are" loop used by several handlers |
| `Text` | text.dfy | the Python string operations the code relies on: `strip`, `lower`, `in`, `split`, `" ".join`, `str(n)` |
| `Dedup` | dedup.dfy | `_normalize_for_dedup` and the insertion-ordered grouping of `_group_duplicate_addresses` (the same normaliser serves `validation.py`) |
| `Cleaning` | cleaning.dfy | the structural part of `clean_address`, plus `_extract_street_only`, `_simplify_for_search` and the street-with-number of strategy 2 |
| `Geocoding` | geocoding.dfy | the geocoder state (cache and overrides), `geocode`, `add_override`, `clear_cache` and `geocode_batch` |
| `Routing` | routing.dfy | `_step_text`, `_format_duration`, `_format_distance`, the VROOM request and answer of `optimize_route`, and the step list of `get_route_details` |
| `Layout` | layout.dfy | the stop lists and summaries of `optimize` and `_build_multi_response` |
| `Optimize` | optimize.dfy | the `/optimize` handler: intake checks, pre-grouped bypass, the three ways of placing stops, the ok/fail partition, and errors as a result |
| `Validation` | validation.dfy | `_build_full_address` and `validation_start` |

Modelling conventions:
- Coordinates are integer micro-degrees.
- Distances are whole meters and durations whole seconds.
- The network services are function parameters:
  - the search service is `Provider = Query -> Option<Coord>`;
  - the VROOM solver is `Payload -> Option<VroomReply>`;
  - the OSRM engine is `seq<Coord> -> Option<OsrmReply>`.
  - A failed call, a timeout or an exception is the `None` answer.
- The regular-expression rewrite tables of `clean_address` are an
  uninterpreted `rewrite: string -> string`.
- The geocoder's module-level dictionaries are a `Geocoder` value. Each
  handler takes it as input and returns its new value.
- The whole miss path of `geocode` can also be passed in as
  `miss: string -> Outcome`. This is what `Geocoding.Service` builds from a
  provider and a rewrite. `Windowed(miss)` says that every coordinate it
  returns lies in the acceptance window.
- HTTP errors are a `Rejected(reason)` response. `Optimize.Status` gives the
  status code of each reason.

Where the program's design notes and its code differ, the model follows the
code:
- `geocode` looks in the cache before the overrides. The overrides still
  win when `add_override` completes, because it writes both maps.
  `Geocoding.OverrideWins` proves this for every state that satisfies
  `Geocoding.Valid`. If saving the overrides file fails, the cache is
  not updated; see `Geocoding.AddOverride` under "Left out".
- With several vehicles, a solver answer with no routes is a successful
  response with zero routes, not an error. `Routing.ReadReply` and
  `Optimize.Route` keep that.
- The request record declares no `num_vehicles`, although `optimize` reads
  `req.num_vehicles`. The model gives `Request` a `vehicles` field.
- `client_names` is matched to the addresses by position in the list
  after blank rows are dropped (app/routers/optimize.py:135-138). A blank
  row therefore shifts the later names by one. `Optimize.PadNames` keeps
  this behaviour.

## Model

| member | source | states |
|---|---|---|
| Common.CollectSpec | app/routers/optimize.py:406-415 | the loop that skips missing answers returns, in index order, exactly the answers there are, each at the index it came from |
| Common.KeptComplete | app/routers/optimize.py:406-415 | no index that has an answer is skipped |
| Common.KeptSplit | app/routers/optimize.py:187-221 | two tests that split every index between them keep n indices between them |
| Common.CompactSpec | app/routers/optimize.py:126 | the filtering comprehension keeps the non-empty images in input order, once each: its k-th element is the image of the k-th input whose image is non-empty |
| Common.CompactMultiset | app/routers/optimize.py:126 | as a multiset, its result is the images with every empty one removed |
| Text.StripSpec | app/routers/optimize.py:126 | `strip` removes only whitespace and only at the ends: the result occurs in the input, and it is empty exactly when the input is all whitespace |
| Text.WordsOfJoin | app/routers/optimize.py:59 | splitting a space-joined list of words gives the same words back |
| Text.NatToStringRoundTrip | app/services/routing.py:70 | a number printed in decimal reads back as the same number |
| Dedup.NormalizeForDedup | app/routers/optimize.py:47-59 | the key has no comma, no full stop, no upper-case letter and no combining mark, and is single-spaced with no space at either end |
| Dedup.NormalizeIdempotent | app/routers/optimize.py:47-59 | normalising a key again gives the same key |
| Dedup.KeyIgnoresCaseAccentsAndSeparators | app/routers/optimize.py:48-58 | two addresses that differ only in letter case, accents, or a `,`/`.`/space at the same position get the same key |
| Dedup.KeyIgnoresCaseAccentsAndSpacing | app/routers/optimize.py:48-59 | two texts "a p b" and "a' q b'" get the same key when a, a' and b, b' differ only in case, accents or `,`/`.` and p, q are runs of spaces of any lengths: the shape of the documented 'Calle Gaitán 1' against 'calle gaitan  1' |
| Dedup.KeyIgnoresCombiningMark | app/routers/optimize.py:55-56 | a decomposed accent mark does not change the key |
| Dedup.KeyIgnoresSpacing | app/routers/optimize.py:58-59 | a run of spaces of any length separates words alike |
| Dedup.GroupRowsIsGrouping | app/routers/optimize.py:77-88 | the grouping loop gives groups with distinct keys, in first-seen order, covering every row's key; each group has its first row's original text and every row's name in row order, and its count is the number of those names |
| Dedup.GroupRowsConservesRows | app/routers/optimize.py:79-88 | the group counts add up to the number of rows |
| Dedup.GroupRowsLength | app/routers/optimize.py:77-88 | there are never more groups than rows |
| Dedup.GroupRowsFirstOccurrences | app/routers/optimize.py:77-88 | group i belongs to the i-th row that is the first of its key |
| Dedup.GroupRowsReference | app/routers/optimize.py:77-104 | against an independent reference, group i has the text of the i-th first occurrence, the names of all rows with its key, and that many packages |
| Dedup.FirstOccurrencesAreFirst | app/routers/optimize.py:81 | each listed row is the first with its key |
| Dedup.FirstOccurrencesComplete | app/routers/optimize.py:81 | every row that is the first with its key is listed |
| Dedup.PrimaryName | app/routers/optimize.py:99 | the primary name is "" exactly when all names are empty; otherwise it is the first non-empty name |
| Dedup.GroupDuplicateAddresses | app/routers/optimize.py:62-104 | four lists of equal length, no longer than the zipped rows; the counts add up to the rows, each name list is as long as its count, and each primary name is that list's first non-empty name |
| Dedup.GroupDuplicateAddressesSpec | app/routers/optimize.py:62-104 | entry i of the four lists is made from the i-th first occurrence of a key among the zipped rows |
| Dedup.GroupingScenario | app/routers/optimize.py:62-104 | two rows with one address and a third with another give two stops: names ["Ana", ""] with 2 packages and primary name "Ana", then ["Luis"] with 1 |
| Cleaning.AddTownSuffixes | app/services/geocoding.py:201-207 | the result begins with the input and names both the town and the province; it equals the input exactly when both were already named |
| Cleaning.AddTownSuffixesIdempotent | app/services/geocoding.py:201-207 | the suffixes are added at most once |
| Cleaning.AddTownSuffixesAppendsMissing | app/services/geocoding.py:201-207 | the appended text names the town exactly when the input did not, names the province exactly when the input did not, and is ", Posadas", ", Córdoba, España", both in that order, or nothing |
| Cleaning.CleanAddress | app/services/geocoding.py:69-208 | blank input gives ""; any other input gives a text that names the town and the province and begins with the rewritten, stripped input |
| Cleaning.FirstMatch | app/services/geocoding.py:212-214 | the leftmost position whose suffix matches an end-anchored pattern, and no earlier position matches |
| Cleaning.PosadasTailIff | app/services/geocoding.py:212 | the town-suffix matcher accepts exactly a comma, optional spaces, "posadas" in any case, and one line to the end |
| Cleaning.NumberTailComplete | app/services/geocoding.py:213 | every text shaped like spaces, a house number, optional spaces and letter, and trailing spaces is matched, and the number is captured |
| Cleaning.NumberTailSound | app/services/geocoding.py:213 | whatever the house-number matcher accepts has that shape, with the captured number between the cut points |
| Cleaning.SinNumeroTailIff | app/services/geocoding.py:214 | the "s/n" matcher accepts exactly spaces, "s/n" in any case and trailing spaces |
| Cleaning.ExtractStreetOnly | app/services/geocoding.py:210-215 | the extracted street has no whitespace at either end |
| Cleaning.SimplifyForSearch | app/services/geocoding.py:218-223 | the street plus ", Posadas, Córdoba, España" when the street is non-empty, else the input unchanged |
| Cleaning.StreetWithNumber | app/services/geocoding.py:330-335 | strategy 2's street begins with the extracted street |
| Cleaning.ExtractFromCleaned | app/services/geocoding.py:210-223 | on "<street> <number>, Posadas, Córdoba, España" the street is recovered, strategy 2 sends "<street> <number>", and the simplified query is the street with the town |
| Geocoding.Ask | app/services/geocoding.py:246-257 | a provider hit is kept exactly when it lies within 0.15 degrees of the town centre in both latitude and longitude |
| Geocoding.ShortQuery | app/services/geocoding.py:366-369 | strategy 5 asks, as free text, "Calle " followed by the last two words (more than two words) or the last word |
| Geocoding.Strategies | app/services/geocoding.py:320-374 | three to five queries, free-form cleaned text first and the structured street second |
| Geocoding.FirstAnswerSpec | app/services/geocoding.py:320-379 | the reference asks a prefix of the queries; every query but the last asked had no answer, and the result is the last one's answer, or None when all were asked without answer |
| Geocoding.CascadeIsFirstAnswer | app/services/geocoding.py:320-379 | the five guarded strategies give exactly the first answer among the strategies' queries, and ask exactly the queries the reference asks |
| Geocoding.MissIsFirstAnswer | app/services/geocoding.py:317-379 | an address that misses both maps gets the first strategy answer for its cleaned text |
| Geocoding.Resolve | app/services/geocoding.py:305-379 | every path records the answer under the key, touches no other key and no override; a cache hit, a memoised None included, returns the stored value with no query; an override is returned with no query; otherwise the miss path answers |
| Geocoding.Geocode | app/services/geocoding.py:294-379 | the same, keyed by the stripped, lower-cased address |
| Geocoding.GeocodeTwice | app/services/geocoding.py:305-307 | a second lookup of an address answers the same from the cache, with no query and no state change, whatever the service does |
| Geocoding.GeocodeValid | app/services/geocoding.py:294-379 | a lookup keeps the invariant: cached override keys hold the override, and every other cached coordinate lies in the window |
| Geocoding.OverrideWins | app/services/geocoding.py:305-315 | in a valid state an address with an override always gets the override's coordinate with no query |
| Geocoding.AddOverride | app/services/geocoding.py:52-58 | the override and the cache both get the coordinate under the address key, with the stripped original text; no other key changes |
| Geocoding.AddOverrideValid | app/services/geocoding.py:52-58 | recording an override keeps the invariant |
| Geocoding.AddOverrideThenGeocode | app/services/geocoding.py:52-58 | right after an override, any text with the same key gets its coordinate with no query |
| Geocoding.ClearCache | app/services/geocoding.py:396-398 | the cache is emptied and the overrides stay |
| Geocoding.ClearCacheForgets | app/services/geocoding.py:396-398 | after clearing, an address without override takes the miss path again |
| Geocoding.BatchAnswers | app/services/geocoding.py:382-393 | one (address, answer) pair per input, in input order, each answer being what the cache then holds for that address |
| Geocoding.BatchValid | app/services/geocoding.py:382-393 | a batch keeps the invariant |
| Geocoding.GeocodeBatch | app/services/geocoding.py:382-393 | the loop computes the sequential reference; as written it pauses zero times, because every lookup has just cached its key |
| Geocoding.ThrottledBatch | app/services/geocoding.py:382-393 | with the test made before the lookup, the loop pauses once for each address but the last that was not yet cached |
| Geocoding.FreshBeforeLast | app/services/geocoding.py:391 | two addresses whose first is not cached need one pause, which the loop as written never makes |
| Routing.Translate | app/services/routing.py:35-44 | a direction in the table becomes its Spanish text; an unknown direction passes through unchanged |
| Routing.StepText | app/services/routing.py:47-63 | the instruction text is never empty and has no whitespace at either end |
| Routing.StepTextNamed | app/services/routing.py:61-63 | a step on a named street ends with "por <name>" |
| Routing.StepTextOfTable | app/services/routing.py:49-50 | a table maneuver on an unnamed street reads as its translation, or "Continuar" when that is empty |
| Routing.NotificationFallsBack | app/services/routing.py:32 | "notification" on an unnamed street reads "Continuar" |
| Routing.StepTextTurn | app/services/routing.py:51-52 | a turn on an unnamed street reads "Girar " and the translated direction |
| Routing.StepTextEndOfRoad | app/services/routing.py:53-54 | the end of a road on an unnamed street reads "Final de calle, girar " and the translated direction |
| Routing.StepTextFork | app/services/routing.py:55-56 | a fork on an unnamed street reads "Desvío " and the translated direction |
| Routing.CeilMinutes | app/services/routing.py:68 | the minutes are the seconds divided by 60, rounded up |
| Routing.FormatDurationReadsBack | app/services/routing.py:66-75 | the duration label ("N min", "H h" or "H h M min") reads back as the rounded-up number of minutes, and the reader accepts only the form the source picks: "N min" below an hour, "H h" on a whole hour, "H h M min" otherwise with 1 ≤ M ≤ 59 |
| Routing.DurationLabelUnique | app/services/routing.py:69-75 | two labels that read back as the same minutes are the same words, so the round trip fixes the form: 5400 s can only be "1 h 30 min", never "90 min" |
| Routing.DurationLabelWords | app/services/routing.py:69-75 | a label that reads back as m minutes is "m min" when m < 60, "m/60 h" when m is a whole number of hours, and "m/60 h m%60 min" otherwise |
| Text.NumeralReadsBack | app/services/routing.py:70 | a run of digits without a leading zero is the decimal text of its own value, so each number in a label has one spelling |
| Routing.KmTenths | app/services/routing.py:82 | the kilometers are rounded to the nearest tenth |
| Routing.FormatDistanceReadsBack | app/services/routing.py:78-82 | below 1000 m the label reads back as the exact meters; otherwise as the kilometers rounded to one decimal |
| Routing.CeilDiv | app/services/routing.py:130 | k·c covers n, and by less than k |
| Routing.BuildPayload | app/services/routing.py:110-144 | no request with fewer than two coordinates; otherwise k vehicles starting at the origin as [lon, lat], one job per other coordinate with id i and location [lon, lat], and capacity and amount 1 exactly when k > 1 |
| Routing.CeilDivUnique | app/services/routing.py:130 | ceil(n/k) is the only capacity that covers every job by less than one vehicle's worth |
| Routing.CapacityBalanced | app/services/routing.py:126-131 | with several vehicles each one's capacity is the even share rounded up, and together they can take every job |
| Routing.WalkSpec | app/services/routing.py:207-216 | one entry per job step, with that step's id and the sums of the job steps' distances and durations up to and including it |
| Routing.WalkNonDecreasing | app/services/routing.py:207-216 | arrival distances never decrease along the route |
| Routing.ReadRouteSpec | app/services/routing.py:198-225 | the visiting order is the origin followed by the ids of the job steps, in step order |
| Routing.ReadReply | app/services/routing.py:163-198 | no answer or a non-zero code gives None; several vehicles give every route; one vehicle gives the first route, or None when there is none |
| Routing.OptimizeRoute | app/services/routing.py:89-229 | fewer than two coordinates give None without asking the solver; otherwise the solver's answer to the request, read as above |
| Routing.Instruct | app/services/routing.py:276-290 | the instruction's text is the step text of the step's maneuver type, direction and street name, so never empty; it has the step's distance, and a location exactly when the maneuver's location holds at least two numbers, read as [lon, lat] |
| Routing.RouteInstructionsSpec | app/services/routing.py:273-293 | the instructions are exactly those of the steps, across legs in order, that cover some distance or are the arrival |
| Routing.GetRouteDetails | app/services/routing.py:236-300 | None with fewer than two coordinates or without an "Ok" answer with a route; otherwise the filtered instructions of the first route and its totals |
| Layout.ShortAddress | app/routers/optimize.py:310 | short addresses are kept; a longer one is cut to its first 30 characters followed by "…" |
| Layout.NonEmptyNamesSpec | app/routers/optimize.py:321 | the non-empty names are kept in their order, each once: the k-th kept is the k-th non-empty name, and as a multiset the result is the names less the empty ones |
| Layout.ArrivalAtOwn | app/routers/optimize.py:275-277 | a stop whose index has a single detail arrives at that detail's distance |
| Layout.SingleRoute | app/routers/optimize.py:290-381 | one stop per routed point and per unplaced address; the totals count them all and carry the packages |
| Layout.SingleLayout | app/routers/optimize.py:290-354 | each stop's order is its position; the origin comes first with its label, no packages, no distance and no names; routed stops keep their positions; unplaced addresses follow, failed, at the town centre with distance 0 |
| Layout.SingleLabels | app/routers/optimize.py:305-311 | with one vehicle a delivery shows its client's name, or its address cut to 30 characters; an unplaced address has the warning sign instead of the pin |
| Layout.MultiLabels | app/routers/optimize.py:432-436 | with several vehicles a delivery shows its client's name, or "Parada <position>" |
| Layout.MultiRoute | app/routers/optimize.py:417-513 | the unplaced addresses are appended on route 0 only, after the routed stops; each stop's order is its position |
| Layout.MultiRouteTotals | app/routers/optimize.py:440-484 | a route's stop count is the number of deliveries in its list and its package count their sum, the unplaced addresses of route 0 included |
| Layout.RouteFor | app/routers/optimize.py:406-415 | a solver route appears exactly when its details can be had, tagged with its index |
| Layout.MultiRoutesSpec | app/routers/optimize.py:406-518 | the answered routes are exactly the solver's routes whose details could be had, in the solver's order |
| Layout.FailedOnlyOnFirst | app/routers/optimize.py:457-458 | an unplaced address appears only on route 0 |
| Layout.FailedLostWithFirst | app/routers/optimize.py:413-415 | when route 0's details cannot be had, the unplaced addresses appear on no route |
| Optimize.Status | app/routers/optimize.py:127-287 | intake, origin and nothing-placed refusals are 400, solver and details failures are 503 |
| Optimize.NonBlank | app/routers/optimize.py:126 | every kept address is non-empty and stripped, and there are no more than the input rows |
| Optimize.NonBlankSpec | app/routers/optimize.py:126 | the k-th kept address is the stripped text of the k-th non-blank row, so rows keep their order and are kept once each; there are as many as non-blank rows, as a multiset they are the stripped rows less the blank ones, and nothing is kept exactly when every row is blank |
| Optimize.PadNames | app/routers/optimize.py:133-138 | one name per address: the given name stripped, or "" past the end of the given list |
| Optimize.Admit | app/routers/optimize.py:126-138 | an empty list after dropping blank rows is refused, and so is one longer than 200; otherwise the addresses are admitted with their names |
| Optimize.Origin | app/routers/optimize.py:140 | the given start address when it is non-empty; the default START_ADDRESS when it is missing or empty |
| Optimize.PreGroupedBypass | app/routers/optimize.py:144-158 | with the caller's counts the addresses, names and counts pass through; each stop's name list is the caller's when that list is given with one entry per address, and otherwise its own name alone, or empty when that name is "" |
| Optimize.GroupingConservesRows | app/routers/optimize.py:165-169 | without them the counts add up to the addresses |
| Optimize.DedupMapSpec | app/routers/optimize.py:200-204 | a key is in the map exactly when some row with it has a usable pair, and it maps to the pair of the first such row |
| Optimize.PlaceStops | app/routers/optimize.py:187-221 | one optional position per unique stop |
| Optimize.PlaceStopsValid | app/routers/optimize.py:187-221 | placing the stops keeps the geocoder's invariant |
| Optimize.Partition | app/routers/optimize.py:220-221 | the placed and unplaced indices split 0..M-1 between them, each in increasing order |
| Optimize.Place | app/routers/optimize.py:223-381 | nothing placed is refused, and only that; a one-vehicle answer counts every unique stop and all their packages |
| Optimize.Optimize | app/routers/optimize.py:123-381 | a refused intake leaves the geocoder untouched; an admitted one goes on to grouping and placing |
| Optimize.OptimizeTotals | app/routers/optimize.py:160-169 | a one-vehicle answer counts every unique stop and their packages; without the caller's grouping that is one package per non-blank row |
| Optimize.OptimizeValid | app/routers/optimize.py:123-381 | the handler keeps the geocoder's invariant |
| Validation.FullAddressAppends | app/routers/validation.py:77-84 | the trimmed street alone exactly when the town is blank or already appears in it, ignoring case; otherwise "street, town" with both trimmed |
| Validation.FullAddressMentionsCity | app/routers/validation.py:77-84 | a non-blank town always appears in the full address, ignoring case |
| Validation.GroupPositions | app/routers/validation.py:119-125 | one position per group, in group order: what `geocode` answered for the group's address, looked up one group after the other, which is what the geocoder's cache then holds under its key |
| Validation.ValidationStart | app/routers/validation.py:92-149 | the response is the split of the groups made from the rows by the positions `geocode` answered for their addresses, one group after the other, with total_packages the number of rows and unique_addresses the number of groups; the geocoder afterwards is the one the last lookup leaves |
| Validation.ValidationStartValid | app/routers/validation.py:119-142 | validation keeps the geocoder's invariant |
| Validation.RespondSplit | app/routers/validation.py:119-142 | each group lands in exactly one list, both lists keep group order, and a placed group carries its first non-empty name, all its names and as many packages as names |
| Validation.ValidationTotals | app/routers/validation.py:100-148 | total_packages is the number of rows and the sum of both lists' packages; unique_addresses is the number of distinct keys and the length of both lists together |
| Validation.ValidationGroups | app/routers/validation.py:103-113 | group i has the full address of the first row with its key and every row's client, in row order |

## Left out

- Timing: the `time.sleep` pauses, `perf_counter` and `computing_time_ms`. A pause is modelled only as a count in `Geocoding.GeocodeBatch` and `Geocoding.ThrottledBatch`.
- Override persistence: `_load_overrides` and `_save_overrides` read and write a JSON file. The model keeps only the in-memory maps; `Geocoding.Initial` is the state after loading.
- Network calls to the search service, VROOM and OSRM are parameters. Timeouts, HTTP status errors and exceptions are the `None` answer.
- The regular-expression rewrites of `clean_address` (encoding fixes, abbreviations, noise, floors and doors) are the uninterpreted `rewrite` parameter. Only the blank-input guard, the final strip and the town/province suffixes are modelled.
- Unicode: NFD decomposition and category Mn are modelled over Latin-1 letters and the combining-mark block; `str.lower` is modelled over ASCII and Latin-1.
- Floating point: coordinates, distances and durations are integers. A distance is rounded to a whole meter by the caller.
- Routing.KmTenths: works on exact tenths and rounds halves up. The source divides into a binary double first, so when the meters end in 50 (m ≡ 50 mod 100) the printed tenth depends on whether the stored quotient lies just below or just above the half: 1150 m prints "1.1 km" there and "1.2 km" here. No other whole number of meters can differ.
- Geometry: GeoJSON is passed through by the code and is not modelled.
- The CSV upload endpoint (`optimize_csv`), `app/main.py`, `excel_a_csv.py` and `test_validation_flow.py` are not part of this model. They are HTTP plumbing, ingestion and benchmark scripts.
- A `null` entry of `coords` is modelled as an empty list. Both are rejected by the same length test.
- `num_vehicles` is a natural number. A negative count would give an empty vehicle list in the source.
- Optimize.PlaceStops: its contract states only the length of the result. The placement of each of its three branches is stated by `Optimize.DedupMapSpec`, `Geocoding.BatchAnswers` and the branch definitions.
- Optimize.Optimize: its contract states the intake step only; the later steps are stated by `Optimize.Place`, `Optimize.OptimizeTotals` and `Optimize.OptimizeValid`.
- Layout.SingleRoute: the stop list itself is stated by `Layout.SingleLayout` and `Layout.SingleLabels`.
- Routing.StepText: the text of a type outside the table and other than "turn", "end of road" and "fork" (underscores to spaces, capitalised, then the direction) is defined but only its non-emptiness is stated.
- Cleaning.ExtractStreetOnly: its contract states only that the street is stripped. Each of the three cuts is stated by its own matcher (`Cleaning.PosadasTailIff`, `Cleaning.NumberTailSound`, `Cleaning.SinNumeroTailIff`) and by `Cleaning.FirstMatch`; the composed result is stated only for the shape "<street> <number>, Posadas, …" by `Cleaning.ExtractFromCleaned`.
- Geocoding.AddOverride: models the call that completes. In the source `_save_overrides()` runs between the two writes (app/services/geocoding.py:55-58); if saving raises, the override is recorded but the cache keeps its old entry for the key, and a later `geocode` of that key may answer the old cached value. Disk failures are not modelled.
- Cleaning.PosadasTailIff, Cleaning.NumberTailComplete, Cleaning.NumberTailSound, Cleaning.SinNumeroTailIff: the matchers are exact over ASCII digits and letters only. Python's `\d` also matches other Unicode decimal digits, and IGNORECASE also matches 'ſ' (long s) against "s" and the Kelvin sign against "k"; those inputs are outside the model.
- Cleaning.StreetWithNumber: states that the street comes first; the number is stated only for the shape "<street> <number>, Posadas, …" by `Cleaning.ExtractFromCleaned`.

## Findings

| source | as written | input that shows it | evidently intended | confidence | as-written member | corrected member |
|---|---|---|---|---|---|---|
| app/services/geocoding.py:389-392 | the pause between addresses is decided after `geocode(addr)`, which has always just stored the address key in the cache, so the test `not in _cache` is never true and the batch never pauses | two addresses whose first is not cached: one lookup goes to the search service and no pause follows it | pause after each address but the last that was not already cached, so the search service is not queried faster than its rate limit | not executed | Geocoding.GeocodeBatch | Geocoding.ThrottledBatch |
