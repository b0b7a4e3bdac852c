# Academic map submission processing, modelled in Dafny

The business-history map keeps its data in one JSON array. Each element is
an *individual* (a named academic who agreed to be shown), a *city* or a
*country* (aggregate markers with a `count`). `scripts/process_submission.py`
takes one consent-form submission and reconciles it into that array:

- it builds the full name and parses the free-text "City and Country" answer;
- it reads the consent answer as one of four actions: count anonymously,
  show with full details, remove from the map, or remove from map and directory;
- it applies the action. A person is looked up by name, ignoring case and
  surrounding blanks. Their record is inserted, replaced or deleted, and the
  aggregate counts at the affected "City, Country" locations move by +1 or -1.

This project models that reconciliation as pure functions over a
`seq<Record>` and proves properties of it:

- four dataset invariants are preserved: no negative count, one individual
  per name key, one city per location, one country per name (a fifth, that
  every individual's city count includes them, does not hold in the code;
  see below);
- every lookup is a first match;
- an aggregate update touches only the first matching city and the first
  matching country, and it adds at most one city;
- on a map with no negative count, a +1 followed by a -1 gives the counts
  back;
- submitting the same visible details twice moves no count the second time,
  and leaves the record unchanged when the geocoder answers the same;
- adding a newcomer to a map with no negative count and withdrawing them
  gives the dataset back, apart from a city record left at count 0;
- the parser reads back the "City, Country" and "City Country" forms;
- the keyword rules of the consent answer are a first-match table.

Modules, one per file:

| module | file | contents |
|---|---|---|
| `Wrappers` | `wrappers.dfy` | `Option`, `Result` |
| `Text` | `text.dfy` | ASCII `lower`, Python whitespace `strip`, first/last index of a character, substring search |
| `Records` | `records.dfy` | the record datatype, first-match lookups, individual counting, the dataset invariant |
| `Aggregates` | `aggregates.dfy` | `update_aggregate_counts` and its lemmas |
| `Reconcile` | `reconcile.dfy` | `get_or_create_city_entry`, `add_individual_visible`, `add_anonymous`, `remove_from_map` and their lemmas |
| `Intake` | `intake.dfy` | `parse_city_country`, `determine_action`, name and affiliation composition, the validation and dispatch of `main` |
| `Scenarios` | `scenarios.dfy` | worked examples: the two answer forms the parser's docstring names, one person joining an empty map and leaving again, a person stored with no city |

The geocoder is a parameter: a total function from `(city, country)` to
optional coordinates. So it is deterministic in the model. Python's
`if lat and lon` becomes `Usable`: a result with both coordinates non-zero.

Where the code does not do what one might expect, the model follows the code:

- No country record is ever created. One might expect a person joining an
  empty map to give three records: the person, their city and their country.
  When no country matches, the code only prints a warning (lines 258-261).
  So Jane Doe joining an empty map gives two records, her own and Boston's
  (`Scenarios.JaneDoeJoins`). Withdrawing her then leaves one record, Boston
  at count 0 (`Scenarios.JaneDoeLeaves`).
- A person on the map is not always counted by a city record at their
  location. When the geocoder fails or gives a zero coordinate, no city is
  created (lines 236-238). The person's record is still stored, at (0, 0)
  or at the geocoder's answer (lines 98-102 and 148).
  `Scenarios.UngeocodedPersonHasNoCity` shows it: with a geocoder that
  always fails, an empty map gets the person and no city. So the model's
  dataset invariant leaves out "every individual's city count includes
  them": the code does not keep it.
- Without a comma, `parse_city_country` splits on the last literal space
  character (`rsplit(" ", 1)`). One might expect any whitespace to separate
  city from country, but a tab does not. One might also expect surrounding
  blanks not to matter, but an answer with a trailing space, such as
  "Boston USA ", splits at that space into ("Boston USA", ""), so an add
  aborts with "location required" (`Intake.ParseTrailingSpace`).
- The "remove from map only" action carries a comment saying it needs no map
  change. The code still calls `remove_from_map` (line 409), so both removal
  actions do the same thing in the model.

## Model

| member | source | states |
|---|---|---|
| Records.FindIndividualByName | scripts/process_submission.py:75-82 | The index returned holds an individual whose lower-cased, stripped name equals the lower-cased, stripped query. No earlier record matches. `None` exactly when no individual matches. |
| Records.FoundIndividualIsOnly | scripts/process_submission.py:75-82 | In a dataset with unique name keys, the record found is the only one with that name. |
| Aggregates.SplitLocation | scripts/process_submission.py:217-222 | No split exactly when the location has no comma. Otherwise the city is the stripped text before the first comma, and the country is the stripped text after the last comma. |
| Aggregates.Adjust | scripts/process_submission.py:230 | The new count is `max(0, count + delta)`: never negative, and either 0 or `count + delta`. Location and coordinates are unchanged. |
| Aggregates.UpdateAggregateCounts | scripts/process_submission.py:208-263 | Without a comma nothing changes. Otherwise only the first city matching "city, country" and the first country matching the country change, both to `max(0, count + delta)`. One record is appended exactly when delta > 0, no city matched and the geocoder gave two non-zero coordinates. That record is a city with count 1 at those coordinates. |
| Aggregates.UpdateKeepsWellFormed | scripts/process_submission.py:208-263 | An aggregate update preserves the dataset invariant: no negative count, unique names, unique city locations, unique country names. |
| Aggregates.UpdateKeepsIndividuals | scripts/process_submission.py:228-256 | An aggregate update never touches an individual record and never adds one. |
| Aggregates.UpdateIgnoresGeocoderUnlessAdding | scripts/process_submission.py:236-237 | A zero or negative change never consults the geocoder: any two geocoders give the same result. |
| Aggregates.UpdateUpThenDown | scripts/process_submission.py:208-263 | A +1 then a -1 at the same location restores every record that was there (counts were non-negative). A city created by the +1 stays, at count 0. |
| Aggregates.UpdateIgnoresTrailingIndividual | scripts/process_submission.py:228-256 | An individual record at the end of the dataset does not affect the update: updating and then deleting it equals updating without it. |
| Aggregates.CityKeyOfComposed | scripts/process_submission.py:217-224 | The city key the update rebuilds from a composed "city, country" is never longer than that location. It is exactly as long only when the split gives back the city and country it was composed of. |
| Reconcile.SplitComposedLocation | scripts/process_submission.py:217-224 | A location composed as "city, country" from comma-free, trimmed parts is split back into exactly those parts. |
| Reconcile.GetOrCreateCityEntry | scripts/process_submission.py:85-104 | If a city with the location exists (ignoring case), the coordinates come from the first matching city record. Otherwise they are the geocoder's result, or (0, 0) when it fails. |
| Reconcile.AddIndividualVisible | scripts/process_submission.py:107-153 | Afterwards the person is found with count 1, location "city, country", stripped name, stripped "title, affiliation" (or affiliation), stripped interests and the chosen coordinates. A known person keeps their position and a newcomer is appended. Same location: only their record changes. Changed location: -1 at the old location, then +1 at the new one. Newcomer: +1 at the location. |
| Reconcile.NewcomerRecord | scripts/process_submission.py:124-148 | A newcomer's record is the one built from the submitted details, placed right after the existing records. |
| Reconcile.AddAnonymous | scripts/process_submission.py:156-181 | No individual is ever created. A known person's record is deleted. Same location: that is the only change. Moved: -1 at the old location, +1 at the new one. New person: only +1 at the location. |
| Reconcile.RemoveFromMap | scripts/process_submission.py:184-205 | Nobody of that name: nothing changes. Otherwise exactly the first matching record is deleted, the number of individuals drops by one, and the old location gets -1. |
| Reconcile.AddVisibleKeepsWellFormed | scripts/process_submission.py:107-153 | Showing a person preserves the dataset invariant. |
| Reconcile.AddAnonymousKeepsWellFormed | scripts/process_submission.py:156-181 | Counting a person anonymously preserves the invariant and leaves nobody of that name on the map. |
| Reconcile.RemoveFromMapKeepsWellFormed | scripts/process_submission.py:184-205 | Removal preserves the invariant and leaves nobody of that name on the map. |
| Reconcile.AddVisibleKeepsCoords | scripts/process_submission.py:92-104 | For any city and country, after a visible submission the coordinates chosen for its own "city, country" are the same as before it. A city the +1 creates under that location carries the coordinates the geocoder gave (lines 236-247). A city filed under a differently split key is not a match. |
| Reconcile.AddVisibleIdempotent | scripts/process_submission.py:135-144 | For any city and country, submitting the same visible details a second time leaves the dataset exactly as the first submission left it. The second run's geocoder may differ, provided it answers the same for that city and country. |
| Reconcile.AddVisibleRepeatKeepsAggregates | scripts/process_submission.py:135-144 | For any city and country, and whatever the two runs' geocoders answer, a repeated visible submission rewrites only the person's own record. No count moves the second time. |
| Reconcile.WithdrawNewcomer | scripts/process_submission.py:145-205 | On a dataset with no negative count, removing a newcomer right after adding them gives the dataset back, except for a city record created for them, left at count 0. A negative count would not come back: the clamp to 0 at line 230 loses it. |
| Intake.ParseCityCountry | scripts/process_submission.py:307-320 | Both parts are trimmed. With a comma, they are the two sides of the first comma. Without a comma but with a space, they are the two sides of the last space. With neither, the whole stripped text is the city and the country is empty. |
| Intake.ParsedCityHasNoComma | scripts/process_submission.py:312-320 | The parsed city never contains a comma. Neither does the country when the answer had no comma. |
| Intake.ParseCommaForm | scripts/process_submission.py:312-314 | "city, country" is read back as (city, country) for a comma-free trimmed city and a trimmed country, which may itself contain commas. |
| Intake.ParseSpaceForm | scripts/process_submission.py:316-319 | "city country" without commas is read back with the last word as the country, and the city keeps its inner spaces. |
| Intake.ParseTrailingSpace | scripts/process_submission.py:315-318 | A comma-free trimmed city followed by one space is read as that whole city with an empty country. |
| Intake.DetermineAction | scripts/process_submission.py:323-340 | Anonymous exactly when the lower-cased answer contains "anonymously" or "count only". Remove-all and remove-map exactly under their keyword conditions, after the earlier tests failed. Visible otherwise. |
| Intake.DetermineActionFollowsTable | scripts/process_submission.py:327-340 | The chain of tests equals the first firing rule of the keyword table, with a visible entry as the fallback. |
| Intake.FullName | scripts/process_submission.py:352-354 | The name is the stripped first name and surname joined by one space, or just the non-empty one. It is empty exactly when both parts are blank. |
| Intake.ComposeAffiliation | scripts/process_submission.py:388-393 | Empty exactly when both inputs are empty. With both present it is the department, then ", ", then the affiliation; otherwise it is whichever one is present. |
| Intake.ProcessSubmission | scripts/process_submission.py:343-413 | The run aborts with "name required" exactly when both name parts are blank. It aborts with "location required" exactly when an add action lacks a city or country. Otherwise a visible entry is added with the parsed city and country and the composed affiliation, and an anonymous count is taken with the parsed city and country. Both removal actions do the same removal. |
| Intake.ProcessSubmissionOutcome | scripts/process_submission.py:374-413 | A successful run preserves the dataset invariant. Afterwards the person is on the map exactly when the action was a visible entry. |
| Scenarios.ParseBoston | scripts/process_submission.py:307-320 | "Boston, USA" and "Boston USA", the two forms the docstring names, both parse to ("Boston", "USA"). |
| Scenarios.AddVisibleToEmpty | scripts/process_submission.py:107-153 | For any city and country, on an empty map a visible entry gives the person, then at most one city with count 1. That city is filed under the key the update splits out of "city, country", at the geocoder's coordinates for those parts, and only when they are usable. No country record is made. |
| Scenarios.UngeocodedPersonHasNoCity | scripts/process_submission.py:98-102 | With a geocoder that always fails, a visible entry on an empty map stores the person at "city, country" and no city record, so no city counts them. |
| Scenarios.JaneDoeJoins | scripts/process_submission.py:107-153 | Jane Doe (Dr., MIT) in Boston, USA, geocoded to (42.36, -71.06), on an empty map: her record and Boston's city record with count 1. |
| Scenarios.JaneDoeLeaves | scripts/process_submission.py:184-205 | Withdrawing her leaves only Boston's city record, at count 0. |

## Left out

- `geocode_location` (lines 25-59) makes an HTTP request to a geocoding
  service. It is a parameter of the model, a total and therefore
  deterministic function. Time-outs, rate limits and the request format are
  not modelled.
- `load_data` and `save_data` (lines 62-72) read and write the JSON file.
  The model takes the dataset as a value, and a `Failure` result stands for
  "the file is not written".
- `get_submission_data` (lines 266-304) reads environment variables and the
  dispatch payload. The model starts from an extracted `Submission`. The
  unused `email` field, the `option2` default of the manual trigger, and the
  empty submission returned on a malformed payload are not modelled. That
  empty submission aborts with "name required" in the model as it does in the code.
- Logging with `print` is left out.
- Coordinates are reals, not floats. NaN, infinities and rounding are not
  modelled. Only "is it zero" matters anywhere in the code.
- `str.lower` and `str.strip` are modelled for ASCII letters and the ASCII
  whitespace Python strips. Non-ASCII case mappings and Unicode whitespace
  are left out.
- Records always carry every field. The `.get(key, default)` fallbacks for
  missing keys and JSON `null` values are not modelled. A record of an
  unknown `type` is `Other`, and every lookup skips it.
- Reconcile.GetOrCreateCityEntry: returns only the coordinates, because the
  source returns the dataset unchanged next to them.
- Reconcile.AddVisibleIdempotent: needs the second run's geocoder to answer
  the same for the city and country. The real geocoder is a network call. If
  the first lookup failed or gave a zero coordinate, no city was created, so
  the second run geocodes again and may store different coordinates.
  Reconcile.AddVisibleRepeatKeepsAggregates states what holds for any two
  geocoders: no count moves.
- Within one run the geocoder is one function. The lookup for the person's
  coordinates (line 98) and the lookup for a new city (line 237) are separate
  requests in the code and could disagree. In the model they give the same
  answer for the same city and country.
- In-place mutation of the Python list is modelled as returning a new
  sequence. No caller can observe the aliasing.
