/**
 The three consent actions that change the map dataset: showing a person
 with full details, counting them anonymously, and taking them off the map.
 Each is a name lookup followed by an insert, a replacement or a deletion
 and the matching +1/-1 aggregate updates.
 */
module Reconcile {
  import opened Wrappers
  import opened Text
  import opened Records
  import opened Aggregates

  /** A location the actions compose is read back by the aggregate update as
      the same city and country when neither has a comma or surrounding blanks. */
  lemma SplitComposedLocation(city: string, country: string)
    requires ',' !in city && ',' !in country && Trimmed(city) && Trimmed(country)
    ensures SplitLocation(LocationOf(city, country)) == Some(Place(city, country))
  {
    SplitComposedText(city, country);
    StripTrimmed(city);
    StripAfterBlank(country);
  }

  /** "City, Country" with comma-free parts splits right after the city. */
  lemma SplitComposedText(city: string, country: string)
    requires ',' !in city && ',' !in country
    ensures SplitLocation(LocationOf(city, country)) == Some(Place(Strip(city), Strip(" " + country)))
  {
    ComposedLocationCommas(city, country);
    SplitAtSeparator(LocationOf(city, country), |city|);
    ComposedLocationPieces(city, country);
  }

  /** A location whose only comma is at `i` splits there. */
  lemma SplitAtSeparator(text: string, i: nat)
    requires IndexOf(text, ',') == Some(i) && LastIndexOf(text, ',') == Some(i)
    ensures SplitLocation(text) == Some(Place(Strip(text[..i]), Strip(text[i + 1..])))
  {
  }

  /** The aggregate update at a composed location, stated with the city and
      country it is composed of: which records it adjusts ... */
  lemma UpdateComposedAdjusts(d: Dataset, city: string, country: string, delta: int, geo: Geocoder)
    requires ',' !in city && ',' !in country && Trimmed(city) && Trimmed(country)
    ensures var location := LocationOf(city, country);
      var r := UpdateAggregateCounts(d, location, delta, geo);
      var ci := Find(d, CityAt(location));
      var ni := Find(d, CountryAt(country));
      && |d| <= |r| <= |d| + 1
      && (forall k :: 0 <= k < |d| ==>
            r[k] == (if ci == Some(k) || ni == Some(k) then Adjust(d[k], delta) else d[k]))
  {
    SplitComposedLocation(city, country);
    ComposedLocationCommas(city, country);
    assert CityKey(Place(city, country)) == LocationOf(city, country);
  }

  /** ... and when it adds a city, which one. */
  lemma UpdateComposedAdds(d: Dataset, city: string, country: string, delta: int, geo: Geocoder)
    requires ',' !in city && ',' !in country && Trimmed(city) && Trimmed(country)
    ensures var location := LocationOf(city, country);
      var r := UpdateAggregateCounts(d, location, delta, geo);
      var g := geo(city, country);
      && |d| <= |r| <= |d| + 1
      && (|r| == |d| + 1 <==> delta > 0 && Find(d, CityAt(location)).None? && Usable(g))
      && (|r| == |d| + 1 ==> r[|d|] == City(location, g.value.lat, g.value.lon, 1))
  {
    SplitComposedLocation(city, country);
    ComposedLocationCommas(city, country);
    assert CityKey(Place(city, country)) == LocationOf(city, country);
  }

  /** In "City, Country" with comma-free parts, the separator is both the
      first and the last comma. */
  lemma ComposedLocationCommas(city: string, country: string)
    requires ',' !in city && ',' !in country
    ensures IndexOf(LocationOf(city, country), ',') == Some(|city|)
    ensures LastIndexOf(LocationOf(city, country), ',') == Some(|city|)
  {
    var text := LocationOf(city, country);
    ComposedLocationPieces(city, country);
    var tail := text[|city| + 1..];
    assert forall k :: 0 <= k < |tail| ==> tail[k] == (if k == 0 then ' ' else country[k - 1]);
    IndexOfAt(text, ',', |city|);
    LastIndexOfAt(text, ',', |city|);
  }

  /** A geocoder that always fails. A negative update never consults the
      geocoder, so removal passes this one. */
  const Offline: Geocoder := (city, country) => None

  /** `get_or_create_city_entry`: coordinates for a person at
      "City, Country". The first city record with that location (ignoring
      case) supplies them; otherwise the geocoder does; otherwise (0, 0).
      The dataset itself is left as it is. */
  function GetOrCreateCityEntry(d: Dataset, city: string, country: string, geo: Geocoder): (c: Coords)
    ensures forall k :: 0 <= k < |d| && Matches(d[k], CityAt(LocationOf(city, country))) ==>
      exists j :: 0 <= j <= k && Matches(d[j], CityAt(LocationOf(city, country))) && c == Coords(d[j].lat, d[j].lon)
    ensures (forall k :: 0 <= k < |d| ==> !Matches(d[k], CityAt(LocationOf(city, country)))) ==>
      c == (if geo(city, country).Some? then geo(city, country).value else Coords(0.0, 0.0))
  {
    match Find(d, CityAt(LocationOf(city, country)))
    case Some(i) => Coords(d[i].lat, d[i].lon)
    case None =>
      match geo(city, country)
      case Some(g) => g
      case None => Coords(0.0, 0.0)
  }

  /** The affiliation shown for a person: "title, affiliation" when a title
      is given, the affiliation alone otherwise, stripped either way. */
  function DisplayedAffiliation(title: string, affiliation: string): string {
    Strip(if title != "" then title + ", " + affiliation else affiliation)
  }

  /** The record `add_individual_visible` stores (lines 124-133). */
  function VisibleEntry(name: string, title: string, affiliation: string, city: string,
                        country: string, interests: string, c: Coords): Record
  {
    Individual(LocationOf(city, country), c.lat, c.lon, 1, Strip(name),
               DisplayedAffiliation(title, affiliation), Strip(interests))
  }

  /** The stored name is stripped, so it is found under the same key. */
  lemma NameKeyOfStripped(name: string)
    ensures NameKey(Strip(name)) == NameKey(name)
  {
    StripLowerCommute(Strip(name));
    StripIdempotent(name);
    StripLowerCommute(name);
  }

  /** `add_individual_visible` */
  function AddIndividualVisible(d: Dataset, name: string, title: string, affiliation: string,
                                city: string, country: string, interests: string,
                                geo: Geocoder): (r: Dataset)
    // afterwards the person is found, carrying exactly the submitted details
    ensures FindIndividualByName(r, name).Some?
    ensures var e := r[FindIndividualByName(r, name).value];
      && e.Individual? && e.count == 1
      && e.location == LocationOf(city, country)
      && e.name == Strip(name)
      && e.interests == Strip(interests)
      && e.affiliation == (if title != "" then Strip(title + ", " + affiliation) else Strip(affiliation))
      && Coords(e.lat, e.lon) == GetOrCreateCityEntry(d, city, country, geo)
    // a known person keeps their position; a new one is appended right after the old records
    ensures FindIndividualByName(r, name) ==
      (if FindIndividualByName(d, name).Some? then FindIndividualByName(d, name) else Some(|d|))
    ensures CountIndividuals(r) == CountIndividuals(d) + (if FindIndividualByName(d, name).Some? then 0 else 1)
    // same location (ignoring case): replaced in place, nothing else changes
    ensures var found := FindIndividualByName(d, name);
      found.Some? && Lower(d[found.value].location) == Lower(LocationOf(city, country)) ==>
        |r| == |d| && r == d[found.value := r[found.value]]
    // changed location: -1 at the old location, then +1 at the new one
    ensures var found := FindIndividualByName(d, name);
      found.Some? && Lower(d[found.value].location) != Lower(LocationOf(city, country)) ==>
        r == UpdateAggregateCounts(UpdateAggregateCounts(d[found.value := r[found.value]],
                                                         d[found.value].location, -1, geo),
                                   LocationOf(city, country), 1, geo)
    // a new person: appended, then +1 at the location
    ensures FindIndividualByName(d, name).None? ==>
      |r| > |d| && r == UpdateAggregateCounts(d + [r[|d|]], LocationOf(city, country), 1, geo)
  {
    var entry := VisibleEntry(name, title, affiliation, city, country, interests,
                              GetOrCreateCityEntry(d, city, country, geo));
    NameKeyOfStripped(name);
    match FindIndividualByName(d, name)
    case Some(i) => UpdateKnownPerson(d, i, entry, name, geo)
    case None => PlaceNewcomer(d, entry, name, geo)
  }

  /** The known person at `i` gets the new record; when the location changed
      (ignoring case) their count moves from the old location to the new one. */
  function UpdateKnownPerson(d: Dataset, i: nat, entry: Record, name: string, geo: Geocoder): (r: Dataset)
    requires FindIndividualByName(d, name) == Some(i)
    requires Matches(entry, ByName(name))
    ensures FindIndividualByName(r, name) == Some(i) && r[i] == entry
    ensures CountIndividuals(r) == CountIndividuals(d)
    ensures Lower(d[i].location) == Lower(entry.location) ==> r == d[i := entry]
    ensures Lower(d[i].location) != Lower(entry.location) ==>
      r == UpdateAggregateCounts(UpdateAggregateCounts(d[i := entry], d[i].location, -1, geo), entry.location, 1, geo)
  {
    var replaced := d[i := entry];
    FindUnchangedPrefix(d, replaced, name, i);
    CountIndividualsReplace(d, i, entry);
    if Lower(d[i].location) != Lower(entry.location) then
      var moved := UpdateAggregateCounts(replaced, d[i].location, -1, geo);
      var r := UpdateAggregateCounts(moved, entry.location, 1, geo);
      UpdateKeepsIndividuals(replaced, d[i].location, -1, geo);
      UpdateKeepsIndividuals(moved, entry.location, 1, geo);
      SameIndividualsTransitive(replaced, moved, r);
      SameIndividualsLookups(replaced, r, name);
      r
    else
      replaced
  }

  /** A newcomer is appended and counted at their location. */
  function PlaceNewcomer(d: Dataset, entry: Record, name: string, geo: Geocoder): (r: Dataset)
    requires FindIndividualByName(d, name).None?
    requires Matches(entry, ByName(name))
    ensures |r| > |d| && FindIndividualByName(r, name) == Some(|d|) && r[|d|] == entry
    ensures CountIndividuals(r) == CountIndividuals(d) + 1
    ensures r == UpdateAggregateCounts(d + [entry], entry.location, 1, geo)
  {
    var appended := d + [entry];
    FindUnchangedPrefix(d, appended, name, |d|);
    CountIndividualsConcat(d, [entry]);
    UpdateKeepsIndividuals(appended, entry.location, 1, geo);
    SameIndividualsLookups(appended, UpdateAggregateCounts(appended, entry.location, 1, geo), name);
    UpdateAggregateCounts(appended, entry.location, 1, geo)
  }

  /** A newcomer's record is the one built from the submitted details, placed
      right after the records that were already there. */
  lemma NewcomerRecord(d: Dataset, name: string, title: string, affiliation: string,
                       city: string, country: string, interests: string, geo: Geocoder)
    requires FindIndividualByName(d, name).None?
    ensures var r := AddIndividualVisible(d, name, title, affiliation, city, country, interests, geo);
      |r| > |d| && r[|d|] == VisibleEntry(name, title, affiliation, city, country, interests,
                                           GetOrCreateCityEntry(d, city, country, geo))
  {
  }

  /** A name lookup sees position `i` first when nothing before it changed
      and the record now at `i` carries the name. */
  lemma FindUnchangedPrefix(d: Dataset, e: Dataset, name: string, i: nat)
    requires i < |e| && i <= |d|
    requires forall k :: 0 <= k < i ==> e[k] == d[k]
    requires forall k :: 0 <= k < i ==> !Matches(d[k], ByName(name))
    requires Matches(e[i], ByName(name))
    ensures FindIndividualByName(e, name) == Some(i)
  {
    var f := Find(e, ByName(name));
    assert f.Some?;
    assert f.value == i;
  }

  /** `add_anonymous` */
  function AddAnonymous(d: Dataset, name: string, city: string, country: string, geo: Geocoder): (r: Dataset)
    // never creates an individual; deletes the person's record when there is one
    ensures CountIndividuals(r) == CountIndividuals(d) - (if FindIndividualByName(d, name).Some? then 1 else 0)
    ensures FindIndividualByName(d, name).None? ==> FindIndividualByName(r, name).None?
    // known person, same location: the deletion is the only change
    ensures var found := FindIndividualByName(d, name);
      found.Some? && Lower(d[found.value].location) == Lower(LocationOf(city, country)) ==>
        r == RemoveAt(d, found.value)
    // known person, moved: deleted, -1 at the old location, +1 at the new one
    ensures var found := FindIndividualByName(d, name);
      found.Some? && Lower(d[found.value].location) != Lower(LocationOf(city, country)) ==>
        r == UpdateAggregateCounts(UpdateAggregateCounts(RemoveAt(d, found.value),
                                                         d[found.value].location, -1, geo),
                                   LocationOf(city, country), 1, geo)
    // new person: only +1 at the location
    ensures FindIndividualByName(d, name).None? ==>
      r == UpdateAggregateCounts(d, LocationOf(city, country), 1, geo)
  {
    var location := LocationOf(city, country);
    match FindIndividualByName(d, name)
    case Some(i) =>
      var removed := RemoveAt(d, i);
      CountIndividualsRemove(d, i);
      if Lower(d[i].location) != Lower(location) then
        var moved := UpdateAggregateCounts(removed, d[i].location, -1, geo);
        UpdateKeepsIndividuals(removed, d[i].location, -1, geo);
        UpdateKeepsIndividuals(moved, location, 1, geo);
        SameIndividualsTransitive(removed, moved, UpdateAggregateCounts(moved, location, 1, geo));
        SameIndividualsLookups(removed, UpdateAggregateCounts(moved, location, 1, geo), name);
        UpdateAggregateCounts(moved, location, 1, geo)
      else
        removed
    case None =>
      UpdateKeepsIndividuals(d, location, 1, geo);
      SameIndividualsLookups(d, UpdateAggregateCounts(d, location, 1, geo), name);
      UpdateAggregateCounts(d, location, 1, geo)
  }

  /** `remove_from_map` */
  function RemoveFromMap(d: Dataset, name: string): (r: Dataset)
    // nobody of that name: nothing changes
    ensures FindIndividualByName(d, name).None? ==> r == d
    // otherwise exactly the first such record goes, and its location loses one
    ensures var found := FindIndividualByName(d, name);
      found.Some? ==>
        && |r| == |d| - 1
        && CountIndividuals(r) == CountIndividuals(d) - 1
        && r == UpdateAggregateCounts(RemoveAt(d, found.value), d[found.value].location, -1, Offline)
  {
    match FindIndividualByName(d, name)
    case None => d
    case Some(i) =>
      var location := d[i].location;
      var removed := RemoveAt(d, i);
      CountIndividualsRemove(d, i);
      if location != "" then
        UpdateKeepsIndividuals(removed, location, -1, Offline);
        SameIndividualsLookups(removed, UpdateAggregateCounts(removed, location, -1, Offline), name);
        UpdateAggregateCounts(removed, location, -1, Offline)
      else
        removed
  }

  /** Replacing an individual by one filed under the same name key keeps the
      dataset invariants. */
  lemma ReplaceIndividualWellFormed(d: Dataset, i: nat, x: Record)
    requires WellFormed(d) && i < |d| && d[i].Individual? && x.Individual?
    requires NameKey(x.name) == NameKey(d[i].name)
    ensures WellFormed(d[i := x])
  {
    var r := d[i := x];
    forall a, b | 0 <= a < b < |r| && r[a].Individual?
      ensures !Matches(r[b], ByName(r[a].name))
    {
      assert !Matches(d[b], ByName(d[a].name));
    }
  }

  /** Appending an individual whose name nobody has yet keeps the dataset
      invariants. */
  lemma AppendIndividualWellFormed(d: Dataset, x: Record)
    requires WellFormed(d) && x.Individual?
    requires FindIndividualByName(d, x.name).None?
    ensures WellFormed(d + [x])
  {
    var r := d + [x];
    forall a, b | 0 <= a < b < |r| && r[a].Individual?
      ensures !Matches(r[b], ByName(r[a].name))
    {
      if b == |d| {
        assert !Matches(d[a], ByName(x.name));
      }
    }
  }

  /** Showing a person keeps the dataset invariants: one record per name,
      one city per location, one country per name, no negative count. */
  lemma AddVisibleKeepsWellFormed(d: Dataset, name: string, title: string, affiliation: string,
                                  city: string, country: string, interests: string, geo: Geocoder)
    requires WellFormed(d)
    ensures WellFormed(AddIndividualVisible(d, name, title, affiliation, city, country, interests, geo))
  {
    var location := LocationOf(city, country);
    var entry := VisibleEntry(name, title, affiliation, city, country, interests,
                              GetOrCreateCityEntry(d, city, country, geo));
    NameKeyOfStripped(name);
    match FindIndividualByName(d, name)
    case Some(i) =>
      var replaced := d[i := entry];
      ReplaceIndividualWellFormed(d, i, entry);
      if Lower(d[i].location) != Lower(location) {
        UpdateKeepsWellFormed(replaced, d[i].location, -1, geo);
        UpdateKeepsWellFormed(UpdateAggregateCounts(replaced, d[i].location, -1, geo), location, 1, geo);
      }
    case None =>
      AppendIndividualWellFormed(d, entry);
      UpdateKeepsWellFormed(d + [entry], location, 1, geo);
  }

  /** Counting a person anonymously keeps the dataset invariants and leaves
      nobody of that name on the map. */
  lemma AddAnonymousKeepsWellFormed(d: Dataset, name: string, city: string, country: string, geo: Geocoder)
    requires WellFormed(d)
    ensures WellFormed(AddAnonymous(d, name, city, country, geo))
    ensures FindIndividualByName(AddAnonymous(d, name, city, country, geo), name).None?
  {
    var location := LocationOf(city, country);
    match FindIndividualByName(d, name)
    case Some(i) =>
      var removed := RemoveAt(d, i);
      RemoveAtWellFormed(d, i);
      RemoveFoundIndividual(d, name, i);
      if Lower(d[i].location) != Lower(location) {
        var moved := UpdateAggregateCounts(removed, d[i].location, -1, geo);
        UpdateKeepsWellFormed(removed, d[i].location, -1, geo);
        UpdateKeepsWellFormed(moved, location, 1, geo);
        UpdateKeepsIndividuals(removed, d[i].location, -1, geo);
        UpdateKeepsIndividuals(moved, location, 1, geo);
        SameIndividualsTransitive(removed, moved, UpdateAggregateCounts(moved, location, 1, geo));
        SameIndividualsLookups(removed, UpdateAggregateCounts(moved, location, 1, geo), name);
      }
    case None =>
      UpdateKeepsWellFormed(d, location, 1, geo);
  }

  /** Removal keeps the dataset invariants and leaves nobody of that name
      on the map. */
  lemma RemoveFromMapKeepsWellFormed(d: Dataset, name: string)
    requires WellFormed(d)
    ensures WellFormed(RemoveFromMap(d, name))
    ensures FindIndividualByName(RemoveFromMap(d, name), name).None?
  {
    match FindIndividualByName(d, name)
    case None =>
    case Some(i) =>
      var removed := RemoveAt(d, i);
      RemoveAtWellFormed(d, i);
      RemoveFoundIndividual(d, name, i);
      UpdateKeepsWellFormed(removed, d[i].location, -1, Offline);
      UpdateKeepsIndividuals(removed, d[i].location, -1, Offline);
      SameIndividualsLookups(removed, RemoveFromMap(d, name), name);
  }

  /** Submitting the same visible details twice counts the person once,
      whatever either geocoder answers: the second call only rewrites their
      own record, every other record (all aggregates included) stays as the
      first call left it. */
  lemma AddVisibleRepeatKeepsAggregates(d: Dataset, name: string, title: string, affiliation: string,
                                        city: string, country: string, interests: string,
                                        geo: Geocoder, geo': Geocoder)
    ensures var once := AddIndividualVisible(d, name, title, affiliation, city, country, interests, geo);
      var twice := AddIndividualVisible(once, name, title, affiliation, city, country, interests, geo');
      var i := FindIndividualByName(once, name).value;
      |twice| == |once| && twice == once[i := twice[i]] && once[i].Individual?
  {
    var once := AddIndividualVisible(d, name, title, affiliation, city, country, interests, geo);
    VisibleRecordStored(d, name, title, affiliation, city, country, interests, geo);
    KnownAtSameLocation(once, FindIndividualByName(once, name).value, name, title, affiliation,
                        city, country, interests, geo');
  }

  /** Withdrawing a person right after adding them as a newcomer gives the
      dataset back, except that a city record created for them remains with
      count 0. */
  lemma WithdrawNewcomer(d: Dataset, name: string, title: string, affiliation: string,
                                            city: string, country: string, interests: string, geo: Geocoder)
    requires CountsNonNegative(d)
    requires FindIndividualByName(d, name).None?
    ensures var r := RemoveFromMap(AddIndividualVisible(d, name, title, affiliation, city, country, interests, geo), name);
      || r == d
      || (|r| == |d| + 1 && r[..|d|] == d && r[|d|].City? && r[|d|].count == 0)
  {
    var location := LocationOf(city, country);
    var added := AddIndividualVisible(d, name, title, affiliation, city, country, interests, geo);
    var e := added[|d|];
    assert FindIndividualByName(added, name) == Some(|d|);
    assert e.location == location;
    UpdateIgnoresTrailingIndividual(d, e, location, 1, geo);
    UpdateUpThenDown(d, location, geo, Offline);
  }

  /** Coordinates picked for "City, Country" depend only on which records
      are cities at that location and where they sit. */
  lemma CoordsAgree(x: Dataset, y: Dataset, city: string, country: string, geo: Geocoder)
    requires |x| <= |y|
    requires forall k :: 0 <= k < |x| ==> y[k] == x[k] || SameButCount(x[k], y[k])
                                          || (x[k].Individual? && y[k].Individual?)
    requires forall k :: |x| <= k < |y| ==> !Matches(y[k], CityAt(LocationOf(city, country)))
    ensures GetOrCreateCityEntry(y, city, country, geo) == GetOrCreateCityEntry(x, city, country, geo)
  {
    var q := CityAt(LocationOf(city, country));
    forall k | 0 <= k < |x|
      ensures Matches(x[k], q) <==> Matches(y[k], q)
    {
      if y[k] != x[k] && !SameButCount(x[k], y[k]) {
        assert x[k].Individual? && y[k].Individual?;
      }
    }
    FindAgrees(x, y, q);
    match Find(x, q)
    case None =>
    case Some(i) =>
      assert x[i].City?;
      assert y[i] == x[i] || SameButCount(x[i], y[i]);
  }

  /** A negative update never moves or re-locates a city, so coordinates
      are picked as before. */
  lemma DecrementKeepsCoords(x: Dataset, location: string, delta: int, geo: Geocoder,
                             city: string, country: string, geo': Geocoder)
    requires delta <= 0
    ensures GetOrCreateCityEntry(UpdateAggregateCounts(x, location, delta, geo), city, country, geo')
         == GetOrCreateCityEntry(x, city, country, geo')
  {
    CoordsAgree(x, UpdateAggregateCounts(x, location, delta, geo), city, country, geo');
  }

  /** A +1 at the person's own location either finds the city or creates it
      from the very coordinates the geocoder would give, so coordinates are
      picked as before. A city filed under a differently parsed key (when the
      city or country carries a comma or surrounding blanks) is not at
      "City, Country", so it does not change the pick either. */
  lemma IncrementKeepsCoords(x: Dataset, city: string, country: string, geo: Geocoder)
    ensures GetOrCreateCityEntry(UpdateAggregateCounts(x, LocationOf(city, country), 1, geo), city, country, geo)
         == GetOrCreateCityEntry(x, city, country, geo)
  {
    var location := LocationOf(city, country);
    var y := UpdateAggregateCounts(x, location, 1, geo);
    CityKeyOfComposed(city, country);
    var p := SplitLocation(location).value;
    if |y| == |x| || Lower(CityKey(p)) != Lower(location) {
      IncrementElsewhereKeepsCoords(x, city, country, geo);
    } else {
      assert |CityKey(p)| == |location|;
      CreatedCityCoords(x, city, country, geo);
    }
  }

  /** When the +1 at "City, Country" adds no city, or adds one under a key
      that is not that location, the coordinates are picked as before. */
  lemma IncrementElsewhereKeepsCoords(x: Dataset, city: string, country: string, geo: Geocoder)
    requires ',' in LocationOf(city, country)
    requires var y := UpdateAggregateCounts(x, LocationOf(city, country), 1, geo);
      var p := SplitLocation(LocationOf(city, country)).value;
      |y| == |x| || Lower(CityKey(p)) != Lower(LocationOf(city, country))
    ensures GetOrCreateCityEntry(UpdateAggregateCounts(x, LocationOf(city, country), 1, geo), city, country, geo)
         == GetOrCreateCityEntry(x, city, country, geo)
  {
    var location := LocationOf(city, country);
    var y := UpdateAggregateCounts(x, location, 1, geo);
    var p := SplitLocation(location).value;
    var ci, ni := Find(x, CityAt(CityKey(p))), Find(x, CountryAt(p.country));
    forall k | 0 <= k < |x|
      ensures y[k] == x[k] || SameButCount(x[k], y[k])
    {
      if ci == Some(k) || ni == Some(k) {
        assert y[k] == Adjust(x[k], 1);
      }
    }
    if |y| == |x| + 1 {
      assert !Matches(y[|x|], CityAt(location));
    }
    CoordsAgree(x, y, city, country, geo);
  }

  /** When the +1 at "City, Country" creates a city filed under that very
      location, the new city carries the coordinates the geocoder gave. */
  lemma CreatedCityCoords(x: Dataset, city: string, country: string, geo: Geocoder)
    requires |UpdateAggregateCounts(x, LocationOf(city, country), 1, geo)| == |x| + 1
    requires SplitLocation(LocationOf(city, country)) == Some(Place(city, country))
    ensures GetOrCreateCityEntry(UpdateAggregateCounts(x, LocationOf(city, country), 1, geo), city, country, geo)
         == GetOrCreateCityEntry(x, city, country, geo)
  {
    var location := LocationOf(city, country);
    var y := UpdateAggregateCounts(x, location, 1, geo);
    var g := geo(city, country);
    assert CityKey(Place(city, country)) == location;
    assert Find(x, CityAt(location)).None? && Usable(g);
    assert y[|x|] == City(location, g.value.lat, g.value.lon, 1);
    CreatedCityIsFound(x, y, location);
    assert GetOrCreateCityEntry(x, city, country, geo) == g.value;
  }

  /** A city appended because none matched is the one found afterwards. */
  lemma CreatedCityIsFound(x: Dataset, y: Dataset, location: string)
    requires |y| == |x| + 1 && Find(x, CityAt(location)).None?
    requires forall k :: 0 <= k < |x| ==> y[k] == x[k] || SameButCount(x[k], y[k])
    requires y[|x|].City? && y[|x|].location == location
    ensures Find(y, CityAt(location)) == Some(|x|)
  {
    var q := CityAt(location);
    forall k | 0 <= k < |x|
      ensures !Matches(y[k], q)
    {
      assert !Matches(x[k], q);
    }
    FindUnique(y, q, |x|);
  }

  /** Replacing or appending a person record never changes which city
      coordinates are picked. */
  lemma PersonEditKeepsCoords(d: Dataset, e: Dataset, city: string, country: string, geo: Geocoder)
    requires |d| <= |e|
    requires forall k :: 0 <= k < |d| && e[k] != d[k] ==> d[k].Individual? && e[k].Individual?
    requires forall k :: |d| <= k < |e| ==> e[k].Individual?
    ensures GetOrCreateCityEntry(e, city, country, geo) == GetOrCreateCityEntry(d, city, country, geo)
  {
    CoordsAgree(d, e, city, country, geo);
  }

  /** The -1/+1 move of a person from `from` to "City, Country" keeps the
      coordinates picked for "City, Country". */
  lemma MoveKeepsCoords(replaced: Dataset, from: string, city: string, country: string, geo: Geocoder)
    ensures GetOrCreateCityEntry(UpdateAggregateCounts(UpdateAggregateCounts(replaced, from, -1, geo),
                                                       LocationOf(city, country), 1, geo), city, country, geo)
         == GetOrCreateCityEntry(replaced, city, country, geo)
  {
    var moved := UpdateAggregateCounts(replaced, from, -1, geo);
    DecrementKeepsCoords(replaced, from, -1, geo, city, country, geo);
    IncrementKeepsCoords(moved, city, country, geo);
  }

  /** Rebuilding a known person's record, and moving their count to
      "City, Country" when the location changed, picks the same coordinates. */
  lemma KnownKeepsCoords(d: Dataset, i: nat, entry: Record, name: string,
                         city: string, country: string, geo: Geocoder)
    requires FindIndividualByName(d, name) == Some(i)
    requires Matches(entry, ByName(name)) && entry.location == LocationOf(city, country)
    ensures GetOrCreateCityEntry(UpdateKnownPerson(d, i, entry, name, geo), city, country, geo)
         == GetOrCreateCityEntry(d, city, country, geo)
  {
    var replaced := d[i := entry];
    PersonEditKeepsCoords(d, replaced, city, country, geo);
    if Lower(d[i].location) != Lower(entry.location) {
      MoveKeepsCoords(replaced, d[i].location, city, country, geo);
    }
  }

  /** Appending a newcomer and counting them at "City, Country" picks the
      same coordinates. */
  lemma NewcomerKeepsCoords(d: Dataset, entry: Record, name: string,
                            city: string, country: string, geo: Geocoder)
    requires FindIndividualByName(d, name).None?
    requires Matches(entry, ByName(name)) && entry.location == LocationOf(city, country)
    ensures GetOrCreateCityEntry(PlaceNewcomer(d, entry, name, geo), city, country, geo)
         == GetOrCreateCityEntry(d, city, country, geo)
  {
    var appended := d + [entry];
    PersonEditKeepsCoords(d, appended, city, country, geo);
    IncrementKeepsCoords(appended, city, country, geo);
  }

  /** After a visible submission the coordinates picked for its own
      "City, Country" are the ones that were picked for it. */
  lemma AddVisibleKeepsCoords(d: Dataset, name: string, title: string, affiliation: string,
                              city: string, country: string, interests: string, geo: Geocoder)
    ensures GetOrCreateCityEntry(AddIndividualVisible(d, name, title, affiliation, city, country, interests, geo),
                                 city, country, geo)
         == GetOrCreateCityEntry(d, city, country, geo)
  {
    var entry := VisibleEntry(name, title, affiliation, city, country, interests,
                              GetOrCreateCityEntry(d, city, country, geo));
    NameKeyOfStripped(name);
    match FindIndividualByName(d, name)
    case Some(i) => KnownKeepsCoords(d, i, entry, name, city, country, geo);
    case None => NewcomerKeepsCoords(d, entry, name, city, country, geo);
  }

  /** Submitting identical visible details twice leaves the dataset exactly
      as the first submission left it, provided the geocoder answers the
      second lookup of "City, Country" as it answered the first. */
  lemma AddVisibleIdempotent(d: Dataset, name: string, title: string, affiliation: string,
                             city: string, country: string, interests: string,
                             geo: Geocoder, geo': Geocoder)
    requires geo'(city, country) == geo(city, country)
    ensures var once := AddIndividualVisible(d, name, title, affiliation, city, country, interests, geo);
      AddIndividualVisible(once, name, title, affiliation, city, country, interests, geo') == once
  {
    var once := AddIndividualVisible(d, name, title, affiliation, city, country, interests, geo);
    VisibleRecordStored(d, name, title, affiliation, city, country, interests, geo);
    AddVisibleKeepsCoords(d, name, title, affiliation, city, country, interests, geo);
    assert GetOrCreateCityEntry(once, city, country, geo') == GetOrCreateCityEntry(once, city, country, geo);
    ResubmitUnchanged(once, FindIndividualByName(once, name).value, name, title, affiliation,
                      city, country, interests, geo');
  }

  /** When the person's stored record is already the one these details would
      build, submitting them changes nothing. */
  lemma ResubmitUnchanged(x: Dataset, i: nat, name: string, title: string, affiliation: string,
                          city: string, country: string, interests: string, geo: Geocoder)
    requires FindIndividualByName(x, name) == Some(i)
    requires x[i] == VisibleEntry(name, title, affiliation, city, country, interests,
                                  GetOrCreateCityEntry(x, city, country, geo))
    ensures AddIndividualVisible(x, name, title, affiliation, city, country, interests, geo) == x
  {
    assert x[i].location == LocationOf(city, country);
    KnownAtSameLocation(x, i, name, title, affiliation, city, country, interests, geo);
    RewriteInPlace(x, i);
  }

  lemma RewriteInPlace(x: Dataset, i: nat)
    requires i < |x|
    ensures x[i := x[i]] == x
  {
  }

  /** A known person submitting their current location (ignoring case) only
      has their record rebuilt in place. */
  lemma KnownAtSameLocation(x: Dataset, i: nat, name: string, title: string, affiliation: string,
                            city: string, country: string, interests: string, geo: Geocoder)
    requires FindIndividualByName(x, name) == Some(i)
    requires Lower(x[i].location) == Lower(LocationOf(city, country))
    ensures AddIndividualVisible(x, name, title, affiliation, city, country, interests, geo)
         == x[i := VisibleEntry(name, title, affiliation, city, country, interests,
                                GetOrCreateCityEntry(x, city, country, geo))]
  {
  }

  /** The record the person is found at afterwards is the one built from the
      submitted details, and it sits at the location it names. */
  lemma VisibleRecordStored(d: Dataset, name: string, title: string, affiliation: string,
                            city: string, country: string, interests: string, geo: Geocoder)
    ensures var r := AddIndividualVisible(d, name, title, affiliation, city, country, interests, geo);
      var i := FindIndividualByName(r, name).value;
      && r[i] == VisibleEntry(name, title, affiliation, city, country, interests,
                              GetOrCreateCityEntry(d, city, country, geo))
      && Lower(r[i].location) == Lower(LocationOf(city, country))
  {
  }
}
