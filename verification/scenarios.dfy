/**
 Worked examples: the two answer forms the parser's docstring names,
 "City, Country" and "City Country"; a person added to an empty map and
 then withdrawn again; and a person stored with no city to count them.
 */
module Scenarios {
  import opened Wrappers
  import opened Text
  import opened Records
  import opened Aggregates
  import opened Reconcile
  import opened Intake

  lemma BostonFacts()
    ensures Trimmed("Boston") && Trimmed("USA") && ',' !in "Boston" && ',' !in "USA" && ' ' !in "USA"
    ensures LocationOf("Boston", "USA") == "Boston, USA"
    ensures "Boston" + " " + "USA" == "Boston USA"
    ensures Strip("Boston") == "Boston"
  {
    StripTrimmed("Boston");
  }

  /** "Boston, USA" and "Boston USA" are both read as Boston in the USA. */
  lemma ParseBoston()
    ensures ParseCityCountry("Boston, USA") == ("Boston", "USA")
    ensures ParseCityCountry("Boston USA") == ("Boston", "USA")
  {
    BostonFacts();
    ParseCommaForm("Boston", "USA");
    ParseSpaceForm("Boston", "USA");
  }

  /** A visible entry on an empty map, for any city and country: the
      person, then at most one city with count 1, filed under the key the
      aggregate update reads back from "City, Country" and placed where the
      geocoder puts that key's parts. No country record is made. */
  lemma AddVisibleToEmpty(name: string, title: string, affiliation: string,
                          city: string, country: string, interests: string, geo: Geocoder)
    ensures ',' in LocationOf(city, country)
    ensures var p := SplitLocation(LocationOf(city, country)).value;
      var g0 := geo(city, country);
      var g := geo(p.city, p.country);
      var e := VisibleEntry(name, title, affiliation, city, country, interests,
                            if g0.Some? then g0.value else Coords(0.0, 0.0));
      AddIndividualVisible([], name, title, affiliation, city, country, interests, geo)
        == [e] + (if Usable(g) then [City(CityKey(p), g.value.lat, g.value.lon, 1)] else [])
  {
    var g0 := geo(city, country);
    var e := VisibleEntry(name, title, affiliation, city, country, interests,
                          if g0.Some? then g0.value else Coords(0.0, 0.0));
    NewcomerOnEmpty(name, title, affiliation, city, country, interests, geo);
    CityKeyOfComposed(city, country);
    UpdateWithoutAggregates([e], LocationOf(city, country), 1, geo);
  }

  /** When the geocoder fails, a visible entry is stored with no city
      record beside it: nothing on the map counts the person at their
      location. */
  lemma UngeocodedPersonHasNoCity(name: string, title: string, affiliation: string,
                                  city: string, country: string, interests: string)
    ensures var r := AddIndividualVisible([], name, title, affiliation, city, country, interests, Offline);
      && |r| == 1 && r[0].Individual? && r[0].location == LocationOf(city, country)
      && forall k :: 0 <= k < |r| ==> !r[k].City?
  {
    AddVisibleToEmpty(name, title, affiliation, city, country, interests, Offline);
  }

  /** On an empty map the person is a newcomer: their record alone, then +1
      at their location. */
  lemma NewcomerOnEmpty(name: string, title: string, affiliation: string,
                        city: string, country: string, interests: string, geo: Geocoder)
    ensures var g0 := geo(city, country);
      var e := VisibleEntry(name, title, affiliation, city, country, interests,
                            if g0.Some? then g0.value else Coords(0.0, 0.0));
      AddIndividualVisible([], name, title, affiliation, city, country, interests, geo)
        == UpdateAggregateCounts([e], LocationOf(city, country), 1, geo)
  {
    var g0 := geo(city, country);
    var e := VisibleEntry(name, title, affiliation, city, country, interests,
                          if g0.Some? then g0.value else Coords(0.0, 0.0));
    var r := AddIndividualVisible([], name, title, affiliation, city, country, interests, geo);
    assert FindIndividualByName([], name).None?;
    NewcomerRecord([], name, title, affiliation, city, country, interests, geo);
    assert r[0] == e;
    assert [] + [e] == [e];
  }

  /** On a dataset holding no aggregates, an update at a location with a
      comma finds nothing to adjust and at most adds the city. */
  lemma UpdateWithoutAggregates(d: Dataset, location: string, delta: int, geo: Geocoder)
    requires forall k :: 0 <= k < |d| ==> !IsAggregate(d[k])
    ensures ',' !in location ==> UpdateAggregateCounts(d, location, delta, geo) == d
    ensures ',' in location ==>
      var p := SplitLocation(location).value;
      var g := geo(p.city, p.country);
      UpdateAggregateCounts(d, location, delta, geo)
        == d + (if delta > 0 && Usable(g) then [City(CityKey(p), g.value.lat, g.value.lon, 1)] else [])
  {
    if ',' in location {
      var r := UpdateAggregateCounts(d, location, delta, geo);
      NothingToAdjust(d, location, delta, geo);
      if |r| == |d| + 1 {
        AppendPointwise(r, d, r[|d|]);
      } else {
        SamePointwise(r, d);
        assert d + [] == d;
      }
    }
  }

  /** Without aggregates nothing matches, and the update keeps every old record. */
  lemma NothingToAdjust(d: Dataset, location: string, delta: int, geo: Geocoder)
    requires ',' in location
    requires forall k :: 0 <= k < |d| ==> !IsAggregate(d[k])
    ensures Find(d, CityAt(CityKey(SplitLocation(location).value))).None?
    ensures var r := UpdateAggregateCounts(d, location, delta, geo);
      |d| <= |r| && forall k :: 0 <= k < |d| ==> r[k] == d[k]
  {
    var p := SplitLocation(location).value;
    assert Find(d, CityAt(CityKey(p))).None?;
    assert Find(d, CountryAt(p.country)).None?;
  }

  /** Withdrawing a person who is alone with their city leaves the city, at
      count 0. */
  lemma WithdrawFromOneCity(name: string, title: string, affiliation: string,
                            city: string, country: string, interests: string, c: Coords)
    requires ',' !in city && ',' !in country && Trimmed(city) && Trimmed(country)
    ensures var e := VisibleEntry(name, title, affiliation, city, country, interests, c);
      RemoveFromMap([e, City(LocationOf(city, country), c.lat, c.lon, 1)], name)
        == [City(LocationOf(city, country), c.lat, c.lon, 0)]
  {
    var e := VisibleEntry(name, title, affiliation, city, country, interests, c);
    var d := [e, City(LocationOf(city, country), c.lat, c.lon, 1)];
    NameKeyOfStripped(name);
    assert Matches(d[0], ByName(name));
    assert FindIndividualByName(d, name) == Some(0);
    assert RemoveAt(d, 0) == [City(LocationOf(city, country), c.lat, c.lon, 1)];
    LastCityGoesToZero(city, country, c);
  }

  lemma LastCityGoesToZero(city: string, country: string, c: Coords)
    requires ',' !in city && ',' !in country && Trimmed(city) && Trimmed(country)
    ensures UpdateAggregateCounts([City(LocationOf(city, country), c.lat, c.lon, 1)], LocationOf(city, country), -1, Offline)
         == [City(LocationOf(city, country), c.lat, c.lon, 0)]
  {
    var location := LocationOf(city, country);
    var rest := [City(location, c.lat, c.lon, 1)];
    UpdateComposedAdjusts(rest, city, country, -1, Offline);
    UpdateComposedAdds(rest, city, country, -1, Offline);
    assert Matches(rest[0], CityAt(location));
    FindUnique(rest, CityAt(location), 0);
    assert Find(rest, CountryAt(country)).None?;
    var r := UpdateAggregateCounts(rest, location, -1, Offline);
    assert r[0] == Adjust(rest[0], -1);
  }

  function JaneDoe(): Record {
    Individual("Boston, USA", 42.36, -71.06, 1, "Jane Doe", "Dr., MIT", "finance")
  }

  /** The record built for Jane Doe (Dr., MIT, interested in finance) in
      Boston, USA at (42.36, -71.06). */
  lemma JaneDoeEntry()
    ensures VisibleEntry("Jane Doe", "Dr.", "MIT", "Boston", "USA", "finance", Coords(42.36, -71.06)) == JaneDoe()
  {
    BostonFacts();
    StripTrimmed("Jane Doe");
    StripTrimmed("finance");
    StripTrimmed("Dr., MIT");
    assert "Dr." + ", " + "MIT" == "Dr., MIT";
  }

  /** Jane Doe joins an empty map; the geocoder places Boston at
      (42.36, -71.06). Two records result: no country record is made. */
  lemma JaneDoeJoins(geo: Geocoder)
    requires geo("Boston", "USA") == Some(Coords(42.36, -71.06))
    ensures AddIndividualVisible([], "Jane Doe", "Dr.", "MIT", "Boston", "USA", "finance", geo)
         == [JaneDoe(), City("Boston, USA", 42.36, -71.06, 1)]
  {
    BostonFacts();
    JaneDoeEntry();
    JoinEmptyMap("Jane Doe", "Dr.", "MIT", "Boston", "USA", "finance", Coords(42.36, -71.06), geo);
  }

  /** A person at a geocodable "City, Country" joining an empty map, for a
      city and country the aggregate update reads back unchanged. */
  lemma JoinEmptyMap(name: string, title: string, affiliation: string,
                     city: string, country: string, interests: string, c: Coords, geo: Geocoder)
    requires ',' !in city && ',' !in country && Trimmed(city) && Trimmed(country)
    requires geo(city, country) == Some(c) && c.lat != 0.0 && c.lon != 0.0
    ensures AddIndividualVisible([], name, title, affiliation, city, country, interests, geo)
         == [VisibleEntry(name, title, affiliation, city, country, interests, c),
             City(LocationOf(city, country), c.lat, c.lon, 1)]
  {
    SplitComposedLocation(city, country);
    AddVisibleToEmpty(name, title, affiliation, city, country, interests, geo);
  }

  /** Jane Doe then withdraws, and only Boston remains, at count 0. */
  lemma JaneDoeLeaves()
    ensures RemoveFromMap([JaneDoe(), City("Boston, USA", 42.36, -71.06, 1)], "Jane Doe")
         == [City("Boston, USA", 42.36, -71.06, 0)]
  {
    BostonFacts();
    JaneDoeEntry();
    WithdrawFromOneCity("Jane Doe", "Dr.", "MIT", "Boston", "USA", "finance", Coords(42.36, -71.06));
  }
}
