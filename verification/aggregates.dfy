/**
 `update_aggregate_counts`: moving the city and country tallies of one
 location up or down by `delta`, clamping at zero, and lazily creating a
 missing city when a positive change can be geocoded.
 */
module Aggregates {
  import opened Wrappers
  import opened Text
  import opened Records

  /** The city and country an aggregate update is about. */
  datatype Place = Place(city: string, country: string)

  /** The location string the script composes and compares: "City, Country". */
  function LocationOf(city: string, country: string): string {
    city + ", " + country
  }

  /** Where the pieces of "City, Country" sit: the city, then the separating
      comma, then a blank and the country. */
  lemma ComposedLocationPieces(city: string, country: string)
    ensures var text := LocationOf(city, country);
      && |city| < |text| && text[|city|] == ','
      && text[..|city|] == city && text[|city| + 1..] == " " + country
  {
    var text := LocationOf(city, country);
    assert text[..|city|] == city;
    assert text[|city| + 1..] == " " + country;
  }

  /** The canonical location of a city record. */
  function CityKey(p: Place): string {
    LocationOf(p.city, p.country)
  }

  /** Reads a stored "City, Country" location: the city is the text before
      the first comma and the country the text after the last comma, both
      stripped. A location without a comma names no place. */
  function SplitLocation(location: string): (p: Option<Place>)
    ensures p.None? <==> ',' !in location
    ensures p.Some? ==> p.value.city == Strip(location[..IndexOf(location, ',').value])
    ensures p.Some? ==> p.value.country == Strip(location[LastIndexOf(location, ',').value + 1..])
  {
    match IndexOf(location, ',')
    case None => None
    case Some(i) =>
      var j := LastIndexOf(location, ',').value;
      Some(Place(Strip(location[..i]), Strip(location[j + 1..])))
  }

  /** The city key the update files a composed location under is never
      longer than that location, and it is exactly as long only when the
      location splits back into the city and country it was made of. Any
      comma or surrounding blank in either part makes the key shorter. */
  lemma CityKeyOfComposed(city: string, country: string)
    ensures ',' in LocationOf(city, country)
    ensures var p := SplitLocation(LocationOf(city, country)).value;
      && |CityKey(p)| <= |LocationOf(city, country)|
      && (|CityKey(p)| == |LocationOf(city, country)| ==> p == Place(city, country))
  {
    var text := LocationOf(city, country);
    ComposedCommas(city, country);
    CityKeyLength(city, country);
    var p := SplitLocation(text).value;
    if |CityKey(p)| == |text| {
      var i := IndexOf(text, ',').value;
      ComposedLocationPieces(city, country);
      assert p.city == Strip(city);
      assert p.country == Strip(" " + country);
      StripFull(city);
      StripLeadingBlank(" " + country);
      assert (" " + country)[1..] == country;
    }
  }

  /** In "City, Country" the first comma is no later than the separator and
      the last one is the separator or lies inside the country. */
  lemma ComposedCommas(city: string, country: string)
    ensures var text := LocationOf(city, country);
      && ',' in text
      && IndexOf(text, ',').Some? && IndexOf(text, ',').value <= |city|
      && LastIndexOf(text, ',').Some? && |city| <= LastIndexOf(text, ',').value
      && (LastIndexOf(text, ',').value == |city| || |city| + 2 <= LastIndexOf(text, ',').value)
  {
    var text := LocationOf(city, country);
    ComposedLocationPieces(city, country);
    IndexOfNoLater(text, ',', |city|);
    LastIndexOfNoEarlier(text, ',', |city|);
    assert text[|city| + 1] == ' ';
  }

  /** The length count behind `CityKeyOfComposed`: the two stripped pieces
      and the ", " between them fit in the location, with room to spare
      unless the separator is the only comma and nothing is stripped. */
  lemma CityKeyLength(city: string, country: string)
    requires var text := LocationOf(city, country);
      && ',' in text
      && IndexOf(text, ',').Some? && IndexOf(text, ',').value <= |city|
      && LastIndexOf(text, ',').Some? && |city| <= LastIndexOf(text, ',').value
      && (LastIndexOf(text, ',').value == |city| || |city| + 2 <= LastIndexOf(text, ',').value)
    ensures var text := LocationOf(city, country);
      var p := SplitLocation(text).value;
      && |CityKey(p)| <= |text|
      && (|CityKey(p)| == |text| ==>
            IndexOf(text, ',').value == |city| && LastIndexOf(text, ',').value == |city|
            && |Strip(city)| == |city| && |Strip(" " + country)| == |country|)
  {
    var text := LocationOf(city, country);
    var i, j := IndexOf(text, ',').value, LastIndexOf(text, ',').value;
    var p := SplitLocation(text).value;
    ComposedLocationPieces(city, country);
    assert |CityKey(p)| == |p.city| + 2 + |p.country|;
    if j == |city| {
      StripLeadingBlank(" " + country);
      assert |p.country| < |country| + 1;
      if i == |city| {
        assert p.city == Strip(city);
      }
    }
  }

  /** `x` and `y` are the same aggregate apart from their counts. */
  predicate SameButCount(x: Record, y: Record) {
    && IsAggregate(x) && IsAggregate(y)
    && x.City? == y.City?
    && x.location == y.location && x.lat == y.lat && x.lon == y.lon
  }

  /** `max(0, count + delta)` on an aggregate record. */
  function Adjust(r: Record, delta: int): (a: Record)
    requires IsAggregate(r)
    ensures SameButCount(r, a)
    ensures a.count >= 0 && a.count >= r.count + delta
    ensures a.count == 0 || a.count == r.count + delta
  {
    var n := if r.count + delta < 0 then 0 else r.count + delta;
    match r
    case City(location, lat, lon, _) => City(location, lat, lon, n)
    case Country(location, lat, lon, _) => Country(location, lat, lon, n)
  }

  /** Python's `if lat and lon`: a result with two non-zero coordinates. */
  predicate Usable(g: Option<Coords>) {
    g.Some? && g.value.lat != 0.0 && g.value.lon != 0.0
  }

  /** The city half of the update (lines 226-247). */
  function AdjustCity(d: Dataset, p: Place, delta: int, geo: Geocoder): (r: Dataset)
    ensures |d| <= |r| <= |d| + 1
    ensures forall k :: 0 <= k < |d| ==>
      r[k] == (if Find(d, CityAt(CityKey(p))) == Some(k) then Adjust(d[k], delta) else d[k])
    ensures |r| == |d| + 1 <==>
      delta > 0 && Find(d, CityAt(CityKey(p))).None? && Usable(geo(p.city, p.country))
    ensures |r| == |d| + 1 ==>
      r[|d|] == City(CityKey(p), geo(p.city, p.country).value.lat, geo(p.city, p.country).value.lon, 1)
  {
    match Find(d, CityAt(CityKey(p)))
    case Some(i) => d[i := Adjust(d[i], delta)]
    case None =>
      var g := geo(p.city, p.country);
      if delta > 0 && Usable(g) then d + [City(CityKey(p), g.value.lat, g.value.lon, 1)] else d
  }

  /** The country half of the update (lines 249-261); never creates a record. */
  function AdjustCountry(d: Dataset, country: string, delta: int): (r: Dataset)
    ensures |r| == |d|
    ensures forall k :: 0 <= k < |d| ==>
      r[k] == (if Find(d, CountryAt(country)) == Some(k) then Adjust(d[k], delta) else d[k])
  {
    match Find(d, CountryAt(country))
    case Some(i) => d[i := Adjust(d[i], delta)]
    case None => d
  }

  /** `update_aggregate_counts(data, location, delta)` */
  function UpdateAggregateCounts(d: Dataset, location: string, delta: int, geo: Geocoder): (r: Dataset)
    // without a comma the dataset is returned as it is
    ensures ',' !in location ==> r == d
    // otherwise: only the first matching city and the first matching country change,
    // each to max(0, count + delta); at most one record is added
    ensures ',' in location ==>
      var p := SplitLocation(location).value;
      var ci := Find(d, CityAt(CityKey(p)));
      var ni := Find(d, CountryAt(p.country));
      && |d| <= |r| <= |d| + 1
      && (forall k :: 0 <= k < |d| ==>
            r[k] == (if ci == Some(k) || ni == Some(k) then Adjust(d[k], delta) else d[k]))
    // the one record that may be added is a new city with count 1, and only when the change
    // is positive, no city matched and the geocoder gave two non-zero coordinates
    ensures ',' in location ==>
      var p := SplitLocation(location).value;
      var g := geo(p.city, p.country);
      && (|r| == |d| + 1 <==> delta > 0 && Find(d, CityAt(CityKey(p))).None? && Usable(g))
      && (|r| == |d| + 1 ==> r[|d|] == City(CityKey(p), g.value.lat, g.value.lon, 1))
  {
    match SplitLocation(location)
    case None => d
    case Some(p) =>
      AdjustBoth(d, p, delta, geo);
      AdjustCountry(AdjustCity(d, p, delta, geo), p.country, delta)
  }

  /** The city half leaves the country lookup where it was, so the two
      halves together change each first match once. */
  lemma AdjustBoth(d: Dataset, p: Place, delta: int, geo: Geocoder)
    ensures var r := AdjustCountry(AdjustCity(d, p, delta, geo), p.country, delta);
      && |r| == |AdjustCity(d, p, delta, geo)|
      && forall k :: 0 <= k < |d| ==>
           r[k] == (if Find(d, CityAt(CityKey(p))) == Some(k) || Find(d, CountryAt(p.country)) == Some(k)
                    then Adjust(d[k], delta) else d[k])
    ensures var r := AdjustCountry(AdjustCity(d, p, delta, geo), p.country, delta);
      |r| == |d| + 1 ==> r[|d|] == AdjustCity(d, p, delta, geo)[|d|]
  {
    var withCity := AdjustCity(d, p, delta, geo);
    assert forall k :: 0 <= k < |d| ==> (Matches(d[k], CountryAt(p.country)) <==> Matches(withCity[k], CountryAt(p.country)));
    FindAgrees(d, withCity, CountryAt(p.country));
  }

  /** Apart from aggregate counts, the two datasets hold the same records. */
  predicate SameExceptCounts(a: Dataset, b: Dataset) {
    |a| == |b| && forall k :: 0 <= k < |a| ==> a[k] == b[k] || SameButCount(a[k], b[k])
  }

  lemma SameExceptCountsWellFormed(a: Dataset, b: Dataset)
    requires WellFormed(a) && SameExceptCounts(a, b) && CountsNonNegative(b)
    ensures WellFormed(b)
  {
    forall k | 0 <= k < |a|
      ensures forall q :: Matches(a[k], q) <==> Matches(b[k], q)
      ensures a[k].Individual? ==> b[k].Individual? && b[k].name == a[k].name
      ensures a[k].City? ==> b[k].City? && b[k].location == a[k].location
      ensures a[k].Country? ==> b[k].Country? && b[k].location == a[k].location
    {
    }
  }

  /** A city is appended only under a location no city has yet. */
  lemma AppendCityWellFormed(d: Dataset, key: string, lat: real, lon: real)
    requires WellFormed(d) && Find(d, CityAt(key)).None?
    ensures WellFormed(d + [City(key, lat, lon, 1)])
  {
    var r := d + [City(key, lat, lon, 1)];
    forall i, j | 0 <= i < j < |r| && r[i].City?
      ensures !Matches(r[j], CityAt(r[i].location))
    {
      if j == |d| {
        assert !Matches(d[i], CityAt(key));
      }
    }
  }

  lemma AdjustCityWellFormed(d: Dataset, p: Place, delta: int, geo: Geocoder)
    requires WellFormed(d)
    ensures WellFormed(AdjustCity(d, p, delta, geo))
  {
    match Find(d, CityAt(CityKey(p)))
    case Some(i) =>
      SameExceptCountsWellFormed(d, d[i := Adjust(d[i], delta)]);
    case None =>
      var g := geo(p.city, p.country);
      if delta > 0 && Usable(g) {
        AppendCityWellFormed(d, CityKey(p), g.value.lat, g.value.lon);
      }
  }

  lemma AdjustCountryWellFormed(d: Dataset, country: string, delta: int)
    requires WellFormed(d)
    ensures WellFormed(AdjustCountry(d, country, delta))
  {
    match Find(d, CountryAt(country))
    case Some(i) =>
      SameExceptCountsWellFormed(d, d[i := Adjust(d[i], delta)]);
    case None =>
  }

  /** Updating aggregates keeps the dataset invariants: counts stay
      non-negative and no duplicate city or country appears. */
  lemma UpdateKeepsWellFormed(d: Dataset, location: string, delta: int, geo: Geocoder)
    requires WellFormed(d)
    ensures WellFormed(UpdateAggregateCounts(d, location, delta, geo))
  {
    match SplitLocation(location)
    case None =>
    case Some(p) =>
      AdjustCityWellFormed(d, p, delta, geo);
      AdjustCountryWellFormed(AdjustCity(d, p, delta, geo), p.country, delta);
  }

  /** The geocoder is consulted only for a positive change. */
  lemma UpdateIgnoresGeocoderUnlessAdding(d: Dataset, location: string, delta: int, g1: Geocoder, g2: Geocoder)
    requires delta <= 0
    ensures UpdateAggregateCounts(d, location, delta, g1) == UpdateAggregateCounts(d, location, delta, g2)
  {
  }

  /** The individual records and their positions are the same in `a` and
      `b`, and whatever `b` has beyond `a` is not an individual. */
  predicate SameIndividuals(a: Dataset, b: Dataset) {
    && |a| <= |b|
    && (forall k :: 0 <= k < |a| && (a[k].Individual? || b[k].Individual?) ==> a[k] == b[k])
    && (forall k :: |a| <= k < |b| ==> !b[k].Individual?)
  }

  lemma {:induction false} CountIndividualsNone(d: Dataset)
    requires forall k :: 0 <= k < |d| ==> !d[k].Individual?
    ensures CountIndividuals(d) == 0
  {
    if |d| > 0 {
      CountIndividualsNone(d[1..]);
    }
  }

  lemma {:induction false} CountIndividualsSameShape(a: Dataset, b: Dataset)
    requires |a| == |b|
    requires forall k :: 0 <= k < |a| ==> a[k].Individual? == b[k].Individual?
    ensures CountIndividuals(a) == CountIndividuals(b)
  {
    if |a| > 0 {
      CountIndividualsSameShape(a[1..], b[1..]);
    }
  }

  /** Datasets with the same individuals agree on every name lookup and on
      the number of individuals. */
  lemma SameIndividualsLookups(a: Dataset, b: Dataset, name: string)
    requires SameIndividuals(a, b)
    ensures FindIndividualByName(b, name) == FindIndividualByName(a, name)
    ensures CountIndividuals(b) == CountIndividuals(a)
  {
    FindAgrees(a, b, ByName(name));
    SameIndividualsCount(a, b);
  }

  lemma SameIndividualsCount(a: Dataset, b: Dataset)
    requires SameIndividuals(a, b)
    ensures CountIndividuals(b) == CountIndividuals(a)
  {
    var front, back := b[..|a|], b[|a|..];
    assert b == front + back;
    CountIndividualsConcat(front, back);
    CountIndividualsNone(back);
    CountIndividualsSameShape(a, front);
  }

  lemma SameIndividualsTransitive(a: Dataset, b: Dataset, c: Dataset)
    requires SameIndividuals(a, b) && SameIndividuals(b, c)
    ensures SameIndividuals(a, c)
  {
  }

  /** Aggregate updates never touch an individual record. */
  lemma UpdateKeepsIndividuals(d: Dataset, location: string, delta: int, geo: Geocoder)
    ensures SameIndividuals(d, UpdateAggregateCounts(d, location, delta, geo))
  {
    var r := UpdateAggregateCounts(d, location, delta, geo);
    if ',' in location {
      var p := SplitLocation(location).value;
      var ci := Find(d, CityAt(CityKey(p)));
      var ni := Find(d, CountryAt(p.country));
      forall k | 0 <= k < |d| && (d[k].Individual? || r[k].Individual?)
        ensures d[k] == r[k]
      {
        assert ci != Some(k) && ni != Some(k);
      }
    }
  }

  /** A +1 followed by a -1 restores a non-negative count: the clamp never
      fires on the way down. */
  lemma AdjustUpThenDown(x: Record)
    requires IsAggregate(x) && x.count >= 0
    ensures Adjust(Adjust(x, 1), -1) == x
  {
  }

  /** Where the lookups of an update land in `up`, a dataset that differs
      from `d` only in counts and possibly in one trailing city at `key`. */
  lemma LookupsAfterIncrement(d: Dataset, up: Dataset, key: string, country: string)
    requires |d| <= |up| <= |d| + 1
    requires forall k :: 0 <= k < |d| ==> up[k] == d[k] || SameButCount(d[k], up[k])
    requires |up| == |d| + 1 ==> Find(d, CityAt(key)).None? && up[|d|].City? && up[|d|].location == key
    ensures Find(up, CountryAt(country)) == Find(d, CountryAt(country))
    ensures |up| == |d| ==> Find(up, CityAt(key)) == Find(d, CityAt(key))
    ensures |up| == |d| + 1 ==> Find(up, CityAt(key)) == Some(|d|)
  {
    forall k | 0 <= k < |d|
      ensures Matches(d[k], CityAt(key)) <==> Matches(up[k], CityAt(key))
      ensures Matches(d[k], CountryAt(country)) <==> Matches(up[k], CountryAt(country))
    {
    }
    FindAgrees(d, up, CountryAt(country));
    if |up| == |d| + 1 {
      assert Matches(up[|d|], CityAt(key));
      FindUnique(up, CityAt(key), |d|);
    } else {
      FindAgrees(d, up, CityAt(key));
    }
  }

  /** Undoing a +1 with a -1 at the same location restores every aggregate
      that existed before; a city the +1 created stays, at count 0. */
  lemma UpdateUpThenDown(d: Dataset, location: string, geo: Geocoder, geo': Geocoder)
    requires CountsNonNegative(d)
    ensures var down := UpdateAggregateCounts(UpdateAggregateCounts(d, location, 1, geo), location, -1, geo');
      || down == d
      || (|down| == |d| + 1 && down[..|d|] == d && down[|d|].City? && down[|d|].count == 0)
  {
    var up := UpdateAggregateCounts(d, location, 1, geo);
    var down := UpdateAggregateCounts(up, location, -1, geo');
    UpThenDownPrefix(d, location, geo, geo');
    if |down| == |d| {
      SamePointwise(down, d);
    } else {
      SamePointwise(down[..|d|], d);
      UpThenDownCreated(d, location, geo, geo');
    }
  }

  /** After +1 then -1 every record that was there before is back. */
  lemma UpThenDownPrefix(d: Dataset, location: string, geo: Geocoder, geo': Geocoder)
    requires CountsNonNegative(d)
    ensures var up := UpdateAggregateCounts(d, location, 1, geo);
      var down := UpdateAggregateCounts(up, location, -1, geo');
      && |down| == |up| && |d| <= |down| <= |d| + 1
      && forall k :: 0 <= k < |d| ==> down[k] == d[k]
  {
    var up := UpdateAggregateCounts(d, location, 1, geo);
    var down := UpdateAggregateCounts(up, location, -1, geo');
    if ',' in location {
      var p := SplitLocation(location).value;
      var ci := Find(d, CityAt(CityKey(p)));
      var ni := Find(d, CountryAt(p.country));
      LookupsAfterIncrement(d, up, CityKey(p), p.country);
      forall k | 0 <= k < |d|
        ensures down[k] == d[k]
      {
        if ci == Some(k) || ni == Some(k) {
          AdjustUpThenDown(d[k]);
        }
      }
    }
  }

  /** A city the +1 created is left at count 0 by the -1. */
  lemma UpThenDownCreated(d: Dataset, location: string, geo: Geocoder, geo': Geocoder)
    ensures var up := UpdateAggregateCounts(d, location, 1, geo);
      var down := UpdateAggregateCounts(up, location, -1, geo');
      |up| == |d| + 1 ==> |down| == |up| && down[|d|].City? && down[|d|].count == 0
  {
    var up := UpdateAggregateCounts(d, location, 1, geo);
    if ',' in location && |up| == |d| + 1 {
      var p := SplitLocation(location).value;
      LookupsAfterIncrement(d, up, CityKey(p), p.country);
    }
  }

  /** An individual record at the end of the dataset is invisible to an
      aggregate update: updating and then deleting it is updating without it. */
  lemma UpdateIgnoresTrailingIndividual(d: Dataset, e: Record, location: string, delta: int, geo: Geocoder)
    requires e.Individual?
    ensures RemoveAt(UpdateAggregateCounts(d + [e], location, delta, geo), |d|)
         == UpdateAggregateCounts(d, location, delta, geo)
  {
    TrailingIndividualHead(d, e, location, delta, geo);
    TrailingIndividualTail(d, e, location, delta, geo);
    DropAt(UpdateAggregateCounts(d + [e], location, delta, geo), UpdateAggregateCounts(d, location, delta, geo), |d|);
  }

  lemma TrailingIndividualHead(d: Dataset, e: Record, location: string, delta: int, geo: Geocoder)
    requires e.Individual?
    ensures var ra := UpdateAggregateCounts(d + [e], location, delta, geo);
      var rd := UpdateAggregateCounts(d, location, delta, geo);
      |ra| == |rd| + 1 && forall k :: 0 <= k < |d| ==> ra[k] == rd[k]
  {
    TrailingIndividualLength(d, e, location, delta, geo);
    TrailingIndividualPrefix(d, e, location, delta, geo);
  }

  lemma TrailingIndividualLength(d: Dataset, e: Record, location: string, delta: int, geo: Geocoder)
    requires e.Individual?
    ensures |UpdateAggregateCounts(d + [e], location, delta, geo)| == |UpdateAggregateCounts(d, location, delta, geo)| + 1
  {
    var a := d + [e];
    if ',' in location {
      FindAppend(d, e, CityAt(CityKey(SplitLocation(location).value)));
    }
  }

  lemma TrailingIndividualPrefix(d: Dataset, e: Record, location: string, delta: int, geo: Geocoder)
    requires e.Individual?
    ensures var ra := UpdateAggregateCounts(d + [e], location, delta, geo);
      var rd := UpdateAggregateCounts(d, location, delta, geo);
      |d| <= |ra| && |d| <= |rd| && forall k :: 0 <= k < |d| ==> ra[k] == rd[k]
  {
    var a := d + [e];
    var ra := UpdateAggregateCounts(a, location, delta, geo);
    var rd := UpdateAggregateCounts(d, location, delta, geo);
    if ',' in location {
      var p := SplitLocation(location).value;
      FindAgrees(d, a, CityAt(CityKey(p)));
      FindAgrees(d, a, CountryAt(p.country));
      forall k | 0 <= k < |d|
        ensures ra[k] == rd[k]
      {
        assert a[k] == d[k];
      }
    }
  }

  lemma TrailingIndividualTail(d: Dataset, e: Record, location: string, delta: int, geo: Geocoder)
    requires e.Individual?
    ensures var ra := UpdateAggregateCounts(d + [e], location, delta, geo);
      var rd := UpdateAggregateCounts(d, location, delta, geo);
      |ra| == |d| + 1 + (|rd| - |d|) && (|rd| == |d| + 1 ==> ra[|d| + 1] == rd[|d|])
  {
    var a := d + [e];
    if ',' in location {
      FindAppend(d, e, CityAt(CityKey(SplitLocation(location).value)));
    }
  }

  lemma DropAt(long: Dataset, short: Dataset, i: nat)
    requires i < |long| && |long| == |short| + 1
    requires forall k :: 0 <= k < i ==> long[k] == short[k]
    requires forall k :: i <= k < |short| ==> long[k + 1] == short[k]
    ensures RemoveAt(long, i) == short
  {
  }
}
