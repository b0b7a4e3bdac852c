/**
 The map dataset: an ordered list of tagged records (the JSON array the
 script loads), the first-match lookups every action starts with, and the
 consistency invariant the actions are meant to keep.
 */
module Records {
  import opened Wrappers
  import opened Text

  /** A latitude/longitude pair. Floating point is not modelled: the values
      are reals and only their being zero matters anywhere. */
  datatype Coords = Coords(lat: real, lon: real)

  /** The external location search: `(city, country)` to coordinates, or
      `None` on any failure. */
  type Geocoder = (string, string) -> Option<Coords>

  /** One element of the dataset, discriminated by its `type` field.
      `Other` is an element whose `type` is none of the three known ones;
      every lookup skips it. */
  datatype Record =
    | Individual(location: string, lat: real, lon: real, count: int,
                 name: string, affiliation: string, interests: string)
    | City(location: string, lat: real, lon: real, count: int)
    | Country(location: string, lat: real, lon: real, count: int)
    | Other

  type Dataset = seq<Record>

  predicate IsAggregate(r: Record) {
    r.City? || r.Country?
  }

  /** The key an individual is looked up by: lower-cased, then stripped. */
  function NameKey(name: string): string {
    Strip(Lower(name))
  }

  /** What the three linear scans of the script look for. */
  datatype Query =
    | ByName(name: string)        // an individual with this name, ignoring case and surrounding blanks
    | CityAt(location: string)    // a city whose location equals this one, ignoring case
    | CountryAt(country: string)  // a country whose location equals this one, ignoring case

  predicate Matches(r: Record, q: Query) {
    match q
    case ByName(name) => r.Individual? && NameKey(r.name) == NameKey(name)
    case CityAt(location) => r.City? && Lower(r.location) == Lower(location)
    case CountryAt(country) => r.Country? && Lower(r.location) == Lower(country)
  }

  /** Index of the first record matching `q`, as a `for` loop with an early
      `return` finds it. */
  function Find(d: Dataset, q: Query): (r: Option<nat>)
    ensures r.Some? ==> r.value < |d| && Matches(d[r.value], q)
    ensures r.Some? ==> forall k :: 0 <= k < r.value ==> !Matches(d[k], q)
    ensures r.None? <==> forall k :: 0 <= k < |d| ==> !Matches(d[k], q)
  {
    FindFrom(d, q, 0)
  }

  /** The loop of `Find` from position `i` on. */
  function FindFrom(d: Dataset, q: Query, i: nat): (r: Option<nat>)
    requires i <= |d|
    ensures r.Some? ==> i <= r.value < |d| && Matches(d[r.value], q)
    ensures r.Some? ==> forall k :: i <= k < r.value ==> !Matches(d[k], q)
    ensures r.None? <==> forall k :: i <= k < |d| ==> !Matches(d[k], q)
    decreases |d| - i
  {
    if i == |d| then None
    else if Matches(d[i], q) then Some(i)
    else FindFrom(d, q, i + 1)
  }

  /** Two datasets that agree on which positions match `q` (and where the
      longer one matches nowhere beyond the shorter) give the same answer. */
  lemma FindAgrees(a: Dataset, b: Dataset, q: Query)
    requires |a| <= |b|
    requires forall k :: 0 <= k < |a| ==> (Matches(a[k], q) <==> Matches(b[k], q))
    requires forall k :: |a| <= k < |b| ==> !Matches(b[k], q)
    ensures Find(a, q) == Find(b, q)
  {
    var fa, fb := Find(a, q), Find(b, q);
    if fa.Some? {
      var i := fa.value;
      assert Matches(b[i], q);
      var j := fb.value;
      assert j <= i;
      assert Matches(a[j], q);
      assert j == i;
    } else {
      forall k | 0 <= k < |b| ensures !Matches(b[k], q) {
        if k < |a| { assert !Matches(a[k], q); }
      }
      assert fb.None?;
    }
  }

  /** Appending a record that does not match leaves the answer unchanged. */
  lemma FindAppend(d: Dataset, e: Record, q: Query)
    requires !Matches(e, q)
    ensures Find(d + [e], q) == Find(d, q)
  {
    FindAgrees(d, d + [e], q);
  }

  /** A record whose position is the only match is the one found. */
  lemma FindUnique(d: Dataset, q: Query, i: nat)
    requires i < |d| && Matches(d[i], q)
    requires forall k :: 0 <= k < |d| && k != i ==> !Matches(d[k], q)
    ensures Find(d, q) == Some(i)
  {
  }

  /** `find_individual_by_name` */
  function FindIndividualByName(d: Dataset, name: string): (r: Option<nat>)
    ensures r.Some? ==> r.value < |d| && d[r.value].Individual?
                        && NameKey(d[r.value].name) == NameKey(name)
    ensures r.Some? ==> forall k :: 0 <= k < r.value ==> !Matches(d[k], ByName(name))
    ensures r.None? <==> forall k :: 0 <= k < |d| && d[k].Individual? ==> NameKey(d[k].name) != NameKey(name)
  {
    Find(d, ByName(name))
  }

  /** `del d[i]` */
  function RemoveAt(d: Dataset, i: nat): (r: Dataset)
    requires i < |d|
    ensures |r| == |d| - 1
    ensures forall k :: 0 <= k < i ==> r[k] == d[k]
    ensures forall k :: i <= k < |r| ==> r[k] == d[k + 1]
  {
    d[..i] + d[i + 1..]
  }

  /** Two datasets with the same records at every position are equal. */
  lemma SamePointwise(a: Dataset, b: Dataset)
    requires |a| == |b| && forall k :: 0 <= k < |a| ==> a[k] == b[k]
    ensures a == b
  {
  }

  /** A dataset that extends `b` by the record `x` is `b + [x]`. */
  lemma AppendPointwise(a: Dataset, b: Dataset, x: Record)
    requires |a| == |b| + 1 && a[|b|] == x && forall k :: 0 <= k < |b| ==> a[k] == b[k]
    ensures a == b + [x]
  {
  }

  /** Number of individual records. */
  function CountIndividuals(d: Dataset): (n: nat)
    ensures n <= |d|
  {
    if |d| == 0 then 0 else (if d[0].Individual? then 1 else 0) + CountIndividuals(d[1..])
  }

  lemma {:induction false} CountIndividualsConcat(a: Dataset, b: Dataset)
    ensures CountIndividuals(a + b) == CountIndividuals(a) + CountIndividuals(b)
  {
    if |a| == 0 {
      assert a + b == b;
    } else {
      assert (a + b)[1..] == a[1..] + b;
      CountIndividualsConcat(a[1..], b);
    }
  }

  lemma CountIndividualsSplit(d: Dataset, i: nat)
    requires i < |d|
    ensures CountIndividuals(d) == CountIndividuals(d[..i]) + (if d[i].Individual? then 1 else 0) + CountIndividuals(d[i + 1..])
  {
    var rest := d[i + 1..];
    assert d == d[..i] + ([d[i]] + rest);
    CountIndividualsConcat(d[..i], [d[i]] + rest);
    CountIndividualsCons(d[i], rest);
  }

  lemma CountIndividualsCons(x: Record, rest: Dataset)
    ensures CountIndividuals([x] + rest) == (if x.Individual? then 1 else 0) + CountIndividuals(rest)
  {
    assert ([x] + rest)[1..] == rest;
  }

  /** Replacing a record by one of the same individual-ness keeps the number
      of individuals. */
  lemma CountIndividualsReplace(d: Dataset, i: nat, x: Record)
    requires i < |d|
    requires x.Individual? == d[i].Individual?
    ensures CountIndividuals(d[i := x]) == CountIndividuals(d)
  {
    CountIndividualsSplit(d, i);
    CountIndividualsSplit(d[i := x], i);
    assert d[i := x][..i] == d[..i];
    assert d[i := x][i + 1..] == d[i + 1..];
  }

  /** Deleting an individual removes exactly one from the tally. */
  lemma CountIndividualsRemove(d: Dataset, i: nat)
    requires i < |d|
    ensures CountIndividuals(RemoveAt(d, i)) == CountIndividuals(d) - (if d[i].Individual? then 1 else 0)
  {
    CountIndividualsSplit(d, i);
    CountIndividualsConcat(d[..i], d[i + 1..]);
  }

  /** Aggregate counts are never negative. */
  predicate CountsNonNegative(d: Dataset) {
    forall k :: 0 <= k < |d| && IsAggregate(d[k]) ==> d[k].count >= 0
  }

  /** At most one individual per case-insensitive trimmed name. */
  predicate UniqueIndividuals(d: Dataset) {
    forall i, j :: 0 <= i < j < |d| && d[i].Individual? ==> !Matches(d[j], ByName(d[i].name))
  }

  /** At most one city per case-insensitive location string. */
  predicate UniqueCities(d: Dataset) {
    forall i, j :: 0 <= i < j < |d| && d[i].City? ==> !Matches(d[j], CityAt(d[i].location))
  }

  /** At most one country per case-insensitive name. */
  predicate UniqueCountries(d: Dataset) {
    forall i, j :: 0 <= i < j < |d| && d[i].Country? ==> !Matches(d[j], CountryAt(d[i].location))
  }

  /** The dataset invariants of the data model. */
  predicate WellFormed(d: Dataset) {
    CountsNonNegative(d) && UniqueIndividuals(d) && UniqueCities(d) && UniqueCountries(d)
  }

  /** With unique names, the individual found is the only one of that name. */
  lemma FoundIndividualIsOnly(d: Dataset, name: string, i: nat)
    requires UniqueIndividuals(d)
    requires FindIndividualByName(d, name) == Some(i)
    ensures forall k :: 0 <= k < |d| && k != i ==> !Matches(d[k], ByName(name))
  {
    forall k | 0 <= k < |d| && k != i
      ensures !Matches(d[k], ByName(name))
    {
      if k > i {
        assert !Matches(d[k], ByName(d[i].name));
      }
    }
  }

  /** Deleting a record keeps every invariant. */
  lemma RemoveAtWellFormed(d: Dataset, i: nat)
    requires i < |d| && WellFormed(d)
    ensures WellFormed(RemoveAt(d, i))
  {
    var r := RemoveAt(d, i);
    forall a, b | 0 <= a < b < |r|
      ensures r[a] == d[if a < i then a else a + 1] && r[b] == d[if b < i then b else b + 1]
    {
    }
  }

  /** With unique names, deleting the person found leaves nobody of that name. */
  lemma RemoveFoundIndividual(d: Dataset, name: string, i: nat)
    requires UniqueIndividuals(d)
    requires FindIndividualByName(d, name) == Some(i)
    ensures FindIndividualByName(RemoveAt(d, i), name).None?
  {
    FoundIndividualIsOnly(d, name, i);
  }
}
