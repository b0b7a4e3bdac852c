/**
 The submission side of the script: splitting the free-text "City and
 Country" answer, reading the consent answer as an action, composing the
 full name and the affiliation, and the checks `main` makes before it
 touches the dataset.
 */
module Intake {
  import opened Wrappers
  import opened Text
  import opened Records
  import opened Aggregates
  import opened Reconcile

  /** `parse_city_country`: with a comma, split at the first comma; without
      one, split at the last space; with neither, the whole text is the city.
      Both parts are stripped. */
  function ParseCityCountry(text: string): (r: (string, string))
    ensures Trimmed(r.0) && Trimmed(r.1)
    ensures ',' in text ==> exists i :: 0 <= i < |text| && text[i] == ',' && ',' !in text[..i]
                                        && r == (Strip(text[..i]), Strip(text[i + 1..]))
    ensures ',' !in text && ' ' in text ==> exists j :: 0 <= j < |text| && text[j] == ' ' && ' ' !in text[j + 1..]
                                                         && r == (Strip(text[..j]), Strip(text[j + 1..]))
    ensures ',' !in text && ' ' !in text ==> r == (Strip(text), "")
  {
    match IndexOf(text, ',')
    case Some(i) =>
      assert text[i] == ',' && ',' !in text[..i];
      (Strip(text[..i]), Strip(text[i + 1..]))
    case None =>
      match LastIndexOf(text, ' ')
      case Some(j) =>
        assert text[j] == ' ' && ' ' !in text[j + 1..];
        (Strip(text[..j]), Strip(text[j + 1..]))
      case None => (Strip(text), "")
  }

  /** The city read from the answer never contains a comma, and neither does
      the country when the answer had none. */
  lemma ParsedCityHasNoComma(text: string)
    ensures ',' !in ParseCityCountry(text).0
    ensures ',' !in text ==> ',' !in ParseCityCountry(text).1
  {
    match IndexOf(text, ',')
    case Some(i) =>
      StripKeeps(text[..i], ',');
    case None =>
      match LastIndexOf(text, ' ')
      case Some(j) =>
        assert forall c :: c in text[..j] ==> c in text;
        assert forall c :: c in text[j + 1..] ==> c in text;
        StripKeeps(text[..j], ',');
        StripKeeps(text[j + 1..], ',');
      case None =>
        StripKeeps(text, ',');
  }

  /** An answer written "City, Country" is read back as that city and
      country, provided the city has no comma and neither part has
      surrounding blanks; the country may itself contain commas. */
  lemma ParseCommaForm(city: string, country: string)
    requires ',' !in city && Trimmed(city) && Trimmed(country)
    ensures ParseCityCountry(LocationOf(city, country)) == (city, country)
  {
    ParseCommaText(city, country);
    StripTrimmed(city);
    StripAfterBlank(country);
  }

  /** "City, Country" with a comma-free city is split right after the city. */
  lemma ParseCommaText(city: string, country: string)
    requires ',' !in city
    ensures ParseCityCountry(LocationOf(city, country)) == (Strip(city), Strip(" " + country))
  {
    var text := LocationOf(city, country);
    ComposedLocationPieces(city, country);
    IndexOfAt(text, ',', |city|);
    ParseAtComma(text, |city|);
  }

  /** With its first comma at `i`, the answer is split there. */
  lemma ParseAtComma(text: string, i: nat)
    requires IndexOf(text, ',') == Some(i)
    ensures ParseCityCountry(text) == (Strip(text[..i]), Strip(text[i + 1..]))
  {
  }

  /** Without a comma, the last space separates city and country: a
      multi-word city keeps its inner spaces. */
  lemma ParseSpaceForm(city: string, country: string)
    requires ',' !in city && ',' !in country && ' ' !in country && Trimmed(country)
    ensures ParseCityCountry(city + " " + country) == (Strip(city), country)
  {
    var text := city + " " + country;
    assert text[..|city|] == city;
    assert text[|city| + 1..] == country;
    assert ',' !in text by {
      assert forall k :: 0 <= k < |text| ==> text[k] == (if k < |city| then city[k] else if k == |city| then ' ' else country[k - |city| - 1]);
    }
    LastIndexOfAt(text, ' ', |city|);
    StripTrimmed(country);
  }

  /** Without a comma, a trailing blank is the last space: the answer splits
      there and the country comes out empty. */
  lemma ParseTrailingSpace(city: string)
    requires ',' !in city && Trimmed(city)
    ensures ParseCityCountry(city + " ") == (city, "")
  {
    var text := city + " ";
    assert text[..|city|] == city;
    assert text[|city| + 1..] == [];
    assert ',' !in text by {
      assert forall k :: 0 <= k < |text| ==> text[k] == (if k < |city| then city[k] else ' ');
    }
    LastIndexOfAt(text, ' ', |city|);
    StripTrimmed(city);
    StripTrimmed([]);
  }

  /** What the consent answer asks for. */
  datatype Action = Anonymous | Visible | RemoveAll | RemoveMap

  /** `determine_action`: keyword search in the lower-cased answer, in a
      fixed order of precedence, defaulting to a visible entry. */
  function DetermineAction(consent: string): (a: Action)
    ensures var text := Lower(consent);
      a == Anonymous <==> Contains(text, "anonymously") || Contains(text, "count only")
    ensures var text := Lower(consent);
      a == RemoveAll <==> !Contains(text, "anonymously") && !Contains(text, "count only")
                          && !Contains(text, "display") && !Contains(text, "title") && !Contains(text, "affiliation")
                          && Contains(text, "remove") && Contains(text, "directory")
    ensures var text := Lower(consent);
      a == RemoveMap <==> !Contains(text, "anonymously") && !Contains(text, "count only")
                          && !Contains(text, "display") && !Contains(text, "title") && !Contains(text, "affiliation")
                          && Contains(text, "remove") && !Contains(text, "directory")
  {
    var text := Lower(consent);
    if Contains(text, "anonymously") || Contains(text, "count only") then Anonymous
    else if Contains(text, "display") || Contains(text, "title") || Contains(text, "affiliation") then Visible
    else if Contains(text, "remove") && Contains(text, "directory") then RemoveAll
    else if Contains(text, "remove") then RemoveMap
    else Visible
  }

  /** The consent keywords as a table: the first rule that fires decides. */
  datatype Rule =
    | AnyOf(words: seq<string>, action: Action)  // fires when one of the words occurs
    | AllOf(words: seq<string>, action: Action)  // fires when every word occurs

  const ConsentRules: seq<Rule> := [
    AnyOf(["anonymously", "count only"], Anonymous),
    AnyOf(["display", "title", "affiliation"], Visible),
    AllOf(["remove", "directory"], RemoveAll),
    AllOf(["remove"], RemoveMap)
  ]

  predicate Fires(rule: Rule, text: string) {
    match rule
    case AnyOf(words, _) => exists k :: 0 <= k < |words| && Contains(text, words[k])
    case AllOf(words, _) => forall k :: 0 <= k < |words| ==> Contains(text, words[k])
  }

  /** The action of the first rule that fires, or `default`. */
  function FirstFiring(rules: seq<Rule>, text: string, default: Action): Action
  {
    if |rules| == 0 then default
    else if Fires(rules[0], text) then rules[0].action
    else FirstFiring(rules[1..], text, default)
  }

  /** The chain of tests in `determine_action` is the keyword table read
      top to bottom, with a visible entry as the fallback. */
  lemma DetermineActionFollowsTable(consent: string)
    ensures DetermineAction(consent) == FirstFiring(ConsentRules, Lower(consent), Visible)
  {
    var text := Lower(consent);
    var r0 := ConsentRules;
    var r1, r2, r3 := r0[1..], r0[2..], r0[3..];
    assert r0[1..][1..] == r2 && r2[1..] == r3 && r3[1..] == [];
    assert Fires(r0[0], text) <==> Contains(text, "anonymously") || Contains(text, "count only") by {
      var w := r0[0].words;
      assert w == ["anonymously", "count only"];
      assert |w| == 2 && w[0] == "anonymously" && w[1] == "count only";
    }
    assert Fires(r1[0], text) <==> Contains(text, "display") || Contains(text, "title") || Contains(text, "affiliation") by {
      var w := r1[0].words;
      assert w == ["display", "title", "affiliation"];
      assert |w| == 3 && w[0] == "display" && w[1] == "title" && w[2] == "affiliation";
    }
    assert Fires(r2[0], text) <==> Contains(text, "remove") && Contains(text, "directory") by {
      var w := r2[0].words;
      assert w == ["remove", "directory"];
      assert |w| == 2 && w[0] == "remove" && w[1] == "directory";
    }
    assert Fires(r3[0], text) <==> Contains(text, "remove") by {
      var w := r3[0].words;
      assert w == ["remove"];
      assert |w| == 1 && w[0] == "remove";
    }
    assert FirstFiring(r3, text, Visible) == (if Contains(text, "remove") then RemoveMap else Visible);
    assert FirstFiring(r2, text, Visible) == (if Fires(r2[0], text) then RemoveAll else FirstFiring(r3, text, Visible));
    assert FirstFiring(r1, text, Visible) == (if Fires(r1[0], text) then Visible else FirstFiring(r2, text, Visible));
    assert FirstFiring(r0, text, Visible) == (if Fires(r0[0], text) then Anonymous else FirstFiring(r1, text, Visible));
  }

  /** The full name: first name and surname, each stripped, joined by a
      space, and stripped again. */
  function FullName(firstName: string, surname: string): (n: string)
    ensures n == (if Strip(firstName) == "" then Strip(surname)
                  else if Strip(surname) == "" then Strip(firstName)
                  else Strip(firstName) + " " + Strip(surname))
    ensures n == "" <==> AllSpace(firstName) && AllSpace(surname)
  {
    JoinStripped(Strip(firstName), Strip(surname));
    Strip(Strip(firstName) + " " + Strip(surname))
  }

  /** Stripping two trimmed words joined by a space drops the space when
      either word is empty. */
  lemma JoinStripped(f: string, s: string)
    requires Trimmed(f) && Trimmed(s)
    ensures Strip(f + " " + s) == (if f == "" then s else if s == "" then f else f + " " + s)
  {
    var joined := f + " " + s;
    if f == "" {
      assert joined == " " + s;
      StripAfterBlank(s);
    } else if s == "" {
      StripFrame("", f, " ");
      assert "" + f + " " == joined;
    } else {
      StripTrimmed(joined);
    }
  }

  /** The affiliation passed on for a visible entry: "department,
      affiliation" when both are given, else whichever one is. */
  function ComposeAffiliation(affiliation: string, department: string): (a: string)
    ensures a == "" <==> affiliation == "" && department == ""
    ensures |a| == |affiliation| + |department| + (if affiliation != "" && department != "" then 2 else 0)
    ensures department != "" ==> department <= a
    ensures affiliation != "" ==> a[|a| - |affiliation|..] == affiliation
    ensures affiliation != "" && department != "" ==> a[|department|..|department| + 2] == ", "
  {
    if department != "" && affiliation != "" then department + ", " + affiliation
    else if affiliation != "" then affiliation
    else department
  }

  /** The answers of one form submission, already extracted from the
      payload; a missing answer is the empty string. */
  datatype Submission = Submission(
    consent: string,
    firstName: string,
    surname: string,
    title: string,
    affiliation: string,
    department: string,
    cityCountry: string,
    interests: string)

  /** Why a run stops before changing anything. */
  datatype Abort = NameRequired | LocationRequired

  /** The part of `main` between reading the submission and saving the
      dataset: validate, dispatch on the action, reconcile. A failure means
      the snapshot is not written. */
  function ProcessSubmission(sub: Submission, d: Dataset, geo: Geocoder): (r: Result<Dataset, Abort>)
    ensures r == Failure(NameRequired) <==> AllSpace(sub.firstName) && AllSpace(sub.surname)
    ensures var place := ParseCityCountry(sub.cityCountry);
      var action := DetermineAction(sub.consent);
      r == Failure(LocationRequired) <==>
        && FullName(sub.firstName, sub.surname) != ""
        && (action == Anonymous || action == Visible)
        && (place.0 == "" || place.1 == "")
    // the removal actions never abort once there is a name, and both do the same thing
    ensures var action := DetermineAction(sub.consent);
      FullName(sub.firstName, sub.surname) != "" && (action == RemoveAll || action == RemoveMap) ==>
        r == Success(RemoveFromMap(d, FullName(sub.firstName, sub.surname)))
    // an add action with a name and a complete location dispatches the parsed parts
    ensures var (city, country) := ParseCityCountry(sub.cityCountry);
      var name := FullName(sub.firstName, sub.surname);
      name != "" && city != "" && country != "" && DetermineAction(sub.consent) == Visible ==>
        r == Success(AddIndividualVisible(d, name, sub.title, ComposeAffiliation(sub.affiliation, sub.department),
                                          city, country, sub.interests, geo))
    ensures var (city, country) := ParseCityCountry(sub.cityCountry);
      var name := FullName(sub.firstName, sub.surname);
      name != "" && city != "" && country != "" && DetermineAction(sub.consent) == Anonymous ==>
        r == Success(AddAnonymous(d, name, city, country, geo))
  {
    var name := FullName(sub.firstName, sub.surname);
    if name == "" then Failure(NameRequired)
    else
      var (city, country) := ParseCityCountry(sub.cityCountry);
      match DetermineAction(sub.consent)
      case Anonymous =>
        if city == "" || country == "" then Failure(LocationRequired)
        else Success(AddAnonymous(d, name, city, country, geo))
      case Visible =>
        if city == "" || country == "" then Failure(LocationRequired)
        else
          Success(AddIndividualVisible(d, name, sub.title, ComposeAffiliation(sub.affiliation, sub.department),
                                       city, country, sub.interests, geo))
      case RemoveMap => Success(RemoveFromMap(d, name))
      case RemoveAll => Success(RemoveFromMap(d, name))
  }

  /** A successful run keeps the dataset invariants, and afterwards the
      person is on the map exactly when the consent answer asked for a
      visible entry. */
  lemma ProcessSubmissionOutcome(sub: Submission, d: Dataset, geo: Geocoder)
    requires WellFormed(d)
    ensures var r := ProcessSubmission(sub, d, geo);
      r.Success? ==>
        && WellFormed(r.value)
        && (FindIndividualByName(r.value, FullName(sub.firstName, sub.surname)).Some?
            <==> DetermineAction(sub.consent) == Visible)
  {
    var name := FullName(sub.firstName, sub.surname);
    if name != "" {
      var (city, country) := ParseCityCountry(sub.cityCountry);
      match DetermineAction(sub.consent)
      case Anonymous =>
        AddAnonymousKeepsWellFormed(d, name, city, country, geo);
      case Visible =>
        AddVisibleKeepsWellFormed(d, name, sub.title, ComposeAffiliation(sub.affiliation, sub.department),
                                  city, country, sub.interests, geo);
      case RemoveMap =>
        RemoveFromMapKeepsWellFormed(d, name);
      case RemoveAll =>
        RemoveFromMapKeepsWellFormed(d, name);
    }
  }
}
