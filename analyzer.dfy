/**
  The phone-number analyzer: a validated number is classified by its STD
  (area) code, tried at each configured prefix length in order, and by its
  operator prefix (two digits before three), and the display record is
  assembled. The lookup tables are parameters.
 */
module Analyzer {

  import opened Wrappers
  import opened Validator

  const Unknown: string := "Unknown"
  const NoStdCode: string := "N/A"

  /** A latitude/longitude pair, carried through unchanged. */
  datatype Coordinates = Coordinates(lat: real, lng: real)

  /** One entry of the city table, keyed by STD code. */
  datatype CityInfo = CityInfo(city: string, state: string, circle: string, coordinates: Coordinates)

  /** The `india` section of the configuration. */
  datatype IndiaConfig = IndiaConfig(
    mobilePrefixes: seq<string>,
    stdLengths: seq<nat>,
    cities: map<string, CityInfo>,
    operators: map<string, string>)

  datatype PhoneNumber = PhoneNumber(
    raw: string,
    clean: string,
    formatted: string,
    international: string,
    national: string)

  datatype Location = Location(
    city: string,
    state: string,
    circle: string,
    stdCode: string,
    coordinates: Option<Coordinates>)

  datatype Analysis =
    | Failure(error: string)
    | Success(phoneNumber: PhoneNumber, location: Location, operator: string)

  /** `s.substring(0, n)`: the first `n` characters, or all of `s` when it is shorter. */
  function Prefix(s: string, n: nat): (r: string)
    ensures r <= s
    ensures |r| == if n < |s| then n else |s|
  {
    if n < |s| then s[..n] else s
  }

  // ---------------------------------------------------------------------
  // STD code resolution
  // ---------------------------------------------------------------------

  /** The first configured length whose prefix of `number` is a key of `cities`. */
  function StdLookup(number: string, lengths: seq<nat>, cities: map<string, CityInfo>): (r: Option<string>)
    ensures r.None? <==> forall i :: 0 <= i < |lengths| ==> Prefix(number, lengths[i]) !in cities
    ensures r.Some? ==>
              exists i :: 0 <= i < |lengths| && r.value == Prefix(number, lengths[i]) && r.value in cities
                          && forall j :: 0 <= j < i ==> Prefix(number, lengths[j]) !in cities
  {
    if |lengths| == 0 then None
    else if Prefix(number, lengths[0]) in cities then Some(Prefix(number, lengths[0]))
    else
      var r := StdLookup(number, lengths[1..], cities);
      assert forall i :: 1 <= i < |lengths| ==> lengths[i] == lengths[1..][i - 1];
      r
  }

  /** The `for … of` loop over `stdLengths` with its early `break`. */
  method ResolveStdCode(number: string, stdLengths: seq<nat>, cities: map<string, CityInfo>)
    returns (stdCode: string, cityData: Option<CityInfo>)
    ensures cityData.Some? ==> stdCode in cities && cityData.value == cities[stdCode]
    ensures match StdLookup(number, stdLengths, cities)
            case None => stdCode == "" && cityData == None
            case Some(code) => stdCode == code && cityData == Some(cities[code])
  {
    stdCode := "";
    cityData := None;
    for i := 0 to |stdLengths|
      invariant stdCode == "" && cityData == None
      invariant forall j :: 0 <= j < i ==> Prefix(number, stdLengths[j]) !in cities
    {
      var code := Prefix(number, stdLengths[i]);
      if code in cities {
        stdCode := code;
        cityData := Some(cities[code]);
        break;
      }
    }
  }

  /** Lengths listed longest first, as in (4, 3, 2). */
  predicate Descending(lengths: seq<nat>) {
    forall a, b :: 0 <= a < b < |lengths| ==> lengths[a] >= lengths[b]
  }

  /** With lengths in descending order, the resolved STD code is at least as long
      as every configured prefix that is a key of the table. */
  lemma {:induction false} StdLookupIsLongest(number: string, lengths: seq<nat>, cities: map<string, CityInfo>, i: nat)
    requires Descending(lengths)
    requires i < |lengths| && Prefix(number, lengths[i]) in cities
    ensures StdLookup(number, lengths, cities).Some?
    ensures |Prefix(number, lengths[i])| <= |StdLookup(number, lengths, cities).value|
  {
    var r := StdLookup(number, lengths, cities);
    var k :| 0 <= k < |lengths| && r.value == Prefix(number, lengths[k]) && r.value in cities
             && forall j :: 0 <= j < k ==> Prefix(number, lengths[j]) !in cities;
    assert k <= i;
    assert lengths[k] >= lengths[i];
  }

  /** The longest-prefix example: with codes "11" and "1123" and lengths (4, 3, 2), "1123000000" resolves to "1123". */
  lemma LongestCodeWinsExample(c11: CityInfo, c1123: CityInfo)
    ensures StdLookup("1123000000", [4, 3, 2], map["11" := c11, "1123" := c1123]) == Some("1123")
  {
    var cities := map["11" := c11, "1123" := c1123];
    assert Prefix("1123000000", 4) == "1123";
  }

  /** Tried shortest first, the same table resolves to the shorter code: the order of `stdLengths` decides. */
  lemma ShortestFirstExample(c11: CityInfo, c1123: CityInfo)
    ensures StdLookup("1123000000", [2, 3, 4], map["11" := c11, "1123" := c1123]) == Some("11")
  {
    assert Prefix("1123000000", 2) == "11";
  }

  // ---------------------------------------------------------------------
  // Operator resolution
  // ---------------------------------------------------------------------

  /** `operators[key]` is truthy: the key is present and its name is not the empty string. */
  predicate HasOperator(operators: map<string, string>, key: string): (b: bool)
    ensures b ==> key in operators && |operators[key]| > 0
    ensures key !in operators ==> !b
  {
    key in operators && operators[key] != ""
  }

  /** The operator chain: two-digit prefix, else three-digit prefix, else "Unknown". */
  function OperatorOf(number: string, operators: map<string, string>): (r: string)
    ensures r != ""
    ensures r == Unknown || r in operators.Values
    ensures r == Unknown <== !HasOperator(operators, Prefix(number, 2)) && !HasOperator(operators, Prefix(number, 3))
  {
    var firstTwo := Prefix(number, 2);
    var firstThree := Prefix(number, 3);
    if HasOperator(operators, firstTwo) then operators[firstTwo]
    else if HasOperator(operators, firstThree) then operators[firstThree]
    else Unknown
  }

  /** A two-digit entry shadows every three-digit entry that extends it. */
  lemma TwoDigitOperatorShadows(number: string, operators: map<string, string>)
    requires HasOperator(operators, Prefix(number, 2))
    ensures OperatorOf(number, operators) == operators[Prefix(number, 2)]
  {
  }

  /** The three-digit entry is consulted only when no two-digit entry applies. */
  lemma ThreeDigitOperatorFallback(number: string, operators: map<string, string>)
    requires !HasOperator(operators, Prefix(number, 2)) && HasOperator(operators, Prefix(number, 3))
    ensures OperatorOf(number, operators) == operators[Prefix(number, 3)]
  {
  }

  /** Longest-prefix operator resolution: three digits before two. */
  function LongestOperatorOf(number: string, operators: map<string, string>): (r: string)
    ensures HasOperator(operators, Prefix(number, 3)) ==> r == operators[Prefix(number, 3)]
  {
    var firstTwo := Prefix(number, 2);
    var firstThree := Prefix(number, 3);
    if HasOperator(operators, firstThree) then operators[firstThree]
    else if HasOperator(operators, firstTwo) then operators[firstTwo]
    else Unknown
  }

  /** The two-first chain agrees with longest-prefix resolution exactly when the two
      entries do not both apply with different names. */
  lemma OperatorAgreesWithLongest(number: string, operators: map<string, string>)
    ensures OperatorOf(number, operators) == LongestOperatorOf(number, operators) <==>
              (HasOperator(operators, Prefix(number, 2)) && HasOperator(operators, Prefix(number, 3))
               ==> operators[Prefix(number, 2)] == operators[Prefix(number, 3)])
  {
  }

  /** A concrete table on which the two-first chain differs from longest-prefix resolution. */
  lemma OperatorNotLongestFirstExample()
    ensures OperatorOf("9810000000", map["98" := "A", "981" := "B"]) == "A"
    ensures LongestOperatorOf("9810000000", map["98" := "A", "981" := "B"]) == "B"
  {
    assert Prefix("9810000000", 2) == "98";
    assert Prefix("9810000000", 3) == "981";
  }

  // ---------------------------------------------------------------------
  // Display formats
  // ---------------------------------------------------------------------

  /** `+91 XXXXX XXXXX`. */
  function International(number: string): (r: string)
    requires |number| == 10
    ensures |r| == 15 && InternationalPrefix <= r
    ensures r[..4] == InternationalPrefix + " " && r[4..9] == number[..5]
    ensures r[9] == ' ' && r[10..] == number[5..]
  {
    InternationalPrefix + " " + number[..5] + " " + number[5..]
  }

  /** `0XXXXXXXXXX`. */
  function National(number: string): (r: string)
    ensures |r| == |number| + 1 && r[0] == '0' && r[1..] == number
  {
    TrunkPrefix + number
  }

  /** The international display form normalises back to the number it was built from. */
  lemma {:induction false} InternationalNormalizes(number: string)
    requires IsTenDigits(number)
    ensures RemoveSeparators(International(number)) == InternationalPrefix + number
    ensures Normalize(International(number)) == number
  {
    var a, b := number[..5], number[5..];
    DigitsSeparatorFree(a);
    DigitsSeparatorFree(b);
    assert International(number) == InternationalPrefix + [' '] + a + [' '] + b;
    RemoveTwoSeparators(InternationalPrefix, ' ', a, ' ', b);
    assert InternationalPrefix + a + b == InternationalPrefix + number;
    StripInternationalOnly(number);
  }

  /** The national display form normalises back to the number it was built from. */
  lemma {:induction false} NationalNormalizes(number: string)
    requires IsTenDigits(number)
    ensures Normalize(National(number)) == number
  {
    var n := National(number);
    assert SeparatorFree(n) by {
      DigitsSeparatorFree(n);
    }
    RemoveSeparatorsFree(n);
    assert !(InternationalPrefix <= n) && !(CountryCode <= n) && TrunkPrefix <= n;
    assert n[1..] == number;
  }

  /** A number that validates yields display forms that validate to the same result. */
  lemma DisplayFormsRevalidate(phoneNumber: string, mobilePrefixes: seq<string>)
    requires ValidateIndianNumber(phoneNumber, mobilePrefixes).Valid?
    ensures var v := ValidateIndianNumber(phoneNumber, mobilePrefixes);
            && ValidateIndianNumber(International(v.number), mobilePrefixes) == v
            && ValidateIndianNumber(National(v.number), mobilePrefixes) == v
  {
    var v := ValidateIndianNumber(phoneNumber, mobilePrefixes);
    InternationalNormalizes(v.number);
    NationalNormalizes(v.number);
  }

  // ---------------------------------------------------------------------
  // Analysis
  // ---------------------------------------------------------------------

  /** The location record when no STD code matched: every name `Unknown`, code `N/A`, no coordinates. */
  function UnknownLocation(): (l: Location)
    ensures l.city == l.state == l.circle == Unknown
    ensures l.stdCode == NoStdCode && l.coordinates.None?
  {
    Location(Unknown, Unknown, Unknown, NoStdCode, None)
  }

  /** Validates `phoneInput` and, on success, classifies and formats it. */
  method AnalyzeIndianNumber(phoneInput: string, config: IndiaConfig) returns (r: Analysis)
    ensures var v := ValidateIndianNumber(phoneInput, config.mobilePrefixes);
            && (r.Failure? <==> v.Invalid?)
            && (v.Invalid? ==> r.error == v.reason)
    ensures r.Success? ==>
              var v := ValidateIndianNumber(phoneInput, config.mobilePrefixes);
              && IsTenDigits(r.phoneNumber.clean)
              && r.phoneNumber == PhoneNumber(phoneInput, v.number, v.formatted,
                                              International(v.number), National(v.number))
              && r.operator == OperatorOf(v.number, config.operators)
    ensures r.Success? ==>
              match StdLookup(r.phoneNumber.clean, config.stdLengths, config.cities)
              case None => r.location == UnknownLocation()
              case Some(code) =>
                code in config.cities &&
                var info := config.cities[code];
                r.location == Location(info.city, info.state, info.circle,
                                       if code == "" then NoStdCode else code,
                                       Some(info.coordinates))
  {
    var validation := ValidateIndianNumber(phoneInput, config.mobilePrefixes);
    if validation.Invalid? {
      return Failure(validation.reason);
    }
    var number, formatted := validation.number, validation.formatted;

    var stdCode, cityData := ResolveStdCode(number, config.stdLengths, config.cities);
    var operator := OperatorOf(number, config.operators);

    var phone := PhoneNumber(phoneInput, number, formatted, International(number), National(number));
    var location :=
      if cityData.Some? then
        Location(cityData.value.city, cityData.value.state, cityData.value.circle,
                 if stdCode == "" then NoStdCode else stdCode,
                 Some(cityData.value.coordinates))
      else
        Location(Unknown, Unknown, Unknown, if stdCode == "" then NoStdCode else stdCode, None);
    r := Success(phone, location, operator);
  }
}
