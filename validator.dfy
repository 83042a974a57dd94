/**
  The Indian phone-number validator: a raw string is cleaned of separators,
  one dialling prefix (`+91`, else `91`, else `0`) is stripped, and the rest
  must be exactly ten ASCII digits whose first digit is a configured mobile
  prefix.
 */
module Validator {

  const InternationalPrefix: string := "+91"
  const CountryCode: string := "91"
  const TrunkPrefix: string := "0"

  /** The two failure reasons the validator reports. */
  const LengthReason: string := "Must be 10 digits"
  const LeadingReasonHead: string := "Must start with "

  datatype Validation =
    | Invalid(reason: string)
    | Valid(number: string, formatted: string)

  // ---------------------------------------------------------------------
  // Separator removal
  // ---------------------------------------------------------------------

  /** The code points matched by the regular-expression class `\s`:
      ECMAScript's WhiteSpace and LineTerminator characters. */
  predicate IsJsWhitespace(c: char): (b: bool)
    ensures b ==> !('0' <= c <= '9') && c != '+' && c != '-' && c != '(' && c != ')'
  {
    var n := c as int;
    || 0x09 <= n <= 0x0D
    || n == 0x20 || n == 0xA0 || n == 0x1680
    || 0x2000 <= n <= 0x200A
    || n == 0x2028 || n == 0x2029 || n == 0x202F || n == 0x205F
    || n == 0x3000 || n == 0xFEFF
  }

  /** The characters deleted before any prefix is examined; digits and `+` are never among them. */
  predicate IsSeparator(c: char): (b: bool)
    ensures b ==> !('0' <= c <= '9') && c != '+'
    ensures c == '-' || c == '(' || c == ')' ==> b
  {
    IsJsWhitespace(c) || c == '-' || c == '(' || c == ')'
  }

  predicate SeparatorFree(s: string) {
    forall i :: 0 <= i < |s| ==> !IsSeparator(s[i])
  }

  /** Deletes every separator, keeping the other characters in order. */
  function RemoveSeparators(s: string): (r: string)
    ensures |r| <= |s|
    ensures SeparatorFree(r)
  {
    if s == [] then []
    else if IsSeparator(s[0]) then RemoveSeparators(s[1..])
    else [s[0]] + RemoveSeparators(s[1..])
  }

  /** A character survives cleaning exactly when it occurs in the input and is not a separator. */
  lemma {:induction false} RemoveSeparatorsMembers(s: string, c: char)
    ensures c in RemoveSeparators(s) <==> c in s && !IsSeparator(c)
  {
    if s != [] {
      RemoveSeparatorsMembers(s[1..], c);
      assert s == [s[0]] + s[1..];
    }
  }

  /** Cleaning works piecewise: it distributes over concatenation. */
  lemma {:induction false} RemoveSeparatorsAppend(a: string, b: string)
    ensures RemoveSeparators(a + b) == RemoveSeparators(a) + RemoveSeparators(b)
  {
    if a == [] {
      assert a + b == b;
    } else {
      assert (a + b)[0] == a[0];
      assert (a + b)[1..] == a[1..] + b;
      RemoveSeparatorsAppend(a[1..], b);
    }
  }

  /** A string with no separators is left unchanged; in particular cleaning is idempotent. */
  lemma {:induction false} RemoveSeparatorsFree(s: string)
    requires SeparatorFree(s)
    ensures RemoveSeparators(s) == s
  {
    if s != [] {
      assert SeparatorFree(s[1..]) by {
        forall i | 0 <= i < |s[1..]| ensures !IsSeparator(s[1..][i]) {
          assert s[1..][i] == s[i + 1];
        }
      }
      RemoveSeparatorsFree(s[1..]);
      assert s == [s[0]] + s[1..];
    }
  }

  // ---------------------------------------------------------------------
  // Prefix stripping
  // ---------------------------------------------------------------------

  /** Strips at most one dialling prefix, tried in the order `+91`, `91`, `0`. */
  function StripPrefix(clean: string): (r: string)
    ensures |r| <= |clean| && r == clean[|clean| - |r|..]
    ensures clean[..|clean| - |r|] in [InternationalPrefix, CountryCode, TrunkPrefix, ""]
    ensures r == clean <==> !(InternationalPrefix <= clean || CountryCode <= clean || TrunkPrefix <= clean)
  {
    if InternationalPrefix <= clean then
      assert clean[..3] == InternationalPrefix;
      clean[3..]
    else if CountryCode <= clean then
      assert clean[..2] == CountryCode;
      clean[2..]
    else if TrunkPrefix <= clean then
      assert clean[..1] == TrunkPrefix;
      clean[1..]
    else
      assert clean[..0] == "";
      clean
  }

  /** After `+91` nothing further is removed: a following `0` or `91` stays. */
  lemma StripInternationalOnly(rest: string)
    ensures StripPrefix(InternationalPrefix + rest) == rest
  {
    assert InternationalPrefix <= InternationalPrefix + rest;
  }

  /** The subscriber-number candidate the validator checks. */
  function Normalize(raw: string): (r: string)
    ensures SeparatorFree(r)
    ensures |r| <= |raw|
  {
    var clean := RemoveSeparators(raw);
    var r := StripPrefix(clean);
    assert forall i :: 0 <= i < |r| ==> r[i] == clean[|clean| - |r| + i];
    r
  }

  /** A string already free of separators and of every strippable prefix normalises to itself. */
  lemma NormalizeCanonical(c: string)
    requires SeparatorFree(c)
    requires !(InternationalPrefix <= c) && !(CountryCode <= c) && !(TrunkPrefix <= c)
    ensures Normalize(c) == c
  {
    RemoveSeparatorsFree(c);
  }

  // ---------------------------------------------------------------------
  // Validation
  // ---------------------------------------------------------------------

  predicate IsDigit(c: char) {
    '0' <= c <= '9'
  }

  /** The pattern `^\d{10}$`: exactly ten ASCII digits. */
  predicate IsTenDigits(s: string): (b: bool)
    ensures b ==> |s| == 10 && SeparatorFree(s)
    ensures b ==> s[0] != '+'
  {
    |s| == 10 && forall i :: 0 <= i < |s| ==> IsDigit(s[i])
  }

  /** `mobilePrefixes.includes(number[0])`: the one-character string is an entry of the array. */
  predicate Allowed(mobilePrefixes: seq<string>, d: char): (b: bool)
    ensures b <==> exists i :: 0 <= i < |mobilePrefixes| && mobilePrefixes[i] == [d]
  {
    [d] in mobilePrefixes
  }

  /** `Array.prototype.join`. */
  function Join(xs: seq<string>, sep: string): (r: string)
    ensures xs == [] ==> r == ""
    ensures |xs| == 1 ==> r == xs[0]
    ensures |xs| > 1 ==> xs[0] + sep <= r
  {
    if |xs| == 0 then ""
    else if |xs| == 1 then xs[0]
    else xs[0] + sep + Join(xs[1..], sep)
  }

  /** Appending an entry adds the separator and that entry at the end; with the
      empty and one-entry cases this determines `Join` completely. */
  lemma {:induction false} JoinSnoc(xs: seq<string>, x: string, sep: string)
    requires xs != []
    ensures Join(xs + [x], sep) == Join(xs, sep) + sep + x
  {
    if |xs| == 1 {
      assert xs + [x] == [xs[0], x];
      assert [xs[0], x][1..] == [x];
    } else {
      assert (xs + [x])[0] == xs[0];
      assert (xs + [x])[1..] == xs[1..] + [x];
      JoinSnoc(xs[1..], x, sep);
    }
  }

  /** Every entry appears in the joined text. */
  lemma {:induction false} JoinListsEntry(xs: seq<string>, sep: string, i: nat)
    requires i < |xs|
    ensures exists k :: 0 <= k <= |Join(xs, sep)| && xs[i] <= Join(xs, sep)[k..]
  {
    var r := Join(xs, sep);
    if i == 0 {
      assert xs[0] <= r[0..];
    } else {
      JoinListsEntry(xs[1..], sep, i - 1);
      var rest := Join(xs[1..], sep);
      var k' :| 0 <= k' <= |rest| && xs[1..][i - 1] <= rest[k'..];
      var k := |xs[0]| + |sep| + k';
      assert r == xs[0] + sep + rest;
      assert r[k..] == rest[k'..];
      assert xs[i] <= r[k..];
    }
  }

  /** The leading-digit rejection: the fixed head, then the prefixes joined with ", ". */
  function LeadingReason(mobilePrefixes: seq<string>): (r: string)
    ensures LeadingReasonHead <= r
    ensures mobilePrefixes == [] ==> r == LeadingReasonHead
    ensures |mobilePrefixes| == 1 ==> r == LeadingReasonHead + mobilePrefixes[0]
    ensures |mobilePrefixes| > 1 ==> LeadingReasonHead + mobilePrefixes[0] + ", " <= r
  {
    LeadingReasonHead + Join(mobilePrefixes, ", ")
  }

  /** The leading-digit rejection names every configured prefix. */
  lemma LeadingReasonListsPrefix(mobilePrefixes: seq<string>, i: nat)
    requires i < |mobilePrefixes|
    ensures exists k :: |LeadingReasonHead| <= k <= |LeadingReason(mobilePrefixes)|
                        && mobilePrefixes[i] <= LeadingReason(mobilePrefixes)[k..]
  {
    var joined := Join(mobilePrefixes, ", ");
    JoinListsEntry(mobilePrefixes, ", ", i);
    var k' :| 0 <= k' <= |joined| && mobilePrefixes[i] <= joined[k'..];
    var r := LeadingReason(mobilePrefixes);
    assert r[|LeadingReasonHead| + k'..] == joined[k'..];
  }

  /** The two reasons can always be told apart. */
  lemma ReasonsDistinct(mobilePrefixes: seq<string>)
    ensures LengthReason != LeadingReason(mobilePrefixes)
  {
    assert LengthReason[5] == 'b';
    assert LeadingReason(mobilePrefixes)[5] == LeadingReasonHead[5] == 's';
  }

  /** Validates a raw phone number; the reasons are the ones the caller displays. */
  function ValidateIndianNumber(phoneNumber: string, mobilePrefixes: seq<string>): (r: Validation)
    ensures r == Invalid(LengthReason) <==> !IsTenDigits(Normalize(phoneNumber))
    ensures r == Invalid(LeadingReason(mobilePrefixes)) <==>
              IsTenDigits(Normalize(phoneNumber)) && !Allowed(mobilePrefixes, Normalize(phoneNumber)[0])
    ensures r.Valid? <==>
              IsTenDigits(Normalize(phoneNumber)) && Allowed(mobilePrefixes, Normalize(phoneNumber)[0])
    ensures r.Valid? ==>
              && r.number == Normalize(phoneNumber)
              && IsTenDigits(r.number) && Allowed(mobilePrefixes, r.number[0])
              && r.formatted == InternationalPrefix + r.number
  {
    ReasonsDistinct(mobilePrefixes);
    var number := Normalize(phoneNumber);
    if !IsTenDigits(number) then Invalid(LengthReason)
    else if !Allowed(mobilePrefixes, number[0]) then Invalid(LeadingReason(mobilePrefixes))
    else Valid(number, InternationalPrefix + number)
  }

  /** A bare ten-digit input beginning with `91` loses those two digits as a country code
      and is then rejected for its length. */
  lemma TenDigitsStartingWith91Rejected(s: string, mobilePrefixes: seq<string>)
    requires IsTenDigits(s) && CountryCode <= s
    ensures Normalize(s) == s[2..]
    ensures ValidateIndianNumber(s, mobilePrefixes) == Invalid(LengthReason)
  {
    assert SeparatorFree(s);
    RemoveSeparatorsFree(s);
    assert !(InternationalPrefix <= s) by { assert s[0] != '+'; }
  }

  /** Every digit string is free of separators. */
  lemma DigitsSeparatorFree(s: string)
    requires forall i :: 0 <= i < |s| ==> IsDigit(s[i])
    ensures SeparatorFree(s)
  {
  }

  /** The `formatted` string of a successful validation validates to the same result. */
  lemma {:induction false} FormattedRoundTrip(phoneNumber: string, mobilePrefixes: seq<string>)
    requires ValidateIndianNumber(phoneNumber, mobilePrefixes).Valid?
    ensures var v := ValidateIndianNumber(phoneNumber, mobilePrefixes);
            ValidateIndianNumber(v.formatted, mobilePrefixes) == v
  {
    var v := ValidateIndianNumber(phoneNumber, mobilePrefixes);
    DigitsSeparatorFree(v.number);
    assert SeparatorFree(InternationalPrefix);
    RemoveSeparatorsAppend(InternationalPrefix, v.number);
    RemoveSeparatorsFree(InternationalPrefix);
    RemoveSeparatorsFree(v.number);
    StripInternationalOnly(v.number);
  }

  // ---------------------------------------------------------------------
  // Worked inputs
  // ---------------------------------------------------------------------

  /** One separator between two separator-free parts is removed and nothing else is. */
  lemma RemoveSeparatorBetween(a: string, sep: char, b: string)
    requires SeparatorFree(a) && IsSeparator(sep) && SeparatorFree(b)
    ensures RemoveSeparators(a + [sep] + b) == a + b
  {
    RemoveSeparatorAfter(a, sep, b);
    RemoveSeparatorsFree(a);
  }

  /** Two separators between three separator-free parts are removed and nothing else is. */
  lemma RemoveTwoSeparators(a: string, s1: char, b: string, s2: char, c: string)
    requires SeparatorFree(a) && SeparatorFree(b) && SeparatorFree(c)
    requires IsSeparator(s1) && IsSeparator(s2)
    ensures RemoveSeparators(a + [s1] + b + [s2] + c) == a + b + c
  {
    RemoveSeparatorBetween(a, s1, b);
    RemoveSeparatorAfter(a + [s1] + b, s2, c);
  }

  /** A separator followed by a separator-free part contributes only that part. */
  lemma RemoveSeparatorAfter(x: string, sep: char, c: string)
    requires IsSeparator(sep) && SeparatorFree(c)
    ensures RemoveSeparators(x + [sep] + c) == RemoveSeparators(x) + c
  {
    assert x + [sep] + c == x + ([sep] + c);
    RemoveSeparatorsAppend(x, [sep] + c);
    assert ([sep] + c)[1..] == c;
    RemoveSeparatorsFree(c);
  }

  /** Spaces and the `+91` country code are removed from an international form. */
  lemma InternationalInputExample()
    ensures Normalize("+91 98765 43210") == "9876543210"
  {
    assert "+91 98765 43210" == "+91" + [' '] + "98765" + [' '] + "43210";
    RemoveTwoSeparators("+91", ' ', "98765", ' ', "43210");
    assert "+91" + "98765" + "43210" == InternationalPrefix + "9876543210";
    StripInternationalOnly("9876543210");
  }

  /** A hyphenated landline form loses its hyphen and its trunk `0`. */
  lemma TrunkInputExample()
    ensures Normalize("022-12345678") == "2212345678"
  {
    assert "022-12345678" == "022" + ['-'] + "12345678";
    RemoveSeparatorBetween("022", '-', "12345678");
    var clean := "022" + "12345678";
    assert clean == "02212345678";
    assert !(InternationalPrefix <= clean) && !(CountryCode <= clean) && TrunkPrefix <= clean;
  }

  /** A short input is reported as the wrong length. */
  lemma ShortInputExample(mobilePrefixes: seq<string>)
    ensures ValidateIndianNumber("12345", mobilePrefixes) == Invalid(LengthReason)
  {
    RemoveSeparatorsFree("12345");
  }
}
