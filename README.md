# Indian phone-number validator and analyzer

A Dafny model of the decision logic of the phone locator bot: the validator
that turns a raw phone string into a ten-digit Indian subscriber number, and
the analyzer that classifies a valid number by STD (area) code and mobile
operator prefix and assembles its display record.

- `wrappers.dfy` — module `Wrappers`: the `Option` type used for absent city data and coordinates.
- `validator.dfy` — module `Validator`: `validateIndianNumber`. Whitespace (the
  regular-expression class `\s`, i.e. ECMAScript WhiteSpace and LineTerminator
  code points), `-`, `(` and `)` are deleted; one prefix is stripped, tried in
  the order `+91`, `91`, `0`; the rest must be exactly ten ASCII digits whose first
  digit is listed in `mobilePrefixes`. The two failure reasons are the source's
  strings `Must be 10 digits` and `Must start with ` followed by the prefixes
  joined with `, `.
- `analyzer.dfy` — module `Analyzer`: `analyzeIndianNumber` without logging, map
  URLs and timestamp. The STD loop over `stdLengths` (with its early `break`) is
  the method `ResolveStdCode`, proved against the first-match function
  `StdLookup`; the operator chain and display strings are functions; the whole
  analysis is the method `AnalyzeIndianNumber`.

The tables the analyzer reads (`mobilePrefixes`, `stdLengths`, `cities`,
`operators` of the `india` configuration section) are parameters, bundled as
`IndiaConfig`: `config.js` does not define that section, so no table contents
are assumed. `mobilePrefixes` is a sequence of strings, because the source
tests `includes(number[0])` on an array and joins the array, in order, into the
error message.

Behaviour of the code that the model keeps and proves:

- A bare ten-digit input beginning with `91` has `91` stripped as a country code
  and is rejected as not ten digits (`TenDigitsStartingWith91Rejected`).
- After `+91` nothing more is stripped, so `+910…` keeps its `0`
  (`StripInternationalOnly`).
- The operator lookup checks the two-digit prefix before the three-digit one, so
  it is not longest-prefix: a two-digit entry shadows the three-digit entries that
  extend it (`TwoDigitOperatorShadows`, `OperatorNotLongestFirstExample`). It
  agrees with a longest-prefix lookup exactly when the two entries do not conflict
  (`OperatorAgreesWithLongest`).
- The STD lookup is longest-prefix only when `stdLengths` is listed in
  descending order, as the comment `(4,3,2)` suggests (`StdLookupIsLongest`,
  `ShortestFirstExample`).
- JavaScript truthiness is kept: an operator entry whose name is the empty string
  counts as absent; a matched STD code that is the empty string (possible only
  with a length 0 in `stdLengths`) is displayed as `N/A`; `substring(0, n)` is
  clamped to the string (`Prefix`).

## Model

| member | source | states |
|---|---|---|
| `Validator.IsJsWhitespace` | index.js:31 | the code points of the regular-expression class `\s`; none of them is a digit, `+`, `-`, `(` or `)` |
| `Validator.IsSeparator` | index.js:31 | the class `[\s\-\(\)]`: `-`, `(` and `)` are in it, and no digit and no `+` is |
| `Validator.RemoveSeparators` | index.js:31 | the cleaned string contains no whitespace, `-`, `(` or `)` and is no longer than the input |
| `Validator.RemoveSeparatorsMembers` | index.js:31 | a character survives cleaning exactly when it occurs in the input and is not a separator |
| `Validator.RemoveSeparatorsAppend` | index.js:31 | cleaning a concatenation is the concatenation of the cleaned parts |
| `Validator.RemoveSeparatorsFree` | index.js:31 | a string with no separators is unchanged by cleaning (so cleaning is idempotent) |
| `Validator.StripPrefix` | index.js:33-36 | the result is a suffix of the cleaned string; what was removed is `+91`, `91`, `0` or nothing; nothing is removed exactly when none of the three prefixes is present |
| `Validator.StripInternationalOnly` | index.js:34-36 | after a `+91` prefix no further prefix is stripped, so a following `0` or `91` stays |
| `Validator.Normalize` | index.js:31-36 | the candidate number contains no separators and is no longer than the raw input |
| `Validator.NormalizeCanonical` | index.js:31-36 | a separator-free string that begins with none of `+91`, `91`, `0` normalises to itself |
| `Validator.IsTenDigits` | index.js:38 | the pattern `^\d{10}$`: a match has length 10, contains no separator and does not begin with `+` |
| `Validator.Allowed` | index.js:42 | `includes(number[0])`: true exactly when some entry of `mobilePrefixes` is the one-character string of that digit |
| `Validator.Join` | index.js:43 | `join`: an empty array gives `""`, a single entry gives that entry, and a longer array begins with its first entry followed by the separator |
| `Validator.JoinSnoc` | index.js:43 | appending an entry to a non-empty array appends the separator and that entry to the joined text; with the empty and one-entry cases of `Join` this fixes the whole output, entries in array order |
| `Validator.JoinListsEntry` | index.js:43 | every entry of the array occurs in the joined text |
| `Validator.LeadingReasonListsPrefix` | index.js:43 | every configured prefix occurs in the rejection text after the `Must start with ` head |
| `Validator.LeadingReason` | index.js:43 | the rejection text begins with `Must start with `; with no prefixes it is exactly that head, with one prefix it is the head followed by that prefix, and with more it continues with the first prefix and `, ` |
| `Validator.ReasonsDistinct` | index.js:39-43 | the length reason differs from every leading-digit reason, so the two failures can be told apart by their text |
| `Validator.ValidateIndianNumber` | index.js:29-50 | fails with `Must be 10 digits` exactly when the normalised string is not ten ASCII digits; fails with `Must start with …` exactly when it is ten digits and its first digit is not in `mobilePrefixes`; otherwise succeeds with `number` equal to the ten-digit normalised string, its first digit allowed, and `formatted == "+91" + number` |
| `Validator.TenDigitsStartingWith91Rejected` | index.js:35-40 | a ten-digit input beginning with `91` normalises to its last eight digits and is rejected with `Must be 10 digits` |
| `Validator.FormattedRoundTrip` | index.js:46 | validating the `formatted` string of a successful validation gives back the same result |
| `Validator.InternationalInputExample` | index.js:31-34 | `"+91 98765 43210"` normalises to `"9876543210"` |
| `Validator.TrunkInputExample` | index.js:31-36 | `"022-12345678"` normalises to `"2212345678"` (hyphen and one trunk `0` removed) |
| `Validator.ShortInputExample` | index.js:38-40 | `"12345"` is rejected with `Must be 10 digits` whatever the prefix table |
| `Analyzer.Prefix` | index.js:71 | `substring(0, n)` is a prefix of the string of length `min(n, length)` |
| `Analyzer.StdLookup` | index.js:70-77 | no match exactly when no configured length gives a prefix that is a city key; a match is the prefix at some configured length, is a key, and no earlier length gives a key |
| `Analyzer.ResolveStdCode` | index.js:66-77 | the loop leaves `stdCode == ""` and no city data when `StdLookup` finds nothing, and otherwise the first matching code and its city entry |
| `Analyzer.StdLookupIsLongest` | index.js:69-77 | with `stdLengths` in descending order, whenever some configured prefix is a key, a code is found and it is at least as long as every configured prefix that is a key |
| `Analyzer.LongestCodeWinsExample` | index.js:69-77 | with keys `"11"` and `"1123"` and lengths (4, 3, 2), `"1123000000"` resolves to `"1123"` |
| `Analyzer.ShortestFirstExample` | index.js:70-77 | with the same keys and lengths (2, 3, 4) it resolves to `"11"`: the order of `stdLengths` decides |
| `Analyzer.HasOperator` | index.js:84-87 | the truthiness test on `operators[key]`: when it holds the key is present with a non-empty name, and a missing key never passes |
| `Analyzer.OperatorOf` | index.js:80-92 | the operator is never empty; it is `Unknown` or a name from the table, and `Unknown` whenever neither the two- nor the three-digit prefix has an entry |
| `Analyzer.TwoDigitOperatorShadows` | index.js:84-86 | when the two-digit prefix has an entry, that entry is the operator whatever three-digit entry exists |
| `Analyzer.ThreeDigitOperatorFallback` | index.js:87-89 | the three-digit entry is the operator when the two-digit prefix has none |
| `Analyzer.LongestOperatorOf` | index.js:80-92 | longest-prefix reference lookup: a three-digit entry, when present, is the operator |
| `Analyzer.OperatorAgreesWithLongest` | index.js:84-92 | the source's chain equals the longest-prefix lookup exactly when the two- and three-digit entries do not both apply with different names |
| `Analyzer.OperatorNotLongestFirstExample` | index.js:84-89 | with entries `98 → A` and `981 → B`, `"9810000000"` gets `A`, where a longest-prefix lookup gives `B` |
| `Analyzer.International` | index.js:101 | the international form has 15 characters: `+91`, a space, the first five digits, a space, the last five digits |
| `Analyzer.National` | index.js:102 | the national form is one character longer than the number, begins with `0`, and the rest is exactly the number |
| `Analyzer.InternationalNormalizes` | index.js:101 | cleaning the international form gives `"+91" + number`, and normalising it gives back the number |
| `Analyzer.NationalNormalizes` | index.js:102 | normalising the national form gives back the number |
| `Analyzer.DisplayFormsRevalidate` | index.js:99-102 | the international and national forms of a valid number validate to the same result as the original input |
| `Analyzer.UnknownLocation` | index.js:105-109 | the defaults used without a city match: city, state and circle `Unknown`, STD code `N/A`, no coordinates |
| `Analyzer.AnalyzeIndianNumber` | index.js:55-111 | failure exactly when validation fails, carrying the validator's reason and nothing from the tables; on success `clean` is the ten-digit validated number, `formatted`, `international` and `national` are its display forms, the operator is `OperatorOf` the number, and the location is the matched city's city, state, circle, code and coordinates, or `Unknown`/`N/A`/no coordinates when `StdLookup` finds nothing |

## Left out

- Logging (index.js:19-24 and the `log` calls in the analyzer): file and console output.
- `locateIP`: an HTTP call to a geolocation service whose response is passed through.
- The Discord client, command dispatch, Express routes and the HTML/Leaflet page: chat, web and front-end I/O.
- Map URLs, the static-map URL and the `type` tag of the result record (index.js:96, 112-119): string formatting of floating-point coordinates; coordinates themselves are carried as an uninterpreted pair.
- The `timestamp` field (index.js:120): it reads the clock.
- The `catch` branch returning `Invalid format` (index.js:47-48): it is reached when the argument is not a string or `mobilePrefixes` is not an array; the typed parameters exclude both.
- `config.js` and `package.js`: environment checks, process exit, token generation and the npm manifest; `config.js` does not contain the tables, which are parameters here.
- Strings are sequences of Unicode scalar values rather than UTF-16 code units; this changes nothing for the separators and digits involved.
- Analyzer.AnalyzeIndianNumber: "no table is read on failure" is stated only as the failure result depending on nothing but the validator's reason.
