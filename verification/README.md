# tz-lookup regression harness, modelled in Dafny

This project models the decision logic of the test harness of tz-lookup. tz-lookup is a
resolver from a latitude/longitude to an IANA time-zone id. The harness judges the
resolver's answers three ways:

- exact string match against a table of hand-picked rows (`pass`);
- equivalence with the answers of an independent geocoder, geo-tz, through a tolerant
  zone comparison (`assert_iana_eql`, `assert_any_iana_eql`);
- an error budget over a run of random inhabited locations ("Matches random locations").

It also checks that malformed input is rejected with the error `"invalid coordinates"`
(`fail`).

The collaborators are parameters, not code. The resolver, geo-tz's `find`, the
`inhabited` land oracle and the luxon zone library (`isValid`, `offset`) are function
values. They are bundled in `Zones.ZoneLibrary` and `Cases.Environment`. A thrown error
becomes `Zones.Outcome.Fail(msg)`. A resolver call becomes `Cases.Call`: `Returned(zone)`
or `Threw(msg)`. The random draws of the statistical check are the `samples` argument of
`Fuzz.MatchRandomLocations`.

Files, one module each:

- `text.dfy` (`Text`): how an integer offset is written into a message, and
  `split`/`join` with a separator, with their round trips.
- `zones.dfy` (`Zones`): the pairwise check. The ids are accepted when they are
  identical. Otherwise both must be valid, with equal offsets at 2023-01-01T00:00Z and
  2023-07-01T00:00Z. A failure reports the first failing guard, in order.
- `any_of.dfy` (`AnyOf`): candidate flattening, the reference definition `AnyIanaEql`,
  and the loop `AssertAnyIanaEql`, proved against it.
- `cases.dfy` (`Cases`): the two tests of `pass`, the verdict of `fail`, the `forEach`
  runners, the list of malformed inputs and a few dataset rows.
- `fuzz.dfy` (`Fuzz`): the tally loop, the `Math.round` percentage and the budget of 8.

Notes on fidelity:

- **Statistical check: geo-tz's list is one argument.** The check passes geo-tz's
  answer as a single argument (test.js:1258); `pass` spreads it (test.js:115). So the
  candidates come from `String(list).split(",")`. `AnyOf.JoinedListSameVerdict` and
  `Fuzz.SampleVerdictAsSpread` prove this is the same as spreading whenever the list is
  non-empty. `Fuzz.EmptyGeocoderAnswer` shows what differs for an empty list: the one
  candidate is `""`.
- **Statistical check: the divisor.** The percentage is divided by the number of
  agreements (`matches`), not by the number of comparisons.
- **Statistical check: rounding.** `Math.round(100*e/m)` is modelled exactly in
  integers as `(200e + m) div 2m`. This holds while `200*e < 2^53`: then `100*e` is an
  exact double, and a quotient with denominator `m` that is not a tie lies at least
  `1/(2m)` from a tie, far more than the division's rounding error. A run has at most
  50,000 iterations (test.js:1197), so `e <= 50,000` and the bound holds. With `m = 0`
  the JavaScript value is `Infinity` (some errors; the run fails) or `NaN` (no errors;
  `NaN > 8` is false, so the run passes).

## Model

| member | source | states |
|---|---|---|
| `Text.NatToString` | test.js:58-67 | an offset is written as decimal digits with no leading zero except for 0 itself |
| `Text.IntToString` | test.js:58-84 | an offset interpolated into a message is an integer literal, with a minus sign exactly when the offset is negative |
| `Text.IntToStringRoundTrip` | test.js:58-84 | the offset printed into a mismatch message can be read back exactly |
| `Text.IntToStringInjective` | test.js:58-84 | two offsets print the same text exactly when they are equal |
| `Text.Split` | test.js:34 | `split(",")` always yields at least one piece |
| `Text.SplitPiecesSeparatorFree` | test.js:34 | no piece of `split(",")` contains a comma |
| `Text.Join` | test.js:45 | `join(":")` of no messages is the empty string; of n messages it is their total length plus n-1 separators |
| `Text.JoinSplit` | test.js:34 | joining the split pieces with the separator gives back the original string, so splitting drops nothing |
| `Text.SplitJoin` | test.js:34 | splitting the join of separator-free pieces gives back those pieces |
| `Text.SplitAppend` | test.js:34 | splitting two strings glued by a separator gives the pieces of the first followed by those of the second |
| `Text.SplitKeepsBlanks` | test.js:34 | pieces are not trimmed: `"A, B"` splits into `"A"` and `" B"` |
| `Zones.OffsetComplaint` | test.js:58-84 | an offset message starts with `expected `, then `a` and its offset in parentheses, and ends with `b`'s offset in parentheses |
| `Zones.Complaint` | test.js:52-86 | a message starts with `a: ` exactly for an unknown first id, with `b: ` exactly for an unknown second id, and with `expected ` exactly for an offset mismatch; a validity message ends with the unknown id |
| `Zones.AssertIanaEql` | test.js:48-88 | identical ids are accepted without consulting the library; otherwise the check passes exactly when both ids are valid and their offsets agree at both instants of test.js:26-27 |
| `Zones.RejectionReportsFirstFailingGuard` | test.js:50-87 | for distinct ids, the error is the message of the first failing guard, in the order a invalid, b invalid, standard offset, daylight offset |
| `Zones.UnknownSecondIdReported` | test.js:52-53 | when the first id is known and differs from the second, the error is `b: invalid IANA zone: ` plus the second id exactly when the second id is unknown |
| `Zones.AcceptanceSymmetric` | test.js:48-88 | swapping the two ids does not change whether the check passes |
| `Zones.AcceptanceTransitive` | test.js:48-88 | for one library and the fixed instants, acceptance is transitive |
| `AnyOf.Candidates` | test.js:34 | flattening the arguments yields comma-free candidates, at least as many candidates as arguments |
| `AnyOf.CandidatesKeepText` | test.js:34 | flattening drops and adds nothing: the candidates joined with commas are the arguments joined with commas |
| `AnyOf.AssertAnyIanaEql` | test.js:33-46 | the loop's verdict equals `AnyIanaEql`: it passes exactly when some candidate passes the pairwise check, and otherwise fails with every candidate's message joined by ":", in order; on success it stops right after the first accepted candidate, and on failure it has tried them all |
| `AnyOf.CandidatesOfCommaFree` | test.js:34 | comma-free arguments are their own candidates |
| `AnyOf.CandidatesOfJoinedList` | test.js:34 | a non-empty list passed as one comma-joined argument yields the same candidates as the spread list |
| `AnyOf.CandidatesOfJoinedEmptyList` | test.js:34 | an empty list passed as one argument yields the single candidate `""` |
| `AnyOf.NoCandidatesFailsEmpty` | test.js:45 | with no candidates the check fails with the empty message |
| `AnyOf.SingleCandidateIsPairwise` | test.js:36-45 | with one comma-free candidate the verdict and message are those of the pairwise check |
| `AnyOf.JoinedListSameVerdict` | test.js:34 | passing a non-empty list as one argument gives the same verdict as spreading it |
| `Cases.CrossRefExpectation` | test.js:93 | a row's third element, when given, is the zone geo-tz is compared with; only a missing one falls back to the primary expectation |
| `Cases.ResolverVerdict` | test.js:96-105 | the exact-match test passes exactly when the resolver returns the expected string; a mismatch reports both values, and a thrown error fails the test with its own message |
| `Cases.CheckCase` | test.js:90-120 | both verdicts of a row: the exact-match test, and the any-of check of the cross-reference zone against geo-tz's candidates |
| `Cases.CheckCases` | test.js:1190 | every row gets its verdicts, and they depend on that row alone |
| `Cases.CrossRefDefaultsToExpected` | test.js:93 | a row without a third element compares geo-tz's candidates with the primary expectation |
| `Cases.ExactAnswersPass` | test.js:90-120 | a row passes both tests with any zone library when the resolver returns the expected zone and geo-tz returns exactly the cross-reference zone |
| `Cases.InvalidInputVerdict` | test.js:122-135 | the test passes exactly when the call throws `"invalid coordinates"`; any other error is rethrown, and a normal return fails with "expected an exception to occur, but none did" |
| `Cases.CheckInvalidInputs` | test.js:1277-1285 | each of the six malformed inputs gets the verdict of its own call |
| `Cases.PoleRowsPass` | test.js:232-236 | a resolver answering `Etc/GMT` and a geocoder answering `Etc/GMT-12` pass all five pole rows, with any zone library |
| `Cases.NewYorkRowUsesPrimary` | test.js:139 | in a two-element row, geo-tz is compared with the primary zone `America/New_York` |
| `Fuzz.SampleVerdict` | test.js:1257-1266 | an error thrown by the resolver is caught and recorded with its own message; a sample passes only when the resolver returned a zone |
| `Fuzz.CompareSample` | test.js:1257-1266 | the guarded comparison of one sample computes `SampleVerdict` |
| `Fuzz.MatchRandomLocations` | test.js:1242-1274 | the counter and mismatch list are the `Tally` of the samples; every inhabited sample lands in exactly one of them; the verdict is the budget verdict on their sizes |
| `Fuzz.TallyPartitionsInhabited` | test.js:1256-1267 | agreements plus mismatches equal the number of inhabited samples |
| `Fuzz.TallyCountsPasses` | test.js:1256-1267 | the counter is exactly the number of inhabited samples whose comparison passed, and the list has one entry for each inhabited sample whose comparison failed |
| `Fuzz.MismatchesAreFailures` | test.js:1256-1267 | each recorded mismatch is an inhabited sample of the run whose comparison failed with the recorded message |
| `Fuzz.FailuresAreRecorded` | test.js:1256-1267 | conversely, every inhabited sample whose comparison failed is recorded with its failure message |
| `Fuzz.UninhabitedSampleChangesNothing` | test.js:1256 | an uninhabited sample changes neither the counter nor the list |
| `Fuzz.PercentMismatch` | test.js:1269 | with agreements, the value is `100*e/m` rounded half up; with none, it is `Infinity` if there were errors and `NaN` otherwise |
| `Fuzz.Exceeds` | test.js:1271 | `percent > 8` as JavaScript decides it: `NaN` exceeds nothing, `Infinity` exceeds everything, and an integer exceeds 8 exactly when it is at least 9 |
| `Fuzz.BudgetThreshold` | test.js:1269-1273 | the run fails exactly when `200*errors >= 17*matches` (with `matches > 0`), or when there are errors and no agreements |
| `Fuzz.MoreErrorsNeverPass` | test.js:1269-1273 | at the same number of agreements, more errors never turn a failing run into a passing one |
| `Fuzz.SampleVerdictAsSpread` | test.js:1258 | for a non-empty geo-tz answer, one sample's verdict is the any-of check against the spread list |
| `Fuzz.EmptyGeocoderAnswer` | test.js:1258 | an empty geo-tz answer is compared as the single id `""`: the verdict is the pairwise check against `""`, never the empty message |
| `Fuzz.EmptyGeocoderAnswerNamesInvalidId` | test.js:1258 | for a known resolver zone, an empty geo-tz answer fails as `b: invalid IANA zone: ` exactly when `""` is not a known zone |

## Left out

- The luxon library: only its `isValid` and `offset` are used, and they are parameters.
  Zone creation, alias resolution and offset computation are not modelled.
- The resolver, geo-tz's `find` and `inhabited` are parameters. Their geography is not
  modelled. geo-tz receives the arguments after `Number` conversion, and that conversion
  is inside the `find` parameter. The model does not capture an error thrown by geo-tz.
- Values the harness converts with `String(...)`: every candidate is modelled as a
  string already. Offsets are modelled as integers of minutes.
- Random sampling (`rnd`, `Math.random`) is left out: the draws are an input sequence.
- The `toFixed(3)` rounding of a mismatch's coordinates is floating-point work. A
  mismatch record keeps the sampled location itself.
- The `console.log` of the percentage and of the first ten mismatches is output only.
- The speed tests (`elapsed`) measure wall-clock time and print it; they decide nothing.
- The mocha `describe`/`it`/timeouts, the `globalThis.window` branches and the global or
  `require` fallbacks are framework plumbing. The model always runs the geo-tz checks.
- The test-name labels (`stringify_item`, `stringify_list`) only build names.
- The 1000-row dataset: it is ground truth about geography that cannot be checked
  without the resolver. Only the pole rows and the first row are given, as examples.
- The unused timestamps `ts1`/`ts2` of the statistical check are dead code.
