/** The per-case checks: `pass` (test.js:90-120) replays one dataset row
    against the resolver under test and against the reference geocoder;
    `fail` (test.js:122-135) checks that the resolver rejects one malformed
    input with the agreed error. Both are applied to every entry of a fixed
    list (test.js:1190, test.js:1277-1285). */
module Cases {
  import opened Zones
  import opened AnyOf

  /** The JavaScript values that appear as resolver arguments. */
  datatype JsValue = Num(n: real) | Str(s: string) | Undefined | Obj(fields: seq<(string, JsValue)>)

  type Args = seq<JsValue>

  /** One call of the resolver under test: the zone it returned, or the
      message of the error it threw. */
  datatype Call = Returned(zone: string) | Threw(msg: string)

  datatype Option<T> = None | Some(value: T)

  /** A dataset row: the arguments, the zone the resolver must return, and
      optionally a different zone the reference geocoder is compared with. */
  datatype TestCase = TestCase(args: Args, expected: string, crossRef: Option<string>)

  /** The collaborators the harness is given: the zone library, the resolver
      under test, the reference geocoder (it receives the arguments after
      their conversion to numbers), and the inhabited-land oracle. */
  datatype Environment = Environment(
    zones: ZoneLibrary,
    tz: Args -> Call,
    find: Args -> seq<string>,
    inhabited: (real, real) -> bool)

  const InvalidCoordinates: string := "invalid coordinates"
  const NoException: string := "expected an exception to occur, but none did"

  /** `testcase[2] ?? expected`: a given third element is used as it is, and
      only a missing one falls back to the primary expectation. */
  function CrossRefExpectation(tc: TestCase): (z: string)
    ensures tc.crossRef == Some(z) || (tc.crossRef == None && z == tc.expected)
  {
    match tc.crossRef
    case Some(z) => z
    case None => tc.expected
  }

  /** The first test of `pass`: the resolver's answer must be the expected
      string itself; an error it throws fails the test with its own message. */
  function ResolverVerdict(call: Call, expected: string): (r: Outcome)
    ensures r == Pass <==> call == Returned(expected)
    ensures call.Threw? ==> r == Fail(call.msg)
    ensures call.Returned? && r.Fail? ==>
      r.msg == "expected \"" + call.zone + "\" to equal \"" + expected + "\""
  {
    match call
    case Threw(m) => Fail(m)
    case Returned(actual) =>
      if actual != expected then Fail("expected \"" + actual + "\" to equal \"" + expected + "\"")
      else Pass
  }

  /** Both verdicts of `pass` for one row: the exact-match test and the
      cross-reference test against the geocoder's candidates. */
  function CaseVerdict(env: Environment, tc: TestCase): (Outcome, Outcome) {
    (ResolverVerdict(env.tz(tc.args), tc.expected),
     AnyIanaEql(env.zones, CrossRefExpectation(tc), env.find(tc.args)))
  }

  method CheckCase(env: Environment, tc: TestCase) returns (verdict: (Outcome, Outcome))
    ensures verdict == CaseVerdict(env, tc)
    ensures verdict.0 == Pass <==> env.tz(tc.args) == Returned(tc.expected)
  {
    var exact := ResolverVerdict(env.tz(tc.args), tc.expected);
    var expectedGeoTz := CrossRefExpectation(tc);
    var crossRef, tried := AssertAnyIanaEql(env.zones, expectedGeoTz, env.find(tc.args));
    verdict := (exact, crossRef);
  }

  /** `TestCases.forEach(pass)`: every row is checked on its own, so a row's
      verdicts depend on that row alone. */
  method CheckCases(env: Environment, cases: seq<TestCase>) returns (verdicts: seq<(Outcome, Outcome)>)
    ensures |verdicts| == |cases|
    ensures forall i :: 0 <= i < |cases| ==> verdicts[i] == CaseVerdict(env, cases[i])
  {
    verdicts := [];
    for i := 0 to |cases|
      invariant |verdicts| == i
      invariant forall j :: 0 <= j < i ==> verdicts[j] == CaseVerdict(env, cases[j])
    {
      var verdict := CheckCase(env, cases[i]);
      var before := verdicts;
      verdicts := before + [verdict];
      forall j | 0 <= j < i + 1
        ensures verdicts[j] == CaseVerdict(env, cases[j])
      {
        if j < i {
          assert verdicts[j] == before[j];
        }
      }
    }
  }

  /** When a row has no separate cross-reference zone, the geocoder's
      candidates are compared with the primary expectation. */
  lemma CrossRefDefaultsToExpected(env: Environment, tc: TestCase)
    requires tc.crossRef == None
    ensures CaseVerdict(env, tc).1 == AnyIanaEql(env.zones, tc.expected, env.find(tc.args))
  {
  }

  /** A row passes both tests, whatever the zone library says, when the
      resolver returns the expected zone and the geocoder returns exactly the
      cross-reference zone. */
  lemma ExactAnswersPass(env: Environment, tc: TestCase)
    requires env.tz(tc.args) == Returned(tc.expected)
    requires env.find(tc.args) == [CrossRefExpectation(tc)]
    requires ',' !in CrossRefExpectation(tc)
    ensures CaseVerdict(env, tc) == (Pass, Pass)
  {
    SingleCandidateIsPairwise(env.zones, CrossRefExpectation(tc), CrossRefExpectation(tc));
  }

  /** The verdict of `fail` for one call: it passes only on the agreed error;
      any other error is rethrown and a normal return is itself an error. */
  function InvalidInputVerdict(call: Call): (r: Outcome)
    ensures r == Pass <==> call == Threw(InvalidCoordinates)
    ensures call.Returned? ==> r == Fail(NoException)
    ensures call.Threw? && r.Fail? ==> r == Fail(call.msg)
  {
    match call
    case Threw(m) => if m == InvalidCoordinates then Pass else Fail(m)
    case Returned(_) => Fail(NoException)
  }

  /** The malformed inputs: latitude out of range, longitude out of range, a
      non-numeric latitude, a non-numeric longitude, both missing, and an
      object where two numbers are expected. */
  const InvalidInputs: seq<Args> := [
    [Num(100.0), Num(10.0)],
    [Num(10.0), Num(190.0)],
    [Str("hello"), Num(10.0)],
    [Num(10.0), Str("hello")],
    [Undefined, Undefined],
    [Obj([("lat", Num(10.0)), ("lon", Num(10.0))])]
  ]

  /** `[...].forEach(fail)` over the malformed inputs. */
  method CheckInvalidInputs(tz: Args -> Call) returns (verdicts: seq<Outcome>)
    ensures |verdicts| == |InvalidInputs|
    ensures forall i :: 0 <= i < |InvalidInputs| ==> verdicts[i] == InvalidInputVerdict(tz(InvalidInputs[i]))
  {
    verdicts := [];
    for i := 0 to |InvalidInputs|
      invariant |verdicts| == i
      invariant forall j :: 0 <= j < i ==> verdicts[j] == InvalidInputVerdict(tz(InvalidInputs[j]))
    {
      verdicts := verdicts + [InvalidInputVerdict(tz(InvalidInputs[i]))];
    }
  }

  /** The north-pole rows (test.js:232-236): the resolver must say "Etc/GMT"
      at every longitude, while the geocoder is compared with "Etc/GMT-12". */
  function PoleCase(lon: real): TestCase {
    TestCase([Num(90.0), Num(lon)], "Etc/GMT", Some("Etc/GMT-12"))
  }

  const PoleCases: seq<TestCase> := [PoleCase(-180.0), PoleCase(-90.0), PoleCase(0.0), PoleCase(90.0), PoleCase(180.0)]

  /** The first hand-crafted row (test.js:139), which has no third element. */
  const NewYorkCase: TestCase := TestCase([Num(40.7092), Num(-74.0151)], "America/New_York", None)

  /** A resolver that collapses the pole to "Etc/GMT" and a geocoder that
      answers "Etc/GMT-12" there pass every pole row, with any zone library:
      both comparisons succeed on identical strings. */
  lemma PoleRowsPass(env: Environment)
    requires forall i :: 0 <= i < |PoleCases| ==> env.tz(PoleCases[i].args) == Returned("Etc/GMT")
    requires forall i :: 0 <= i < |PoleCases| ==> env.find(PoleCases[i].args) == ["Etc/GMT-12"]
    ensures forall i :: 0 <= i < |PoleCases| ==> CaseVerdict(env, PoleCases[i]) == (Pass, Pass)
  {
    forall i | 0 <= i < |PoleCases|
      ensures CaseVerdict(env, PoleCases[i]) == (Pass, Pass)
    {
      ExactAnswersPass(env, PoleCases[i]);
    }
  }

  /** The geocoder's answer for the New York row is compared with the
      primary expectation, since the row gives no other. */
  lemma NewYorkRowUsesPrimary(env: Environment)
    requires env.find(NewYorkCase.args) == ["America/New_York"]
    ensures CaseVerdict(env, NewYorkCase).1 == Pass
  {
    SingleCandidateIsPairwise(env.zones, "America/New_York", "America/New_York");
  }
}
