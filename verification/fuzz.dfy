/** The statistical check "Matches random locations" (test.js:1242-1274): over
    a run of sampled locations, every inhabited one is compared through the
    any-of check; agreements are counted, disagreements recorded, and the run
    fails when the rounded percentage of disagreements per agreement exceeds
    the error budget. The random draws are the `samples` parameter. */
module Fuzz {
  import opened Text
  import opened Zones
  import opened AnyOf
  import opened Cases

  datatype Location = Location(lat: real, lon: real)

  /** A recorded disagreement: where it happened and the error's message. */
  datatype Mismatch = Mismatch(at: Location, error: string)

  /** The JavaScript number `Math.round(100 * errors / matches)`: finite, or
      `Infinity` (errors but no matches), or `NaN` (neither). */
  datatype Percent = Finite(value: int) | Infinity | NaN

  const ErrorBudget: int := 8
  const TooManyErrors: string := "Too many errors"

  function SampleArgs(loc: Location): Args {
    [Num(loc.lat), Num(loc.lon)]
  }

  predicate Inhabited(env: Environment, loc: Location) {
    env.inhabited(loc.lat, loc.lon)
  }

  /** One guarded comparison. An error thrown by the resolver is caught like a
      failed comparison. The geocoder's list is passed as a single argument,
      so its candidates come from the list's comma-joined string form. */
  function SampleVerdict(env: Environment, loc: Location): (r: Outcome)
    ensures env.tz(SampleArgs(loc)).Threw? ==> r == Fail(env.tz(SampleArgs(loc)).msg)
    ensures r == Pass ==> env.tz(SampleArgs(loc)).Returned?
  {
    match env.tz(SampleArgs(loc))
    case Threw(m) => Fail(m)
    case Returned(z) => AnyIanaEql(env.zones, z, [Join(env.find(SampleArgs(loc)), ",")])
  }

  /** The counter and the mismatch list after the given samples. */
  function Tally(env: Environment, samples: seq<Location>): (nat, seq<Mismatch>)
    decreases |samples|
  {
    if samples == [] then (0, [])
    else
      var (matches, errors) := Tally(env, samples[..|samples| - 1]);
      var loc := samples[|samples| - 1];
      if !Inhabited(env, loc) then (matches, errors)
      else
        match SampleVerdict(env, loc)
        case Pass => (matches + 1, errors)
        case Fail(m) => (matches, errors + [Mismatch(loc, m)])
  }

  function CountInhabited(env: Environment, samples: seq<Location>): nat
    decreases |samples|
  {
    if samples == [] then 0
    else CountInhabited(env, samples[..|samples| - 1]) + (if Inhabited(env, samples[|samples| - 1]) then 1 else 0)
  }

  /** The number of inhabited samples whose comparison passed. */
  function CountPassing(env: Environment, samples: seq<Location>): nat
    decreases |samples|
  {
    if samples == [] then 0
    else
      var loc := samples[|samples| - 1];
      CountPassing(env, samples[..|samples| - 1]) + (if Inhabited(env, loc) && SampleVerdict(env, loc) == Pass then 1 else 0)
  }

  /** Every inhabited sample adds to exactly one of the counter and the list;
      the others change neither. */
  lemma {:induction false} TallyPartitionsInhabited(env: Environment, samples: seq<Location>)
    ensures Tally(env, samples).0 + |Tally(env, samples).1| == CountInhabited(env, samples)
    decreases |samples|
  {
    if samples != [] {
      TallyPartitionsInhabited(env, samples[..|samples| - 1]);
    }
  }

  /** Every recorded mismatch is an inhabited sample of the run whose
      comparison failed with the recorded message. */
  lemma {:induction false} MismatchesAreFailures(env: Environment, samples: seq<Location>)
    ensures forall k :: 0 <= k < |Tally(env, samples).1| ==>
      var e := Tally(env, samples).1[k];
      e.at in samples && Inhabited(env, e.at) && SampleVerdict(env, e.at) == Fail(e.error)
    decreases |samples|
  {
    if samples != [] {
      var init := samples[..|samples| - 1];
      MismatchesAreFailures(env, init);
      assert forall x :: x in init ==> x in samples;
    }
  }

  /** The counter is exactly the number of inhabited samples whose comparison
      passed, so the list holds one entry per inhabited sample that failed. */
  lemma {:induction false} TallyCountsPasses(env: Environment, samples: seq<Location>)
    ensures Tally(env, samples).0 == CountPassing(env, samples)
    ensures |Tally(env, samples).1| == CountInhabited(env, samples) - CountPassing(env, samples)
    decreases |samples|
  {
    if samples != [] {
      TallyCountsPasses(env, samples[..|samples| - 1]);
    }
    TallyPartitionsInhabited(env, samples);
  }

  /** Every inhabited sample whose comparison failed is recorded, with the
      message of its failure. */
  lemma {:induction false} FailuresAreRecorded(env: Environment, samples: seq<Location>)
    ensures forall k :: 0 <= k < |samples| && Inhabited(env, samples[k]) && SampleVerdict(env, samples[k]).Fail? ==>
      Mismatch(samples[k], SampleVerdict(env, samples[k]).msg) in Tally(env, samples).1
    decreases |samples|
  {
    if samples != [] {
      var init := samples[..|samples| - 1];
      FailuresAreRecorded(env, init);
      TallyKeepsMismatches(env, init, samples[|samples| - 1]);
      assert init + [samples[|samples| - 1]] == samples;
      forall k | 0 <= k < |samples| && Inhabited(env, samples[k]) && SampleVerdict(env, samples[k]).Fail?
        ensures Mismatch(samples[k], SampleVerdict(env, samples[k]).msg) in Tally(env, samples).1
      {
        if k < |init| {
          assert init[k] == samples[k];
        }
      }
    }
  }

  /** One more sample keeps every mismatch recorded so far. */
  lemma TallyKeepsMismatches(env: Environment, samples: seq<Location>, loc: Location)
    ensures forall e :: e in Tally(env, samples).1 ==> e in Tally(env, samples + [loc]).1
  {
    assert (samples + [loc])[..|samples|] == samples;
  }

  /** An uninhabited sample changes neither the counter nor the list. */
  lemma UninhabitedSampleChangesNothing(env: Environment, samples: seq<Location>, loc: Location)
    requires !Inhabited(env, loc)
    ensures Tally(env, samples + [loc]) == Tally(env, samples)
  {
    assert (samples + [loc])[..|samples|] == samples;
  }

  /** `Math.round(100 * errors / matches)`, rounding half up. */
  function PercentMismatch(errors: nat, matches: nat): (p: Percent)
    ensures matches > 0 ==> p.Finite? && 2 * matches * p.value <= 200 * errors + matches < 2 * matches * (p.value + 1)
    ensures matches == 0 ==> p == (if errors > 0 then Infinity else NaN)
  {
    if matches > 0 then
      var n, d := 200 * errors + matches, 2 * matches;
      assert d * (n / d) + n % d == n && 0 <= n % d < d;
      Finite(n / d)
    else if errors > 0 then Infinity
    else NaN
  }

  /** `percent > budget` on a JavaScript number: `NaN` exceeds nothing and
      `Infinity` exceeds every budget. */
  function Exceeds(p: Percent, budget: int): (r: bool)
    ensures p == NaN ==> !r
    ensures p == Infinity ==> r
    ensures p.Finite? ==> (r <==> p.value >= budget + 1)
  {
    match p
    case Finite(v) => v > budget
    case Infinity => true
    case NaN => false
  }

  function BudgetVerdict(errors: nat, matches: nat): Outcome {
    if Exceeds(PercentMismatch(errors, matches), ErrorBudget) then Fail(TooManyErrors) else Pass
  }

  /** The budget in integers: with at least one agreement the run fails
      exactly when 200 * errors >= 17 * matches; with none it fails exactly
      when there was an error. */
  lemma BudgetThreshold(errors: nat, matches: nat)
    ensures BudgetVerdict(errors, matches) == Fail(TooManyErrors) <==>
      if matches > 0 then 200 * errors >= 17 * matches else errors > 0
    ensures BudgetVerdict(errors, matches) == Pass <==>
      if matches > 0 then 200 * errors < 17 * matches else errors == 0
  {
    if matches > 0 {
      var q := PercentMismatch(errors, matches).value;
      var m := matches;
      if q >= 9 {
        assert 2 * m * q >= 2 * m * 9 by {
          assert 2 * m * q - 2 * m * 9 == 2 * m * (q - 9);
        }
      } else {
        assert 2 * m * (q + 1) <= 2 * m * 9 by {
          assert 2 * m * 9 - 2 * m * (q + 1) == 2 * m * (8 - q);
        }
      }
    }
  }

  /** More errors at the same number of agreements never turn a failing run
      into a passing one. */
  lemma MoreErrorsNeverPass(errors: nat, more: nat, matches: nat)
    requires errors <= more
    requires BudgetVerdict(errors, matches) == Fail(TooManyErrors)
    ensures BudgetVerdict(more, matches) == Fail(TooManyErrors)
  {
    BudgetThreshold(errors, matches);
    BudgetThreshold(more, matches);
  }

  /** The guarded comparison of one sample (the `try` block of the loop). */
  method CompareSample(env: Environment, loc: Location) returns (r: Outcome)
    ensures r == SampleVerdict(env, loc)
  {
    match env.tz(SampleArgs(loc))
    case Threw(m) =>
      r := Fail(m);
    case Returned(z) =>
      var tried;
      r, tried := AssertAnyIanaEql(env.zones, z, [Join(env.find(SampleArgs(loc)), ",")]);
  }

  /** The loop of the check. */
  method MatchRandomLocations(env: Environment, samples: seq<Location>)
    returns (matches: nat, errors: seq<Mismatch>, verdict: Outcome)
    ensures (matches, errors) == Tally(env, samples)
    ensures matches + |errors| == CountInhabited(env, samples)
    ensures verdict == BudgetVerdict(|errors|, matches)
  {
    matches, errors := 0, [];
    for i := 0 to |samples|
      invariant (matches, errors) == Tally(env, samples[..i])
    {
      var loc := samples[i];
      assert samples[..i + 1][..i] == samples[..i] && samples[..i + 1][i] == loc;
      if env.inhabited(loc.lat, loc.lon) {
        var r := CompareSample(env, loc);
        match r
        case Pass =>
          matches := matches + 1;
        case Fail(m) =>
          errors := errors + [Mismatch(loc, m)];
      }
    }
    assert samples[..|samples|] == samples;
    TallyPartitionsInhabited(env, samples);
    var percentMismatch := PercentMismatch(|errors|, matches);
    verdict := if Exceeds(percentMismatch, ErrorBudget) then Fail(TooManyErrors) else Pass;
  }

  /** When the geocoder answers a non-empty list, passing it as one argument
      gives the verdict that spreading it would. */
  lemma SampleVerdictAsSpread(env: Environment, loc: Location, z: string)
    requires env.tz(SampleArgs(loc)) == Returned(z)
    requires |env.find(SampleArgs(loc))| >= 1
    ensures SampleVerdict(env, loc) == AnyIanaEql(env.zones, z, env.find(SampleArgs(loc)))
  {
    JoinedListSameVerdict(env.zones, z, env.find(SampleArgs(loc)));
  }

  /** When the geocoder answers nothing, the single candidate is the empty
      string: the sample's verdict is the pairwise check against "", which
      never fails with an empty message. */
  lemma EmptyGeocoderAnswer(env: Environment, loc: Location, z: string)
    requires env.tz(SampleArgs(loc)) == Returned(z)
    requires env.find(SampleArgs(loc)) == []
    ensures SampleVerdict(env, loc) == AssertIanaEql(env.zones, z, "")
    ensures SampleVerdict(env, loc) != Fail("")
  {
    CandidatesOfJoinedEmptyList();
    SingleCandidateIsPairwise(env.zones, z, "");
  }

  /** For a known resolver answer other than "", an empty geocoder answer
      is reported as the invalid id "" exactly when the library does not know "". */
  lemma EmptyGeocoderAnswerNamesInvalidId(env: Environment, loc: Location, z: string)
    requires env.tz(SampleArgs(loc)) == Returned(z)
    requires env.find(SampleArgs(loc)) == []
    requires z != "" && env.zones.isValid(z)
    ensures SampleVerdict(env, loc) == Fail("b: invalid IANA zone: ") <==> !env.zones.isValid("")
  {
    EmptyGeocoderAnswer(env, loc, z);
    UnknownSecondIdReported(env.zones, z, "");
    assert "b: invalid IANA zone: " + "" == "b: invalid IANA zone: ";
  }
}
