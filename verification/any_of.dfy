/** The any-of-candidates check `assert_any_iana_eql` (test.js:33-46): every
    argument may itself be a comma-joined list of zone ids; the expected id is
    compared against each piece in turn and the check passes at the first
    piece that is accepted, or else throws one error whose message joins every
    piece's failure message with ":". */
module AnyOf {
  import opened Text
  import opened Zones

  /** `others.flatMap((ea) => String(ea).split(","))`: the pieces of every
      argument, in argument order. */
  function Candidates(others: seq<string>): (cands: seq<string>)
    ensures forall i :: 0 <= i < |cands| ==> ',' !in cands[i]
    ensures |cands| >= |others|
    decreases |others|
  {
    if others == [] then []
    else
      SplitPiecesSeparatorFree(others[0], ',');
      Split(others[0], ',') + Candidates(others[1..])
  }

  /** Flattening drops nothing: the candidates, joined with commas, are the
      arguments joined with commas. */
  lemma {:induction false} CandidatesKeepText(others: seq<string>)
    ensures Join(Candidates(others), ",") == Join(others, ",")
    decreases |others|
  {
    if others != [] {
      var head, rest := Split(others[0], ','), Candidates(others[1..]);
      JoinSplit(others[0], ',');
      if |others| == 1 {
        assert head + rest == head;
      } else {
        CandidatesKeepText(others[1..]);
        JoinAppend(head, rest, ",");
      }
    }
  }

  /** The failure message of every candidate, in candidate order (a candidate
      that is accepted contributes an empty message). */
  function FailureMessages(lib: ZoneLibrary, iana: string, cands: seq<string>): (msgs: seq<string>)
    ensures |msgs| == |cands|
    decreases |cands|
  {
    if cands == [] then []
    else [FailureMessage(lib, iana, cands[0])] + FailureMessages(lib, iana, cands[1..])
  }

  function FailureMessage(lib: ZoneLibrary, iana: string, cand: string): string {
    match AssertIanaEql(lib, iana, cand)
    case Pass => ""
    case Fail(m) => m
  }

  predicate Accepted(lib: ZoneLibrary, iana: string, cand: string) {
    AssertIanaEql(lib, iana, cand) == Pass
  }

  /** Reference definition of the check: it passes exactly when some candidate
      is accepted; otherwise it fails with all failure messages joined by ":". */
  function AnyIanaEql(lib: ZoneLibrary, iana: string, others: seq<string>): Outcome {
    var cands := Candidates(others);
    if exists i :: 0 <= i < |cands| && Accepted(lib, iana, cands[i]) then Pass
    else Fail(Join(FailureMessages(lib, iana, cands), ":"))
  }

  /** The loop of the harness. Besides the verdict it reports `tried`, the
      number of pairwise checks it made before it returned: one past the first
      accepted candidate, or all of them. */
  method AssertAnyIanaEql(lib: ZoneLibrary, iana: string, others: seq<string>) returns (r: Outcome, tried: nat)
    ensures r == AnyIanaEql(lib, iana, others)
    ensures r == Pass ==> 1 <= tried <= |Candidates(others)|
                          && Accepted(lib, iana, Candidates(others)[tried - 1])
                          && forall j :: 0 <= j < tried - 1 ==> !Accepted(lib, iana, Candidates(others)[j])
    ensures r != Pass ==> tried == |Candidates(others)|
  {
    var arr := Candidates(others);
    var errors: seq<string> := [];
    var k := 0;
    while k < |arr|
      invariant 0 <= k <= |arr|
      invariant forall j :: 0 <= j < k ==> !Accepted(lib, iana, arr[j])
      invariant errors == FailureMessages(lib, iana, arr[..k])
    {
      match AssertIanaEql(lib, iana, arr[k])
      case Pass =>
        return Pass, k + 1;
      case Fail(m) =>
        FailureMessagesSnoc(lib, iana, arr[..k], arr[k]);
        assert arr[..k + 1] == arr[..k] + [arr[k]];
        errors := errors + [m];
      k := k + 1;
    }
    assert arr[..k] == arr;
    r, tried := Fail(Join(errors, ":")), k;
  }

  lemma {:induction false} FailureMessagesSnoc(lib: ZoneLibrary, iana: string, cands: seq<string>, c: string)
    ensures FailureMessages(lib, iana, cands + [c]) == FailureMessages(lib, iana, cands) + [FailureMessage(lib, iana, c)]
    decreases |cands|
  {
    if cands != [] {
      assert (cands + [c])[1..] == cands[1..] + [c];
      FailureMessagesSnoc(lib, iana, cands[1..], c);
    } else {
      assert cands + [c] == [c];
      assert FailureMessages(lib, iana, [c]) == [FailureMessage(lib, iana, c)] + FailureMessages(lib, iana, []);
    }
  }

  /** Arguments that contain no comma are the candidates themselves. */
  lemma {:induction false} CandidatesOfCommaFree(others: seq<string>)
    requires forall i :: 0 <= i < |others| ==> ',' !in others[i]
    ensures Candidates(others) == others
    decreases |others|
  {
    if others != [] {
      CandidatesOfCommaFree(others[1..]);
      SplitJoin([others[0]], ',');
      assert others == [others[0]] + others[1..];
    }
  }

  /** Passing a non-empty list as one argument (it is converted to its
      comma-joined string) yields the same candidates as spreading it. */
  lemma {:induction false} CandidatesOfJoinedList(zones: seq<string>)
    requires |zones| >= 1
    ensures Candidates([Join(zones, ",")]) == Candidates(zones)
    decreases |zones|
  {
    assert Candidates([Join(zones, ",")]) == Split(Join(zones, ","), ',') + Candidates([]);
    if |zones| == 1 {
      assert Candidates(zones) == Split(zones[0], ',') + Candidates([]);
    } else {
      CandidatesOfJoinedList(zones[1..]);
      var rest := Join(zones[1..], ",");
      assert Candidates([rest]) == Split(rest, ',') + Candidates([]);
      assert Join(zones, ",") == zones[0] + [','] + rest;
      SplitAppend(zones[0], rest, ',');
    }
  }

  /** The empty list, passed as one argument, becomes one empty candidate. */
  lemma CandidatesOfJoinedEmptyList()
    ensures Candidates([Join([], ",")]) == [""]
  {
  }

  /** With no candidate at all the check fails with an empty message. */
  lemma NoCandidatesFailsEmpty(lib: ZoneLibrary, iana: string)
    ensures AnyIanaEql(lib, iana, []) == Fail("")
  {
  }

  /** With a single comma-free candidate the check is the pairwise check. */
  lemma SingleCandidateIsPairwise(lib: ZoneLibrary, iana: string, z: string)
    requires ',' !in z
    ensures AnyIanaEql(lib, iana, [z]) == AssertIanaEql(lib, iana, z)
  {
    CandidatesOfCommaFree([z]);
    var r := AssertIanaEql(lib, iana, z);
    if r.Fail? {
      assert FailureMessages(lib, iana, [z]) == [r.msg] + FailureMessages(lib, iana, []);
    }
  }

  /** Spreading a candidate list and passing it as one argument give the same
      verdict when the list is non-empty. */
  lemma JoinedListSameVerdict(lib: ZoneLibrary, iana: string, zones: seq<string>)
    requires |zones| >= 1
    ensures AnyIanaEql(lib, iana, [Join(zones, ",")]) == AnyIanaEql(lib, iana, zones)
  {
    CandidatesOfJoinedList(zones);
  }
}
