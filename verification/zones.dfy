/** The pairwise zone-equivalence check `assert_iana_eql` (test.js:48-88): two
    zone ids are accepted when they are the same string, or when both name
    valid zones whose UTC offsets agree at a standard-time instant and at a
    daylight-saving instant. */
module Zones {
  import opened Text

  /** A check's verdict: passing, or the message of the error it throws. */
  datatype Outcome = Pass | Fail(msg: string)

  /** The zone library the harness consults, as two oracles: whether a name
      resolves to a known zone, and a zone's UTC offset in minutes at an
      instant given in milliseconds since the epoch. */
  datatype ZoneLibrary = ZoneLibrary(isValid: string -> bool, offset: (string, int) -> int)

  /** 2023-01-01T00:00:00Z, standard time in the northern hemisphere. */
  const StandardInstant: int := 1672531200000
  /** 2023-07-01T00:00:00Z, daylight-saving time in the northern hemisphere. */
  const DaylightInstant: int := 1688169600000

  /** The guards of the check, named in the order in which they are tried. */
  datatype Guard = ValidA | ValidB | SameStandardOffset | SameDaylightOffset

  const GuardOrder: seq<Guard> := [ValidA, ValidB, SameStandardOffset, SameDaylightOffset]

  predicate Holds(lib: ZoneLibrary, a: string, b: string, g: Guard) {
    match g
    case ValidA => lib.isValid(a)
    case ValidB => lib.isValid(b)
    case SameStandardOffset => lib.offset(a, StandardInstant) == lib.offset(b, StandardInstant)
    case SameDaylightOffset => lib.offset(a, DaylightInstant) == lib.offset(b, DaylightInstant)
  }

  /** An offset mismatch names `a` with its offset first and ends with `b`'s
      offset in parentheses. */
  function OffsetComplaint(lib: ZoneLibrary, a: string, b: string, instant: int, kind: string): (r: string)
    ensures StartsWith(r, "expected ")
    ensures StartsWith(r, "expected " + (a + "(" + IntToString(lib.offset(a, instant)) + ")"))
    ensures EndsWith(r, "(" + IntToString(lib.offset(b, instant)) + ")")
  {
    var named := a + "(" + IntToString(lib.offset(a, instant)) + ")";
    var middle := " to have the same " + kind + " offset as " + b;
    var tail := "(" + IntToString(lib.offset(b, instant)) + ")";
    var head := "expected " + named;
    Framed(head, middle, tail);
    StartsWithShorter(head + middle + tail, "expected ", named);
    head + middle + tail
  }

  /** The message of the error thrown when guard `g` fails: its first word
      tells which guard failed, and a validity message ends with the id. */
  function Complaint(lib: ZoneLibrary, a: string, b: string, g: Guard): (r: string)
    ensures g == ValidA <==> StartsWith(r, "a: ")
    ensures g == ValidB <==> StartsWith(r, "b: ")
    ensures g in {SameStandardOffset, SameDaylightOffset} <==> StartsWith(r, "expected ")
    ensures g == ValidA ==> EndsWith(r, a)
    ensures g == ValidB ==> EndsWith(r, b)
  {
    match g
    case ValidA =>
      ValidityMessage("a: ", a);
      "a: " + InvalidZone + a
    case ValidB =>
      ValidityMessage("b: ", b);
      "b: " + InvalidZone + b
    case SameStandardOffset =>
      var r := OffsetComplaint(lib, a, b, StandardInstant, "standard-time");
      OffsetMessage(r);
      r
    case SameDaylightOffset =>
      var r := OffsetComplaint(lib, a, b, DaylightInstant, "daylight-savings-time");
      OffsetMessage(r);
      r
  }

  const InvalidZone: string := "invalid IANA zone: "

  /** A validity message starts with the operand's tag, "a: " or "b: ", and
      ends with the id. */
  lemma ValidityMessage(operand: string, id: string)
    requires operand == "a: " || operand == "b: "
    ensures StartsWith(operand + InvalidZone + id, operand)
    ensures EndsWith(operand + InvalidZone + id, id)
    ensures !StartsWith(operand + InvalidZone + id, "expected ")
    ensures operand == "a: " ==> !StartsWith(operand + InvalidZone + id, "b: ")
    ensures operand == "b: " ==> !StartsWith(operand + InvalidZone + id, "a: ")
  {
    var r := operand + InvalidZone + id;
    StartsWithShorter(r, operand, InvalidZone + id);
    EndsWithConcat(operand + InvalidZone, id);
    StartsWithFirst(r, "expected ");
    StartsWithFirst(r, "a: ");
    StartsWithFirst(r, "b: ");
  }

  /** An offset message is not a validity message. */
  lemma OffsetMessage(r: string)
    requires StartsWith(r, "expected ")
    ensures !StartsWith(r, "a: ") && !StartsWith(r, "b: ")
  {
    StartsWithFirst(r, "expected ");
    StartsWithFirst(r, "a: ");
    StartsWithFirst(r, "b: ");
  }

  /** The relation the check decides: identical ids, or every guard holds. */
  predicate Equivalent(lib: ZoneLibrary, a: string, b: string) {
    a == b || forall i :: 0 <= i < |GuardOrder| ==> Holds(lib, a, b, GuardOrder[i])
  }

  /** Guard number `i` is the first one that fails. */
  predicate FirstFailing(lib: ZoneLibrary, a: string, b: string, i: int) {
    0 <= i < |GuardOrder| && !Holds(lib, a, b, GuardOrder[i])
    && forall j :: 0 <= j < i ==> Holds(lib, a, b, GuardOrder[j])
  }

  function AssertIanaEql(lib: ZoneLibrary, a: string, b: string): (r: Outcome)
    ensures a == b ==> r == Pass
    ensures r == Pass <==> Equivalent(lib, a, b)
  {
    if a == b then Pass
    else if !lib.isValid(a) then
      assert !Holds(lib, a, b, GuardOrder[0]);
      Fail(Complaint(lib, a, b, ValidA))
    else if !lib.isValid(b) then
      assert !Holds(lib, a, b, GuardOrder[1]);
      Fail(Complaint(lib, a, b, ValidB))
    else if lib.offset(a, StandardInstant) != lib.offset(b, StandardInstant) then
      assert !Holds(lib, a, b, GuardOrder[2]);
      Fail(Complaint(lib, a, b, SameStandardOffset))
    else if lib.offset(a, DaylightInstant) != lib.offset(b, DaylightInstant) then
      assert !Holds(lib, a, b, GuardOrder[3]);
      Fail(Complaint(lib, a, b, SameDaylightOffset))
    else
      assert forall i :: 0 <= i < |GuardOrder| ==> Holds(lib, a, b, GuardOrder[i]);
      Pass
  }

  lemma AcceptanceSymmetric(lib: ZoneLibrary, a: string, b: string)
    ensures AssertIanaEql(lib, a, b).Pass? <==> AssertIanaEql(lib, b, a).Pass?
  {
  }

  /** With one library and the fixed pair of instants, acceptance is transitive. */
  lemma AcceptanceTransitive(lib: ZoneLibrary, a: string, b: string, c: string)
    requires AssertIanaEql(lib, a, b) == Pass && AssertIanaEql(lib, b, c) == Pass
    ensures AssertIanaEql(lib, a, c) == Pass
  {
  }

  /** For distinct ids the check fails exactly when a guard fails, and then
      reports the earliest one: `a` unknown, `b` unknown, standard offsets
      differ, daylight offsets differ. */
  lemma RejectionReportsFirstFailingGuard(lib: ZoneLibrary, a: string, b: string, i: int)
    requires a != b && FirstFailing(lib, a, b, i)
    ensures AssertIanaEql(lib, a, b) == Fail(Complaint(lib, a, b, GuardOrder[i]))
  {
    if i > 0 {
      assert Holds(lib, a, b, GuardOrder[0]);
    }
    if i > 1 {
      assert Holds(lib, a, b, GuardOrder[1]);
    }
    if i > 2 {
      assert Holds(lib, a, b, GuardOrder[2]);
    }
  }

  /** When the first id is known, the check reports the second id as unknown
      exactly when the library does not know it. */
  lemma UnknownSecondIdReported(lib: ZoneLibrary, a: string, b: string)
    requires a != b && lib.isValid(a)
    ensures AssertIanaEql(lib, a, b) == Fail("b: invalid IANA zone: " + b) <==> !lib.isValid(b)
  {
    assert "b: " + InvalidZone + b == "b: invalid IANA zone: " + b;
    var v := AssertIanaEql(lib, a, b);
    if lib.isValid(b) && v.Fail? {
      StartsWithFirst(v.msg, "expected ");
    }
  }
}
