/** The validation stage: a fail-fast gate that lets a table through
    untouched or stops the run with the first rule the table breaks. */
module Validator {
  import opened Wrappers
  import opened Rows
  import opened Series

  /** The rules, in the order they are checked. Each stands for the
      `ValueError` the stage raises. */
  datatype Violation = InvalidAge | MissingGender | MissingDates

  /** The message the raised error carries. */
  function Message(v: Violation): string {
    match v
    case InvalidAge => "Invalid ages detected."
    case MissingGender => "Missing gender data detected."
    case MissingDates => "Missing admission/discharge dates."
  }

  /** The error text names the rule: distinct rules carry distinct texts. */
  lemma MessageIdentifiesRule(v: Violation, w: Violation)
    ensures Message(v) == Message(w) <==> v == w
  {
  }

  // The three rules, stated for one row.

  /** The age is present and lies in [0, 120], both ends included. */
  predicate AgeRule(r: Row) {
    r.age.Some? && 0 <= r.age.value <= 120
  }

  predicate GenderRule(r: Row) {
    r.gender.Some?
  }

  predicate DatesRule(r: Row) {
    r.admission.Some? && r.discharge.Some?
  }

  /** Validate an extracted table. An absent table is passed on as absent
      without error; a present one is checked column by column (ages, then
      genders, then both date columns) and comes back unchanged when all
      three checks pass. */
  function Validate(t: Option<Table>): (r: Result<Option<Table>, Violation>)
    ensures t.None? ==> r == Success(None)
    ensures r.Success? ==> r.value == t
    ensures t.Some? ==>
              (r == Failure(InvalidAge) <==>
                 exists i :: 0 <= i < |t.value| && !AgeRule(t.value[i]))
    ensures t.Some? ==>
              (r == Failure(MissingGender) <==>
                 && (forall i :: 0 <= i < |t.value| ==> AgeRule(t.value[i]))
                 && exists i :: 0 <= i < |t.value| && !GenderRule(t.value[i]))
    ensures t.Some? ==>
              (r == Failure(MissingDates) <==>
                 && (forall i :: 0 <= i < |t.value| ==> AgeRule(t.value[i]))
                 && (forall i :: 0 <= i < |t.value| ==> GenderRule(t.value[i]))
                 && exists i :: 0 <= i < |t.value| && !DatesRule(t.value[i]))
  {
    match t
    case None => Success(None)
    case Some(rows) =>
      assert forall i :: 0 <= i < |rows| ==>
        && Ages(rows)[i] == rows[i].age && Genders(rows)[i] == rows[i].gender
        && Admissions(rows)[i] == rows[i].admission && Discharges(rows)[i] == rows[i].discharge;
      if !AllBetween(Ages(rows), 0, 120) then Failure(InvalidAge)
      else if AnyNull(Genders(rows)) then Failure(MissingGender)
      else if AnyNull(Admissions(rows)) || AnyNull(Discharges(rows)) then Failure(MissingDates)
      else Success(t)
  }

  /** A present table passes exactly when every row obeys all three rules. */
  lemma ValidatePassesIffEveryRowValid(t: Table)
    ensures Validate(Some(t)).Success? <==>
              forall i :: 0 <= i < |t| ==>
                AgeRule(t[i]) && GenderRule(t[i]) && DatesRule(t[i])
  {
    var r := Validate(Some(t));
    if r.Failure? {
      match r.error
      case InvalidAge =>
      case MissingGender =>
      case MissingDates =>
    }
  }
}
