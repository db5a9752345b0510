/** The healthcare table: one `Row` per record, every cell possibly missing. */
module Rows {
  import opened Wrappers

  /** One record. Dates are day numbers (dates already parsed), so that the
      difference of two of them is a number of days. `others` holds the cells
      of every further column of the source file: the pipeline never reads
      them, but a missing cell there still removes the row in the
      complete-case drop. */
  datatype Row = Row(
    age: Option<int>,
    gender: Option<string>,
    condition: Option<string>,
    admission: Option<int>,
    discharge: Option<int>,
    status: Option<string>,
    others: seq<Option<string>>)

  /** An ordered collection of rows sharing one schema. */
  type Table = seq<Row>

  /** No cell of the row, in any column, is missing. */
  predicate Complete(r: Row) {
    && r.age.Some? && r.gender.Some? && r.condition.Some?
    && r.admission.Some? && r.discharge.Some? && r.status.Some?
    && forall k :: 0 <= k < |r.others| ==> r.others[k].Some?
  }

  /** Number of rows without a missing cell. */
  function NumComplete(t: Table): nat {
    if |t| == 0 then 0
    else (if Complete(t[0]) then 1 else 0) + NumComplete(t[1..])
  }

  /** Number of rows whose readmission status is exactly `s`. */
  function NumWithStatus(t: Table, s: string): nat {
    if |t| == 0 then 0
    else (if t[0].status == Some(s) then 1 else 0) + NumWithStatus(t[1..], s)
  }

  /** `a` is `b` with some elements removed, the rest kept in order. */
  ghost predicate IsSubsequence<T>(a: seq<T>, b: seq<T>)
    decreases |b|
  {
    if |a| == 0 then true
    else if |b| == 0 then false
    else (a[0] == b[0] && IsSubsequence(a[1..], b[1..])) || IsSubsequence(a, b[1..])
  }

  // The columns the validator reads, as the dataframe would hand them over.

  function Ages(t: Table): seq<Option<int>> {
    seq(|t|, i requires 0 <= i < |t| => t[i].age)
  }

  function Genders(t: Table): seq<Option<string>> {
    seq(|t|, i requires 0 <= i < |t| => t[i].gender)
  }

  function Admissions(t: Table): seq<Option<int>> {
    seq(|t|, i requires 0 <= i < |t| => t[i].admission)
  }

  function Discharges(t: Table): seq<Option<int>> {
    seq(|t|, i requires 0 <= i < |t| => t[i].discharge)
  }
}
