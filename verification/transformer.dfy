/** The transformation stage: drop incomplete rows, normalise two text
    columns, add the derived columns and summarise the surviving rows. */
module Transformer {
  import opened Wrappers
  import opened Rows
  import opened Text
  import opened Features
  import opened Series
  import opened Validator

  /** A surviving row with the three columns the stage adds. */
  datatype Enriched = Enriched(
    row: Row,
    lengthOfStay: Option<int>,
    ageGroup: Option<AgeGroup>,
    readmitted: Option<int>)

  /** The KPI summary. A mean over no present value (NaN in the source) is
      `None`; rounding to two decimals is not modelled. */
  datatype Metrics = Metrics(
    averageLengthOfStay: Option<real>,
    readmissionRatePercent: Option<real>,
    recordCount: nat)

  datatype Output = Output(data: seq<Enriched>, metrics: Metrics)

  /** The complete-case drop: remove every row that has a missing cell in
      any column. */
  function DropIncomplete(t: Table): (kept: Table)
    ensures forall i :: 0 <= i < |kept| ==> Complete(kept[i])
    ensures |kept| == NumComplete(t) <= |t|
  {
    if |t| == 0 then []
    else if Complete(t[0]) then [t[0]] + DropIncomplete(t[1..])
    else DropIncomplete(t[1..])
  }

  /** The drop keeps every complete row as often as it occurs in the input,
      and nothing else. */
  lemma {:induction false} DropIncompleteKeepsCompleteRows(t: Table)
    ensures forall x :: multiset(DropIncomplete(t))[x] ==
                          if Complete(x) then multiset(t)[x] else 0
  {
    if |t| > 0 {
      DropIncompleteKeepsCompleteRows(t[1..]);
      assert t == [t[0]] + t[1..];
      assert multiset(t) == multiset{t[0]} + multiset(t[1..]);
    }
  }

  /** The drop keeps the surviving rows in their original relative order. */
  lemma {:induction false} DropIncompleteKeepsOrder(t: Table)
    ensures IsSubsequence(DropIncomplete(t), t)
  {
    if |t| > 0 {
      DropIncompleteKeepsOrder(t[1..]);
      var kept := DropIncomplete(t);
      if Complete(t[0]) {
        assert kept[0] == t[0] && kept[1..] == DropIncomplete(t[1..]);
      } else if |kept| > 0 {
        assert kept == DropIncomplete(t[1..]);
      }
    }
  }

  /** The drop leaves a table unchanged exactly when no row has a missing
      cell. */
  lemma {:induction false} DropIncompleteIdentity(t: Table)
    ensures DropIncomplete(t) == t <==> forall i :: 0 <= i < |t| ==> Complete(t[i])
  {
    if |t| > 0 {
      DropIncompleteIdentity(t[1..]);
      if forall i :: 0 <= i < |t| ==> Complete(t[i]) {
        assert forall i :: 0 <= i < |t[1..]| ==> Complete(t[1..][i]);
      }
    }
  }

  /** When exactly one row has a missing cell, the drop removes that row
      and keeps all the others in order. */
  lemma {:induction false} DropSingleIncomplete(t: Table, j: nat)
    requires j < |t| && !Complete(t[j])
    requires forall i :: 0 <= i < |t| && i != j ==> Complete(t[i])
    ensures DropIncomplete(t) == t[..j] + t[j + 1..]
  {
    if j == 0 {
      assert forall i :: 0 <= i < |t[1..]| ==> Complete(t[1..][i]);
      DropIncompleteIdentity(t[1..]);
      assert DropIncomplete(t) == DropIncomplete(t[1..]);
      assert t[..0] + t[1..] == t[1..];
    } else {
      var rest := t[1..];
      assert forall i :: 0 <= i < |rest| && i != j - 1 ==> Complete(rest[i]);
      DropSingleIncomplete(rest, j - 1);
      assert Complete(t[0]);
      assert DropIncomplete(t) == [t[0]] + DropIncomplete(rest);
      assert rest[..j - 1] == t[1..j] && rest[j..] == t[j + 1..];
      assert t[..j] + t[j + 1..] == [t[0]] + (t[1..j] + t[j + 1..]);
    }
  }

  /** Capitalize a cell when it holds a value; a missing cell stays missing. */
  function CapitalizeCell(cell: Option<string>): (c: Option<string>)
    ensures c.Some? <==> cell.Some?
    ensures c.Some? ==> IsCapitalized(c.value) && LowerAll(c.value) == LowerAll(cell.value)
  {
    if cell.Some? then CapitalizeShape(cell.value); Some(Capitalize(cell.value)) else None
  }

  /** Normalise the gender and medical-condition cells to capitalized form.
      Only the letter case of those two cells may change. */
  function Normalize(r: Row): (n: Row)
    ensures n.age == r.age && n.admission == r.admission && n.discharge == r.discharge
    ensures n.status == r.status && n.others == r.others
    ensures n.gender.Some? <==> r.gender.Some?
    ensures n.gender.Some? ==>
              IsCapitalized(n.gender.value) && LowerAll(n.gender.value) == LowerAll(r.gender.value)
    ensures n.condition.Some? <==> r.condition.Some?
    ensures n.condition.Some? ==>
              IsCapitalized(n.condition.value) && LowerAll(n.condition.value) == LowerAll(r.condition.value)
  {
    r.(gender := CapitalizeCell(r.gender), condition := CapitalizeCell(r.condition))
  }

  /** Normalising twice is the same as normalising once, and it neither
      creates nor removes a missing cell. */
  lemma NormalizeIdempotent(r: Row)
    ensures Normalize(Normalize(r)) == Normalize(r)
    ensures Complete(Normalize(r)) <==> Complete(r)
  {
    if r.gender.Some? { CapitalizeIdempotent(r.gender.value); }
    if r.condition.Some? { CapitalizeIdempotent(r.condition.value); }
  }

  /** Add the three derived columns to a row. */
  function Enrich(r: Row): (e: Enriched)
    ensures e.row == r
    ensures e.lengthOfStay.Some? <==> r.admission.Some? && r.discharge.Some?
    ensures e.lengthOfStay.Some? ==> r.admission.value + e.lengthOfStay.value == r.discharge.value
    ensures r.age.None? ==> e.ageGroup.None?
    ensures e.readmitted.Some? <==> r.status == Some("Yes") || r.status == Some("No")
    ensures e.readmitted.Some? ==> (e.readmitted.value == 1 <==> r.status == Some("Yes"))
  {
    Enriched(r, LengthOfStay(r.admission, r.discharge), AgeGroupOf(r.age), Readmitted(r.status))
  }

  /** Normalise and enrich every surviving row, in order. */
  function Prepare(kept: Table): (data: seq<Enriched>)
    ensures |data| == |kept|
    ensures forall k :: 0 <= k < |kept| ==> data[k] == Enrich(Normalize(kept[k]))
  {
    if |kept| == 0 then [] else [Enrich(Normalize(kept[0]))] + Prepare(kept[1..])
  }

  /** The length-of-stay column of the enriched table. */
  function Stays(data: seq<Enriched>): seq<Option<int>> {
    if |data| == 0 then [] else [data[0].lengthOfStay] + Stays(data[1..])
  }

  /** The readmitted column of the enriched table. */
  function Flags(data: seq<Enriched>): seq<Option<int>> {
    if |data| == 0 then [] else [data[0].readmitted] + Flags(data[1..])
  }

  /** The two columns hold, cell by cell, the stays and the flags of the rows. */
  lemma {:induction false} ColumnsOf(data: seq<Enriched>)
    ensures |Stays(data)| == |Flags(data)| == |data|
    ensures forall k :: 0 <= k < |data| ==>
              Stays(data)[k] == data[k].lengthOfStay && Flags(data)[k] == data[k].readmitted
  {
    if |data| > 0 {
      ColumnsOf(data[1..]);
    }
  }

  /** A mean scaled to a percentage; an absent mean stays absent. */
  function Percent(m: Option<real>): (p: Option<real>)
    ensures p.Some? <==> m.Some?
  {
    if m.Some? then Some(m.value * 100.0) else None
  }

  /** The three KPIs of an enriched table: the mean stay, the mean flag as a
      percentage, and the number of rows. A mean is absent exactly when its
      column has no present cell; flags of 0 or 1 keep the rate in [0, 100]. */
  function Summarize(data: seq<Enriched>): (m: Metrics)
    ensures m.recordCount == |data|
    ensures m.averageLengthOfStay.Some? <==>
              exists k :: 0 <= k < |data| && data[k].lengthOfStay.Some?
    ensures m.readmissionRatePercent.Some? <==>
              exists k :: 0 <= k < |data| && data[k].readmitted.Some?
    ensures (forall k :: 0 <= k < |data| && data[k].readmitted.Some? ==>
               0 <= data[k].readmitted.value <= 1) ==>
            (m.readmissionRatePercent.Some? ==> 0.0 <= m.readmissionRatePercent.value <= 100.0)
  {
    ColumnsOf(data);
    RateWithin(Flags(data));
    Metrics(Mean(Stays(data)), Percent(Mean(Flags(data))), |data|)
  }

  /** A percentage of the mean of 0/1 flags lies in [0, 100]. */
  lemma RateWithin(flags: seq<Option<int>>)
    ensures (forall i :: 0 <= i < |flags| && flags[i].Some? ==> 0 <= flags[i].value <= 1) ==>
            (Percent(Mean(flags)).Some? ==> 0.0 <= Percent(Mean(flags)).value <= 100.0)
  {
    if forall i :: 0 <= i < |flags| && flags[i].Some? ==> 0 <= flags[i].value <= 1 {
      MeanWithin(flags, 0, 1);
    }
  }

  /** Transform a validated table. An absent table gives an absent result
      and no error. Otherwise the result holds one enriched row per complete
      input row, and the record count is the number of those rows. */
  function Transform(t: Option<Table>): (r: Option<Output>)
    ensures r.None? <==> t.None?
    ensures r.Some? ==>
              |r.value.data| == r.value.metrics.recordCount == NumComplete(t.value) <= |t.value|
    ensures r.Some? ==> forall k :: 0 <= k < |r.value.data| ==>
              Complete(r.value.data[k].row) && r.value.data[k].lengthOfStay.Some?
  {
    match t
    case None => None
    case Some(rows) =>
      var kept := DropIncomplete(rows);
      var data := Prepare(kept);
      assert forall k :: 0 <= k < |data| ==> Complete(kept[k]) && Complete(Normalize(kept[k]));
      Some(Output(data, Summarize(data)))
  }

  /** The metrics are the summary of the surviving rows. */
  lemma TransformSummarizesKept(t: Table)
    ensures Transform(Some(t)).value.metrics == Summarize(Prepare(DropIncomplete(t)))
  {
  }

  /** Day difference of a complete row. */
  function StayOf(r: Row): int
    requires Complete(r)
  {
    r.discharge.value - r.admission.value
  }

  /** Sum of the day differences of complete rows. */
  function TotalStay(t: Table): int
    requires forall i :: 0 <= i < |t| ==> Complete(t[i])
  {
    if |t| == 0 then 0 else StayOf(t[0]) + TotalStay(t[1..])
  }

  lemma {:induction false} StaysOfComplete(kept: Table)
    requires forall i :: 0 <= i < |kept| ==> Complete(kept[i])
    ensures Sum(Stays(Prepare(kept))) == TotalStay(kept)
    ensures Count(Stays(Prepare(kept))) == |kept|
  {
    if |kept| > 0 {
      StaysOfComplete(kept[1..]);
      var data := Prepare(kept);
      assert data[1..] == Prepare(kept[1..]);
      assert Stays(data)[1..] == Stays(data[1..]);
    }
  }

  lemma {:induction false} FlagsCountStatuses(kept: Table)
    ensures Sum(Flags(Prepare(kept))) == NumWithStatus(kept, "Yes")
    ensures Count(Flags(Prepare(kept))) == NumWithStatus(kept, "Yes") + NumWithStatus(kept, "No")
  {
    if |kept| > 0 {
      FlagsCountStatuses(kept[1..]);
      var data := Prepare(kept);
      assert data[1..] == Prepare(kept[1..]);
      assert Flags(data)[1..] == Flags(data[1..]);
    }
  }

  /** Every present readmission flag is 0 or 1. */
  lemma FlagsAreBits(data: seq<Enriched>)
    requires forall k :: 0 <= k < |data| ==> data[k] == Enrich(data[k].row)
    ensures forall i :: 0 <= i < |Flags(data)| && Flags(data)[i].Some? ==>
              0 <= Flags(data)[i].value <= 1
  {
    ColumnsOf(data);
  }

  /** The average stay is the total day difference of the surviving rows
      over their number, and is absent when no row survives. */
  lemma AverageStayIsTotalOverCount(t: Table)
    ensures var m := Transform(Some(t)).value.metrics;
            var kept := DropIncomplete(t);
            m.averageLengthOfStay ==
              if |kept| == 0 then None
              else Some(TotalStay(kept) as real / |kept| as real)
  {
    StaysOfComplete(DropIncomplete(t));
  }

  /** Reference definition of the readmission rate over a table: the
      percentage of "Yes" among the rows whose status is exactly "Yes" or
      "No", absent when there are no such rows. */
  function YesSharePercent(t: Table): Option<real> {
    var yes := NumWithStatus(t, "Yes");
    var no := NumWithStatus(t, "No");
    if yes + no == 0 then None else Some(yes as real / (yes + no) as real * 100.0)
  }

  /** The readmission rate counts only rows whose status is exactly "Yes"
      or "No": it is the reference percentage over the surviving rows, and
      lies in [0, 100] when present. */
  lemma ReadmissionRateIsYesShare(t: Table)
    ensures Transform(Some(t)).value.metrics.readmissionRatePercent ==
              YesSharePercent(DropIncomplete(t))
    ensures Transform(Some(t)).value.metrics.readmissionRatePercent.Some? ==>
              0.0 <= Transform(Some(t)).value.metrics.readmissionRatePercent.value <= 100.0
  {
    TransformSummarizesKept(t);
    RateOfYesAndNo(DropIncomplete(t));
  }

  lemma RateOfYesAndNo(kept: Table)
    ensures Percent(Mean(Flags(Prepare(kept)))) == YesSharePercent(kept)
    ensures YesSharePercent(kept).Some? ==> 0.0 <= YesSharePercent(kept).value <= 100.0
  {
    var flags := Flags(Prepare(kept));
    var yes := NumWithStatus(kept, "Yes");
    var no := NumWithStatus(kept, "No");
    assert YesSharePercent(kept) ==
           (if yes + no == 0 then None else Some(yes as real / (yes + no) as real * 100.0));
    FlagsCountStatuses(kept);
    assert Mean(flags) == (if yes + no == 0 then None else Some(yes as real / (yes + no) as real)) by {
      MeanOfTotals(flags, yes, yes + no);
    }
    PercentOfShare(Mean(flags), yes, no);
    ShareWithin(yes, no);
  }

  /** A share of "Yes" among "Yes" and "No", as a percentage, lies in [0, 100]. */
  lemma ShareWithin(yes: nat, no: nat)
    ensures yes + no > 0 ==> 0.0 <= yes as real / (yes + no) as real * 100.0 <= 100.0
  {
    if yes + no > 0 {
      QuotientWithin(yes, yes + no, 0, 1);
    }
  }

  lemma PercentOfShare(m: Option<real>, yes: nat, no: nat)
    requires m == (if yes + no == 0 then None else Some(yes as real / (yes + no) as real))
    ensures Percent(m) == (if yes + no == 0 then None else Some(yes as real / (yes + no) as real * 100.0))
  {
  }

  /** On a table without missing cells all three KPIs are read off the
      table itself: the average day difference, the reference readmission
      percentage and the number of rows. */
  lemma CompleteTableMetrics(t: Table)
    requires forall i :: 0 <= i < |t| ==> Complete(t[i])
    ensures Transform(Some(t)).value.metrics ==
              Metrics(if |t| == 0 then None else Some(TotalStay(t) as real / |t| as real),
                      YesSharePercent(t), |t|)
  {
    DropIncompleteIdentity(t);
    AverageStayIsTotalOverCount(t);
    ReadmissionRateIsYesShare(t);
  }

  /** Each surviving row, in order, is the normalised input row with its
      derived columns: the exact day difference, the age group of its age
      and the flag of its status. */
  lemma TransformRows(t: Table)
    ensures var data := Transform(Some(t)).value.data;
            var kept := DropIncomplete(t);
            forall k :: 0 <= k < |data| ==>
              && data[k].row == Normalize(kept[k])
              && data[k].lengthOfStay == Some(kept[k].discharge.value - kept[k].admission.value)
              && data[k].ageGroup == AgeGroupOf(kept[k].age)
              && data[k].readmitted == Readmitted(kept[k].status)
  {
  }

  /** After validation every surviving row has an age in [0, 120], and the
      only such age without an age group is 120 itself. */
  lemma ValidatedRowsHaveGroupsBelowMax(t: Table)
    requires Validate(Some(t)).Success?
    ensures var data := Transform(Some(t)).value.data;
            forall k :: 0 <= k < |data| ==>
              && data[k].row.age.Some?
              && 0 <= data[k].row.age.value <= 120
              && (data[k].ageGroup.None? <==> data[k].row.age.value == 120)
  {
    ValidatePassesIffEveryRowValid(t);
    var kept := DropIncomplete(t);
    var data := Transform(Some(t)).value.data;
    DropIncompleteKeepsCompleteRows(t);
    forall k | 0 <= k < |data|
      ensures data[k].row.age.Some? && 0 <= data[k].row.age.value <= 120
      ensures data[k].ageGroup.None? <==> data[k].row.age.value == 120
    {
      assert multiset(kept)[kept[k]] > 0;
      assert kept[k] in t;
    }
  }
}
