/** Two concrete tables run through the transformation stage: five rows of
    which one has a missing cell, and three complete rows whose KPIs are
    worked out by hand. */
module Scenarios {
  import opened Wrappers
  import opened Rows
  import opened Transformer

  function Patient(age: int, admission: int, discharge: int, status: string): Row {
    Row(Some(age), Some("female"), Some("asthma"), Some(admission), Some(discharge), Some(status), [Some("x")])
  }

  /** Five rows; the third has a missing cell in a column the stage never reads. */
  function FiveRows(): Table {
    [Patient(30, 0, 2, "No"), Patient(40, 1, 3, "Yes"),
     Patient(50, 2, 4, "No").(others := [None]),
     Patient(60, 3, 5, "No"), Patient(70, 4, 6, "Yes")]
  }

  /** Of the five rows the third is dropped: four rows survive, in order,
      and the record count is four. */
  lemma ThirdOfFiveDropped()
    ensures DropIncomplete(FiveRows()) == FiveRows()[..2] + FiveRows()[3..]
    ensures Transform(Some(FiveRows())).value.metrics.recordCount == 4
  {
    var t := FiveRows();
    assert t[2].others[0].None?;
    DropSingleIncomplete(t, 2);
  }

  /** Three rows with stays of 2, 4 and 6 days and statuses Yes, No, Yes. */
  function ThreeRows(): Table {
    [Patient(25, 10, 12, "Yes"), Patient(45, 0, 4, "No"), Patient(65, 5, 11, "Yes")]
  }

  /** The average stay over the three rows is 4 days and the readmission
      rate is 200/3 percent (66.67 once rounded). */
  lemma KpiExample()
    ensures Transform(Some(ThreeRows())).value.metrics == Metrics(Some(4.0), Some(200.0 / 3.0), 3)
  {
    var t := ThreeRows();
    assert t[1..][1..] == t[2..] && t[2..][1..] == [];
    assert TotalStay(t) == 12;
    assert t[0].status == Some("Yes") && t[1].status == Some("No") && t[2].status == Some("Yes");
    assert NumWithStatus(t[2..], "Yes") == 1 && NumWithStatus(t[2..], "No") == 0;
    assert NumWithStatus(t, "Yes") == 2 && NumWithStatus(t, "No") == 1;
    assert YesSharePercent(t) == Some(200.0 / 3.0);
    assert (12 as real) / (3 as real) == 4.0;
    CompleteTableMetrics(t);
  }
}
