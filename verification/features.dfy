/** The derived columns the transformer adds to every surviving row:
    length of stay, age group and the numeric readmission flag. */
module Features {
  import opened Wrappers

  /** Days between admission and discharge. Both dates must be present;
      the difference is not clamped, so a discharge recorded before the
      admission gives a negative stay. */
  function LengthOfStay(admission: Option<int>, discharge: Option<int>): (days: Option<int>)
    ensures days.Some? <==> admission.Some? && discharge.Some?
    ensures days.Some? ==> admission.value + days.value == discharge.value
    ensures days.Some? ==> (days.value < 0 <==> discharge.value < admission.value)
  {
    if admission.Some? && discharge.Some? then Some(discharge.value - admission.value)
    else None
  }

  predicate StrictlyIncreasing(bins: seq<int>) {
    forall i, j :: 0 <= i < j < |bins| ==> bins[i] < bins[j]
  }

  /** Binning with half-open intervals closed on the left (`right=False`):
      the index `k` of the interval `[bins[k], bins[k+1])` holding `x`, or
      `None` when `x` lies below the first edge or at or above the last. */
  function Cut(x: int, bins: seq<int>): (k: Option<nat>)
    requires StrictlyIncreasing(bins)
    ensures k.Some? ==> k.value + 1 < |bins| && bins[k.value] <= x < bins[k.value + 1]
    ensures forall j :: 0 <= j < |bins| - 1 && bins[j] <= x < bins[j + 1] ==> k == Some(j)
    ensures k.None? <==> |bins| < 2 || x < bins[0] || bins[|bins| - 1] <= x
  {
    if |bins| < 2 then None
    else if bins[0] <= x < bins[1] then Some(0)
    else
      match Cut(x, bins[1..])
      case None => None
      case Some(j) => Some(j + 1)
  }

  /** The four age groups, in the order of their bins. */
  datatype AgeGroup = Minor | YoungAdult | MiddleAged | Senior

  /** The label each group carries in the published table. */
  function Label(g: AgeGroup): string {
    match g
    case Minor => "0-18"
    case YoungAdult => "19-35"
    case MiddleAged => "36-60"
    case Senior => "60+"
  }

  const AgeBins: seq<int> := [0, 18, 35, 60, 120]

  const AgeGroups: seq<AgeGroup> := [Minor, YoungAdult, MiddleAged, Senior]

  /** The age group of an age: the bin of `AgeBins` holding it, named by the
      matching entry of `AgeGroups`. A missing age, or one outside every
      bin, has no group. The last bin stops short of 120, so the largest age
      validation accepts gets no group. */
  function AgeGroupOf(age: Option<int>): (g: Option<AgeGroup>)
    ensures age.None? ==> g.None?
    ensures age.Some? ==> (g.Some? && Label(g.value) == "0-18" <==> 0 <= age.value < 18)
    ensures age.Some? ==> (g.Some? && Label(g.value) == "19-35" <==> 18 <= age.value < 35)
    ensures age.Some? ==> (g.Some? && Label(g.value) == "36-60" <==> 35 <= age.value < 60)
    ensures age.Some? ==> (g.Some? && Label(g.value) == "60+" <==> 60 <= age.value < 120)
    ensures age.Some? ==> (g.None? <==> age.value < 0 || 120 <= age.value)
  {
    assert StrictlyIncreasing(AgeBins);
    if age.None? then None
    else
      var k := Cut(age.value, AgeBins);
      assert 0 <= age.value < 18 ==> k == Some(0);
      assert 18 <= age.value < 35 ==> k == Some(1);
      assert 35 <= age.value < 60 ==> k == Some(2);
      assert 60 <= age.value < 120 ==> k == Some(3);
      match k
      case None => None
      case Some(i) => Some(AgeGroups[i])
  }

  /** Distinct groups carry distinct labels. */
  lemma LabelsDistinct(g: AgeGroup, h: AgeGroup)
    ensures Label(g) == Label(h) <==> g == h
  {
  }

  /** The numeric readmission flag: "Yes" is 1, "No" is 0, and any other
      status, or a missing one, gives a missing flag rather than 0 or 1. */
  function Readmitted(status: Option<string>): (flag: Option<int>)
    ensures flag == Some(1) <==> status == Some("Yes")
    ensures flag == Some(0) <==> status == Some("No")
    ensures flag.None? <==> status != Some("Yes") && status != Some("No")
  {
    if status == Some("Yes") then Some(1)
    else if status == Some("No") then Some(0)
    else None
  }
}
