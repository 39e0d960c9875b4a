/** `ComplianceTracker`: the compliance-cost calculator and the list of
    reported inspections. */
module Compliance {
  import opened Json
  import Text

  /** The four figures `calculateTotalComplianceCost` returns. */
  datatype Cost = Cost(monthly: real, annual: real, teachingHoursLost: real, studentsAffected: int)

  /** `calculateTotalComplianceCost(hours, staff, costPerHour)`: `hours` of
      compliance work per staff member per month. */
  function CalculateTotalComplianceCost(hours: real, staff: real, costPerHour: real): Cost {
    var monthly := hours * staff * costPerHour;
    var lost := hours * staff;
    var students := lost / 4.0;
    Cost(monthly, monthly * 12.0, lost * 12.0, (students * 12.0).Floor)
  }

  /** The relations between the figures: a year is twelve months, the annual
      cost is the lost hours priced at the hourly cost, and the students
      affected are the lost hours at four hours per student, rounded down. */
  lemma CostRelations(hours: real, staff: real, costPerHour: real)
    ensures var c := CalculateTotalComplianceCost(hours, staff, costPerHour);
      && c.annual == 12.0 * c.monthly
      && c.monthly == hours * staff * costPerHour
      && c.annual == c.teachingHoursLost * costPerHour
      && c.teachingHoursLost == 12.0 * hours * staff
      && c.studentsAffected as real <= c.teachingHoursLost / 4.0 < c.studentsAffected as real + 1.0
  {
  }

  /** Non-negative inputs give non-negative figures. */
  lemma CostNonNegative(hours: real, staff: real, costPerHour: real)
    requires hours >= 0.0 && staff >= 0.0 && costPerHour >= 0.0
    ensures var c := CalculateTotalComplianceCost(hours, staff, costPerHour);
      c.monthly >= 0.0 && c.annual >= 0.0 && c.teachingHoursLost >= 0.0 && c.studentsAffected >= 0
  {
    var c := CalculateTotalComplianceCost(hours, staff, costPerHour);
    assert hours * staff >= 0.0;
    assert hours * staff * costPerHour >= 0.0;
  }

  /** Ten hours, five staff, 500 per hour: 25,000 a month, 300,000 a year,
      600 teaching hours and 150 students. */
  lemma CostExample()
    ensures CalculateTotalComplianceCost(10.0, 5.0, 500.0) == Cost(25000.0, 300000.0, 600.0, 150)
  {
    assert (50.0 / 4.0 * 12.0).Floor == 150;
  }

  /** `addInspectionExperience(inspectionData)`'s record. */
  function NewInspection(data: Record, now: int, isoNow: string): (e: Record)
    ensures e.Keys == data.Keys + {"id", "submittedDate"}
    ensures e["id"] == (if "id" in data then data["id"] else JNum(now))
    ensures e["submittedDate"] == JStr(Text.BeforeT(isoNow))
    ensures forall k :: k in data && k !in {"id", "submittedDate"} ==> e[k] == data[k]
  {
    Spread(Spread(map["id" := JNum(now)], data), map["submittedDate" := JStr(Text.BeforeT(isoNow))])
  }

  /** `addInspectionExperience`: appended at the end. */
  function AddInspectionExperience(inspections: seq<Record>, data: Record, now: int, isoNow: string): (r: seq<Record>)
    ensures |r| == |inspections| + 1 && r[..|inspections|] == inspections
    ensures r[|inspections|] == NewInspection(data, now, isoNow)
  {
    inspections + [NewInspection(data, now, isoNow)]
  }
}
