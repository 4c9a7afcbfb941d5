/**
 * What the resolver promises about the map it builds for one order:
 * recorded hours always end "Givin", the NOW rule touches one hour, the
 * PRN/Scheduled rule marks exactly the stride of the walk, re-applying the
 * routine rule changes nothing, and the worked scenarios.
 */
module ResolverProperties {
  import opened Wrappers
  import opened MarTypes
  import opened SlotSpec

  /** The routine rule never makes an hour "Givin" and never changes one that is; no key is dropped. */
  lemma RoutineStepKeepsGivin(m: SlotMap, order: MedicationOrder, slots: seq<int>, simTime: Time)
    ensures var r := RoutineStep(m, order, slots, simTime);
            && m.Keys <= r.Keys
            && (forall h :: h in r ==> (r[h] == Givin <==> h in m && m[h] == Givin))
  {
    var r := RoutineStep(m, order, slots, simTime);
    match order.routine
    case NOW =>
    case OtherRoutine =>
    case PRN =>
      assert WalkLabel(PRN) != Givin;
    case Scheduled =>
      assert WalkLabel(Scheduled) != Givin;
  }

  /** Every requested hour and every recorded hour has a status at the end. */
  lemma RequestedSlotsResolved(order: MedicationOrder, slots: seq<int>, simTime: Time)
    ensures forall h :: h in slots ==> h in Resolve(order, slots, simTime)
    ensures forall i :: 0 <= i < |order.mar| ==> order.mar[i].hour in Resolve(order, slots, simTime)
  {
    RoutineStepKeepsGivin(Baseline(order, slots), order, slots, simTime);
  }

  /**
   * "Givin" always wins: whatever the routine, an hour ends "Givin" exactly
   * when an administration is recorded at that hour.
   */
  lemma GivinAlwaysWins(order: MedicationOrder, slots: seq<int>, simTime: Time)
    ensures var r := Resolve(order, slots, simTime);
            && (forall i :: 0 <= i < |order.mar| ==> order.mar[i].hour in r && r[order.mar[i].hour] == Givin)
            && (forall h :: h in r && r[h] == Givin ==> h in MarHours(order.mar))
  {
    var b := Baseline(order, slots);
    RoutineStepKeepsGivin(b, order, slots, simTime);
    assert forall i :: 0 <= i < |order.mar| ==> order.mar[i].hour in MarHours(order.mar);
  }

  /**
   * The last dose the walk starts from is taken over all recorded hours,
   * requested or not: no recorded hour lies after it, and when it is not
   * -1 it is itself a recorded hour.
   */
  lemma LastDoseIsLatestRecord(order: MedicationOrder, slots: seq<int>)
    ensures var last := LastDose(Baseline(order, slots));
            && last >= -1
            && (forall i :: 0 <= i < |order.mar| ==> order.mar[i].hour <= last)
            && (last != -1 ==> last in MarHours(order.mar))
  {
    var b := Baseline(order, slots);
    assert forall i :: 0 <= i < |order.mar| ==> order.mar[i].hour in MarHours(order.mar);
  }

  /**
   * NOW: only the simulated hour can change, and only from "-" to "Due",
   * which happens exactly when it is requested and not recorded.
   */
  lemma NowRoutine(order: MedicationOrder, slots: seq<int>, simTime: Time)
    requires order.routine == NOW
    ensures var b, r := Baseline(order, slots), Resolve(order, slots, simTime);
            && r.Keys == b.Keys
            && (forall h :: h in b && h != simTime.hour ==> r[h] == b[h])
            && (simTime.hour in slots && simTime.hour !in MarHours(order.mar) ==> r[simTime.hour] == Due)
            && (!(simTime.hour in slots && simTime.hour !in MarHours(order.mar)) ==> r == b)
  {
  }

  /** The walk of the PRN/Scheduled rule for a non-empty request, with its start, bound and step. */
  ghost function WalkOf(order: MedicationOrder, slots: seq<int>, simTime: Time): set<int>
    requires |slots| > 0
  {
    Stride(WalkStart(Baseline(order, slots), simTime), MaxSlot(slots).value, EffectiveInterval(order))
  }

  /**
   * PRN/Scheduled: every hour start + j*interval up to the largest requested
   * hour that is not recorded becomes "Available" (PRN) or "Due" (Scheduled),
   * whether it was requested or not.
   */
  lemma StrideHourMarked(order: MedicationOrder, slots: seq<int>, simTime: Time, j: nat)
    requires order.routine == PRN || order.routine == Scheduled
    requires |slots| > 0
    requires var h := StepHour(WalkStart(Baseline(order, slots), simTime), j, EffectiveInterval(order));
             h <= MaxSlot(slots).value && h !in MarHours(order.mar)
    ensures var h := StepHour(WalkStart(Baseline(order, slots), simTime), j, EffectiveInterval(order));
            var r := Resolve(order, slots, simTime);
            h in r && r[h] == (if order.routine == PRN then Available else Due)
  {
    var b := Baseline(order, slots);
    var start, k, bound := WalkStart(b, simTime), EffectiveInterval(order), MaxSlot(slots).value;
    var h := StepHour(start, j, k);
    StrideHasStep(start, bound, k, j);
    WalkResult(b, order, slots, simTime);
    assert !(h in b && b[h] == Givin);
    assert WalkLabel(order.routine) == (if order.routine == PRN then Available else Due);
  }

  /**
   * PRN/Scheduled: an hour off the walk (before the start, between steps,
   * beyond the largest requested hour, or any hour when nothing is
   * requested) keeps its status, and no key appears there.
   */
  lemma OffStrideUnchanged(order: MedicationOrder, slots: seq<int>, simTime: Time, h: int)
    requires order.routine == PRN || order.routine == Scheduled
    requires |slots| == 0 || h !in WalkOf(order, slots, simTime)
    ensures var b, r := Baseline(order, slots), Resolve(order, slots, simTime);
            (h in r <==> h in b) && (h in b ==> r[h] == b[h])
  {
  }

  /** PRN/Scheduled: the keys at the end are the requested and recorded hours plus the walk. */
  lemma WalkAddsKeys(order: MedicationOrder, slots: seq<int>, simTime: Time)
    requires order.routine == PRN || order.routine == Scheduled
    ensures var r := Resolve(order, slots, simTime);
            r.Keys == SlotSet(slots) + MarHours(order.mar) + (if |slots| == 0 then {} else WalkOf(order, slots, simTime))
  {
  }

  /** PRN/Scheduled: the walk lies between its start and the largest requested hour. */
  lemma WalkWithinBounds(order: MedicationOrder, slots: seq<int>, simTime: Time, h: int)
    requires |slots| > 0
    requires h in WalkOf(order, slots, simTime)
    ensures WalkStart(Baseline(order, slots), simTime) <= h
    ensures h <= MaxSlot(slots).value
  {
    StrideWithin(WalkStart(Baseline(order, slots), simTime), MaxSlot(slots).value, EffectiveInterval(order), h);
  }

  /** A routine other than NOW, PRN and Scheduled leaves the map as fill and record made it. */
  lemma OtherRoutineKeepsBaseline(order: MedicationOrder, slots: seq<int>, simTime: Time)
    requires order.routine == OtherRoutine
    ensures Resolve(order, slots, simTime) == Baseline(order, slots)
  {
  }

  /** The labels each routine can leave in the map. */
  lemma StatusesByRoutine(order: MedicationOrder, slots: seq<int>, simTime: Time, h: int)
    requires h in Resolve(order, slots, simTime)
    ensures var s := Resolve(order, slots, simTime)[h];
            match order.routine
            case NOW => s == Givin || s == NoAction || s == Due
            case PRN => s == Givin || s == NoAction || s == Available
            case Scheduled => s == Givin || s == NoAction || s == Due
            case OtherRoutine => s == Givin || s == NoAction
  {
  }

  /** Applying the routine rule to its own result changes nothing. */
  lemma RoutineStepIdempotent(m: SlotMap, order: MedicationOrder, slots: seq<int>, simTime: Time)
    ensures var r := RoutineStep(m, order, slots, simTime);
            RoutineStep(r, order, slots, simTime) == r
  {
    var r := RoutineStep(m, order, slots, simTime);
    if order.routine == PRN || order.routine == Scheduled {
      RoutineStepKeepsGivin(m, order, slots, simTime);
      assert forall h :: h in r && r[h] == Givin <==> h in m && m[h] == Givin;
      LastDoseUnique(r, LastDose(r), LastDose(m));
      assert WalkStart(r, simTime) == WalkStart(m, simTime);
    }
  }

  /** The hours 6 to 12 that the worked scenarios request. */
  function DayShift(): seq<int> {
    [6, 7, 8, 9, 10, 11, 12]
  }

  /** A q4hr order walks in steps of four hours. */
  lemma FourHourly(order: MedicationOrder)
    requires order.frequency == Q4hr
    ensures EffectiveInterval(order) == 4
  {
  }

  /** The largest of the hours 6..12 is 12. */
  lemma DayShiftMax()
    ensures MaxSlot(DayShift()) == Some(12)
  {
    MaxSlotIs(DayShift(), 12);
  }

  /** Every four hours from 8, up to 12, are the hours 8 and 12. */
  lemma StrideEightToTwelve()
    ensures Stride(8, 12, 4) == {8, 12}
  {
    StrideHasStep(8, 12, 4, 0);
    StrideHasStep(8, 12, 4, 1);
    forall h | h in Stride(8, 12, 4) ensures h == 8 || h == 12 {
      var j: nat :| j <= 4 && StepHour(8, j, 4) <= 12 && h == StepHour(8, j, 4);
      StepHourIsProduct(8, j, 4);
    }
  }

  /** Hours 6..12 all "-". */
  function AllBlank(): SlotMap {
    map[6 := NoAction, 7 := NoAction, 8 := NoAction, 9 := NoAction, 10 := NoAction, 11 := NoAction, 12 := NoAction]
  }

  /** Fill and record for hours 6..12 and nothing recorded: all "-". */
  lemma BaselineNoRecords(frequency: Frequency, routine: Routine)
    ensures Baseline(MedicationOrder(frequency, routine, []), DayShift()) == AllBlank()
  {
    assert MarHours([]) == {};
  }

  /** Fill and record for hours 6..12 and a dose at 8: all "-" except 8 "Givin". */
  lemma BaselineDoseAtEight(frequency: Frequency, routine: Routine)
    ensures Baseline(MedicationOrder(frequency, routine, [MarRecord(8)]), DayShift()) == AllBlank()[8 := Givin]
  {
    var mar := [MarRecord(8)];
    assert mar[0].hour == 8;
    assert MarHours(mar) == {8};
  }

  /** The walk of a Scheduled q4hr order starting at 8 over hours 6..12, from the map `b`. */
  lemma ScheduledWalkFromEight(b: SlotMap, mar: seq<MarRecord>)
    requires LastDose(b) == 8 || LastDose(b) == -1
    ensures RoutineStep(b, MedicationOrder(Q4hr, Scheduled, mar), DayShift(), Time(8)) == Mark(b, {8, 12}, Due)
  {
    var order := MedicationOrder(Q4hr, Scheduled, mar);
    WalkResult(b, order, DayShift(), Time(8));
    assert WalkStart(b, Time(8)) == 8;
    DayShiftMax();
    FourHourly(order);
    StrideEightToTwelve();
  }

  /** Scheduled q4hr, nothing recorded, simulated hour 8, hours 6..12: 8 and 12 are "Due", the rest "-". */
  lemma ScheduledExample()
    ensures Resolve(MedicationOrder(Q4hr, Scheduled, []), DayShift(), Time(8))
         == map[6 := NoAction, 7 := NoAction, 8 := Due, 9 := NoAction, 10 := NoAction, 11 := NoAction, 12 := Due]
  {
    var b := AllBlank();
    BaselineNoRecords(Q4hr, Scheduled);
    assert forall k :: k in b ==> b[k] == NoAction;
    assert IsLastDose(b, -1);
    LastDoseUnique(b, -1, LastDose(b));
    ScheduledWalkFromEight(b, []);
    MarkNoDose();
  }

  /** Marking 8 and 12 "Due" in hours 6..12 that are all "-". */
  lemma MarkNoDose()
    ensures Mark(AllBlank(), {8, 12}, Due)
         == map[6 := NoAction, 7 := NoAction, 8 := Due, 9 := NoAction, 10 := NoAction, 11 := NoAction, 12 := Due]
  {
    var b := AllBlank();
    var r := Mark(b, {8, 12}, Due);
    assert r.Keys == b.Keys;
  }

  /** The same order with a dose recorded at 8: 8 is "Givin", 12 "Due" (counted from 8), the rest "-". */
  lemma ScheduledAfterDoseExample()
    ensures Resolve(MedicationOrder(Q4hr, Scheduled, [MarRecord(8)]), DayShift(), Time(8))
         == map[6 := NoAction, 7 := NoAction, 8 := Givin, 9 := NoAction, 10 := NoAction, 11 := NoAction, 12 := Due]
  {
    var b := AllBlank()[8 := Givin];
    BaselineDoseAtEight(Q4hr, Scheduled);
    assert forall k :: k in b && b[k] == Givin ==> k == 8;
    assert IsLastDose(b, 8);
    LastDoseUnique(b, 8, LastDose(b));
    ScheduledWalkFromEight(b, [MarRecord(8)]);
    MarkDoseAtEight();
  }

  /** Marking 8 and 12 "Due" when 8 is "Givin": 8 stays "Givin". */
  lemma MarkDoseAtEight()
    ensures Mark(AllBlank()[8 := Givin], {8, 12}, Due)
         == map[6 := NoAction, 7 := NoAction, 8 := Givin, 9 := NoAction, 10 := NoAction, 11 := NoAction, 12 := Due]
  {
    var b := AllBlank()[8 := Givin];
    var r := Mark(b, {8, 12}, Due);
    assert r.Keys == b.Keys;
  }

  /** NOW at simulated hour 10 with hours 6..12 all "-": 10 becomes "Due", every other hour stays "-". */
  lemma NowExample(frequency: Frequency)
    ensures Resolve(MedicationOrder(frequency, NOW, []), DayShift(), Time(10))
         == map[6 := NoAction, 7 := NoAction, 8 := NoAction, 9 := NoAction, 10 := Due, 11 := NoAction, 12 := NoAction]
  {
    BaselineNoRecords(frequency, NOW);
  }

  /** Every four hours from 3, up to 12, are the hours 3, 7 and 11. */
  lemma StrideThreeToTwelve()
    ensures Stride(3, 12, 4) == {3, 7, 11}
  {
    StrideHasStep(3, 12, 4, 0);
    StrideHasStep(3, 12, 4, 1);
    StrideHasStep(3, 12, 4, 2);
    forall h | h in Stride(3, 12, 4) ensures h == 3 || h == 7 || h == 11 {
      var j: nat :| j <= 9 && StepHour(3, j, 4) <= 12 && h == StepHour(3, j, 4);
      StepHourIsProduct(3, j, 4);
    }
  }

  /**
   * PRN q4hr with a dose recorded at 3, outside the requested hours 6..12,
   * simulated hour 10: the walk starts at 3, so 7 and 11 become "Available",
   * and the key 3 holds "Givin" beside the requested ones.
   */
  lemma PrnDoseOutsideSlotsExample()
    ensures Resolve(MedicationOrder(Q4hr, PRN, [MarRecord(3)]), DayShift(), Time(10))
         == map[3 := Givin, 6 := NoAction, 7 := Available, 8 := NoAction, 9 := NoAction,
                10 := NoAction, 11 := Available, 12 := NoAction]
  {
    var b := AllBlank()[3 := Givin];
    BaselineDoseAtThree();
    assert forall k :: k in b && b[k] == Givin ==> k == 3;
    assert IsLastDose(b, 3);
    LastDoseUnique(b, 3, LastDose(b));
    PrnWalkFromThree(b);
    MarkDoseAtThree();
  }

  /** Fill and record for hours 6..12 and a dose at 3: all "-", and the extra key 3 "Givin". */
  lemma BaselineDoseAtThree()
    ensures Baseline(MedicationOrder(Q4hr, PRN, [MarRecord(3)]), DayShift()) == AllBlank()[3 := Givin]
  {
    var mar := [MarRecord(3)];
    assert mar[0].hour == 3;
    assert MarHours(mar) == {3};
  }

  /** The walk of a PRN q4hr order whose last dose is 3, over hours 6..12: the hours 3, 7 and 11. */
  lemma PrnWalkFromThree(b: SlotMap)
    requires LastDose(b) == 3
    ensures RoutineStep(b, MedicationOrder(Q4hr, PRN, [MarRecord(3)]), DayShift(), Time(10)) == Mark(b, {3, 7, 11}, Available)
  {
    var order := MedicationOrder(Q4hr, PRN, [MarRecord(3)]);
    WalkResult(b, order, DayShift(), Time(10));
    assert WalkStart(b, Time(10)) == 3;
    DayShiftMax();
    FourHourly(order);
    StrideThreeToTwelve();
  }

  /** Marking 3, 7 and 11 "Available" when 3 is "Givin": 3 stays "Givin". */
  lemma MarkDoseAtThree()
    ensures Mark(AllBlank()[3 := Givin], {3, 7, 11}, Available)
         == map[3 := Givin, 6 := NoAction, 7 := Available, 8 := NoAction, 9 := NoAction,
                10 := NoAction, 11 := Available, 12 := NoAction]
  {
    var b := AllBlank()[3 := Givin];
    var r := Mark(b, {3, 7, 11}, Available);
    assert r.Keys == b.Keys;
  }
}
