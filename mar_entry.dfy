/**
 * The MAR entry component's slot map: a field updated in place by the three
 * steps its constructor runs, each proved against the specification
 * functions of SlotSpec.
 */
module MarEntryComponent {
  import opened Wrappers
  import opened MarTypes
  import opened SlotSpec

  class MarEntry {
    /** The component's properties: the order, the hours to display and the simulated clock. */
    const order: MedicationOrder
    const requestedSlots: seq<int>
    const simTime: Time

    /** Hour -> status; may hold keys beyond the requested hours. */
    var timeSlots: SlotMap

    /** Builds the map for the order from scratch: fill, record, apply the routine rule. */
    constructor (order: MedicationOrder, requestedSlots: seq<int>, simTime: Time)
      ensures this.order == order && this.requestedSlots == requestedSlots && this.simTime == simTime
      ensures timeSlots == Resolve(order, requestedSlots, simTime)
    {
      this.order := order;
      this.requestedSlots := requestedSlots;
      this.simTime := simTime;
      timeSlots := map[];
      new;
      var _ := FillTimeSlots();
      CheckForRecordedMarData();
      CheckRoutineConditions();
    }

    /** Sets every requested hour to "-" and returns the map. */
    method FillTimeSlots() returns (filled: SlotMap)
      modifies this`timeSlots
      ensures timeSlots == Filled(old(timeSlots), requestedSlots)
      ensures filled == timeSlots
    {
      for n := 0 to |requestedSlots|
        invariant timeSlots == Filled(old(timeSlots), requestedSlots[..n])
      {
        FilledExtend(old(timeSlots), requestedSlots, n);
        timeSlots := timeSlots[requestedSlots[n] := NoAction];
      }
      assert requestedSlots[..|requestedSlots|] == requestedSlots;
      filled := timeSlots;
    }

    /** Sets the hour of every recorded administration to "Givin". */
    method CheckForRecordedMarData()
      modifies this`timeSlots
      ensures timeSlots == Recorded(old(timeSlots), order.mar)
    {
      var mar := order.mar;
      for n := 0 to |mar|
        invariant timeSlots == Recorded(old(timeSlots), mar[..n])
      {
        RecordedExtend(old(timeSlots), mar, n);
        var hour := mar[n].hour;
        timeSlots := timeSlots[hour := Givin];
      }
      assert mar[..|mar|] == mar;
    }

    /** Scans the whole map for the largest hour marked "Givin" above -1; -1 when there is none. */
    method GetLastDoseTime() returns (lastDoseTime: int)
      ensures IsLastDose(timeSlots, lastDoseTime)
      ensures lastDoseTime == LastDose(timeSlots)
    {
      lastDoseTime := -1;
      // Every key is visited once; the order of the visits does not matter for the maximum.
      var remaining := timeSlots.Keys;
      while exists h :: h in remaining
        invariant remaining <= timeSlots.Keys
        invariant lastDoseTime >= -1
        invariant forall k :: k in timeSlots && k !in remaining && timeSlots[k] == Givin ==> k <= lastDoseTime
        invariant lastDoseTime != -1 ==> lastDoseTime in timeSlots && timeSlots[lastDoseTime] == Givin
        decreases remaining
      {
        var hour :| hour in remaining;
        if timeSlots[hour] == Givin && hour > lastDoseTime {
          lastDoseTime := hour;
        }
        remaining := remaining - {hour};
      }
      LastDoseUnique(timeSlots, lastDoseTime, LastDose(timeSlots));
    }

    /** Applies the order's routine rule to the map. */
    method CheckRoutineConditions()
      modifies this`timeSlots
      ensures timeSlots == RoutineStep(old(timeSlots), order, requestedSlots, simTime)
    {
      var routine := order.routine;
      if routine == NOW {
        var hour := simTime.hour;
        if hour in timeSlots && timeSlots[hour] == NoAction {
          timeSlots := timeSlots[hour := Due];
        }
      } else if routine == PRN || routine == Scheduled {
        var interval := GetMedQInterval(order).GetOr(1);
        var lastDoseTime := GetLastDoseTime();
        var start := if lastDoseTime > -1 then lastDoseTime else simTime.hour;
        WalkForward(routine, start, interval, MaxSlot(requestedSlots));
      }
    }

    /**
     * The forward walk of the PRN and Scheduled rules: every `interval` hours
     * from `start` up to `bound`, an hour not "Givin" becomes "Available"
     * (PRN) or "Due" (Scheduled). No bound (no requested hour) means no step.
     */
    method WalkForward(routine: Routine, start: int, interval: int, bound: Option<int>)
      requires routine == PRN || routine == Scheduled
      requires interval >= 1
      modifies this`timeSlots
      ensures bound.None? ==> timeSlots == old(timeSlots)
      ensures bound.Some? ==>
        timeSlots == Mark(old(timeSlots), Stride(start, bound.value, interval), WalkLabel(routine))
    {
      var i := start;
      ghost var n: nat := 0;
      while bound.Some? && i <= bound.value
        invariant i == StepHour(start, n, interval)
        invariant bound.None? ==> n == 0
        invariant bound.Some? && n > 0 ==> StepHour(start, n - 1, interval) <= bound.value
        invariant timeSlots == Mark(old(timeSlots), Visited(start, n, interval), WalkLabel(routine))
        decreases if bound.Some? then bound.value - i else 0
      {
        WalkStep(old(timeSlots), start, n, interval, WalkLabel(routine));
        if !(i in timeSlots && timeSlots[i] == Givin) {
          if routine == PRN {
            timeSlots := timeSlots[i := Available];
          } else if routine == Scheduled {
            timeSlots := timeSlots[i := Due];
          }
        }
        i := interval + i;
        n := n + 1;
      }
      if bound.Some? {
        VisitedIsStride(start, bound.value, interval, n);
      } else {
        assert Visited(start, n, interval) == {};
      }
    }
  }
}
