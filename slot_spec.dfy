/**
 * The slot map of a MAR entry (hour -> status) and, as functions of the map
 * before each step, what each step of the resolver leaves in it.
 */
module SlotSpec {
  import opened Wrappers
  import opened MarTypes

  type SlotMap = map<int, Status>

  /** The requested hours as a set. */
  function SlotSet(slots: seq<int>): set<int> {
    set h | h in slots
  }

  /** Every requested hour set to "-"; other keys keep their status. */
  function Filled(m: SlotMap, slots: seq<int>): (r: SlotMap)
    ensures r.Keys == m.Keys + SlotSet(slots)
    ensures forall h :: h in slots ==> r[h] == NoAction
    ensures forall h :: h in m && h !in slots ==> r[h] == m[h]
  {
    m + map h | h in slots :: NoAction
  }

  /** The hours of the recorded administrations. */
  function MarHours(mar: seq<MarRecord>): set<int> {
    set i | 0 <= i < |mar| :: mar[i].hour
  }

  /** Every recorded hour set to "Givin", whether requested or not; other keys keep their status. */
  function Recorded(m: SlotMap, mar: seq<MarRecord>): (r: SlotMap)
    ensures r.Keys == m.Keys + MarHours(mar)
    ensures forall i :: 0 <= i < |mar| ==> r[mar[i].hour] == Givin
    ensures forall h :: h in m && h !in MarHours(mar) ==> r[h] == m[h]
  {
    m + map h | h in MarHours(mar) :: Givin
  }

  /** The map the routine rule starts from: requested hours "-", recorded hours "Givin". */
  function Baseline(order: MedicationOrder, slots: seq<int>): (r: SlotMap)
    ensures r.Keys == SlotSet(slots) + MarHours(order.mar)
    ensures forall h :: h in r ==> (r[h] == Givin <==> h in MarHours(order.mar))
    ensures forall h :: h in r && h !in MarHours(order.mar) ==> r[h] == NoAction
  {
    Recorded(Filled(map[], slots), order.mar)
  }

  /** The largest requested hour, or None for an empty request (`Math.max()` is -Infinity). */
  function MaxSlot(slots: seq<int>): (r: Option<int>)
    ensures r.None? <==> |slots| == 0
    ensures r.Some? ==> r.value in slots && forall h :: h in slots ==> h <= r.value
  {
    if |slots| == 0 then None
    else
      var rest := MaxSlot(slots[1..]);
      assert forall h :: h in slots ==> h == slots[0] || h in slots[1..];
      if rest.None? || rest.value <= slots[0] then Some(slots[0]) else rest
  }

  /** A requested hour that no requested hour exceeds is the largest one. */
  lemma MaxSlotIs(slots: seq<int>, x: int)
    requires x in slots && forall h :: h in slots ==> h <= x
    ensures MaxSlot(slots) == Some(x)
  {
  }

  /**
   * `r` is what the scan for the last dose yields: the largest key marked
   * "Givin" when that key is above -1, and -1 otherwise.
   */
  ghost predicate IsLastDose(m: SlotMap, r: int) {
    && r >= -1
    && (forall k :: k in m && m[k] == Givin ==> k <= r)
    && (r != -1 ==> r in m && m[r] == Givin)
  }

  /** The largest element of `s` not below `floor`, or `floor` itself. */
  lemma {:induction false} MaxAtLeast(s: set<int>, floor: int) returns (r: int)
    ensures r >= floor
    ensures forall k :: k in s ==> k <= r || k < floor
    ensures r == floor || r in s
    decreases s
  {
    if x :| x in s {
      var r' := MaxAtLeast(s - {x}, floor);
      r := if x > r' then x else r';
      assert forall k :: k in s ==> k == x || k in s - {x};
    } else {
      r := floor;
    }
  }

  lemma LastDoseExists(m: SlotMap)
    ensures exists r :: IsLastDose(m, r)
  {
    var givin := set k | k in m && m[k] == Givin;
    var r := MaxAtLeast(givin, -1);
    assert forall k :: k in m && m[k] == Givin ==> k in givin;
    assert IsLastDose(m, r);
  }

  /** There is only one last dose. */
  lemma LastDoseUnique(m: SlotMap, a: int, b: int)
    requires IsLastDose(m, a) && IsLastDose(m, b)
    ensures a == b
  {
  }

  /** The result of the scan for the last dose. */
  ghost function LastDose(m: SlotMap): (r: int)
    ensures IsLastDose(m, r)
  {
    LastDoseExists(m);
    var r :| IsLastDose(m, r); r
  }

  /** Where the forward walk starts: the last dose if there is one, else the simulated hour. */
  ghost function WalkStart(m: SlotMap, simTime: Time): int {
    var last := LastDose(m);
    if last > -1 then last else simTime.hour
  }

  /** The hour reached after j steps of k hours from start, that is start + j*k. */
  function StepHour(start: int, j: nat, k: int): int {
    if j == 0 then start else StepHour(start, j - 1, k) + k
  }

  /** The hour after j steps is start + j*k. */
  lemma {:induction false} StepHourIsProduct(start: int, j: nat, k: int)
    ensures StepHour(start, j, k) == start + j * k
  {
    if j > 0 {
      StepHourIsProduct(start, j - 1, k);
    }
  }

  /** With steps of at least one hour, b - a more steps reach at least b - a hours later. */
  lemma {:induction false} StepHourGrows(start: int, a: nat, b: nat, k: int)
    requires k >= 1 && a <= b
    ensures StepHour(start, a, k) + (b - a) <= StepHour(start, b, k)
  {
    if a < b {
      StepHourGrows(start, a, b - 1, k);
    }
  }

  /** The hours start, start + k, start + 2k, ... that are at most `bound`. */
  function Stride(start: int, bound: int, k: int): set<int>
    requires k >= 1
  {
    set j | 0 <= j <= bound - start && StepHour(start, j, k) <= bound :: StepHour(start, j, k)
  }

  /** Every hour of the stride lies between its start and its bound. */
  lemma StrideWithin(start: int, bound: int, k: int, h: int)
    requires k >= 1 && h in Stride(start, bound, k)
    ensures start <= h <= bound
  {
    var j :| 0 <= j <= bound - start && StepHour(start, j, k) <= bound && h == StepHour(start, j, k);
    StepHourGrows(start, 0, j, k);
  }

  /** Every hour start + j*k not beyond `bound` is on the stride. */
  lemma StrideHasStep(start: int, bound: int, k: int, j: nat)
    requires k >= 1 && StepHour(start, j, k) <= bound
    ensures StepHour(start, j, k) in Stride(start, bound, k)
  {
    StepHourGrows(start, 0, j, k);
  }

  /**
   * `hours` marked with `status` unless they are "Givin"; every other key keeps
   * its status. Hours that were not keys become keys.
   */
  function Mark(m: SlotMap, hours: set<int>, status: Status): (r: SlotMap)
    ensures r.Keys == m.Keys + hours
    ensures forall h :: h in hours && !(h in m && m[h] == Givin) ==> r[h] == status
    ensures forall h :: h in m && (h !in hours || m[h] == Givin) ==> r[h] == m[h]
  {
    map h | h in m.Keys + hours :: if h in hours && !(h in m && m[h] == Givin) then status else m[h]
  }

  /** Filling one more requested hour sets that hour to "-". */
  lemma FilledExtend(m: SlotMap, slots: seq<int>, n: int)
    requires 0 <= n < |slots|
    ensures Filled(m, slots[..n + 1]) == Filled(m, slots[..n])[slots[n] := NoAction]
  {
    assert slots[..n + 1] == slots[..n] + [slots[n]];
  }

  /** Recording one more administration sets its hour to "Givin". */
  lemma RecordedExtend(m: SlotMap, mar: seq<MarRecord>, n: int)
    requires 0 <= n < |mar|
    ensures Recorded(m, mar[..n + 1]) == Recorded(m, mar[..n])[mar[n].hour := Givin]
  {
    assert MarHours(mar[..n + 1]) == MarHours(mar[..n]) + {mar[n].hour} by {
      assert forall i :: 0 <= i < n + 1 ==> mar[..n + 1][i] == mar[i];
      assert forall i :: 0 <= i < n ==> mar[..n][i] == mar[i];
    }
  }

  /** Marking one more hour: it takes `status` unless it is "Givin". */
  lemma MarkExtend(m: SlotMap, hours: set<int>, h: int, status: Status)
    requires h !in hours
    ensures var before := Mark(m, hours, status);
            Mark(m, hours + {h}, status)
            == if h in before && before[h] == Givin then before else before[h := status]
  {
  }

  /** The hours the walk has visited after n steps of size k from start. */
  function Visited(start: int, n: nat, k: int): set<int> {
    set j | 0 <= j < n :: StepHour(start, j, k)
  }

  /** One more step of the walk visits exactly one new hour. */
  lemma VisitedExtend(start: int, n: nat, k: int)
    requires k >= 1
    ensures StepHour(start, n, k) !in Visited(start, n, k)
    ensures Visited(start, n + 1, k) == Visited(start, n, k) + {StepHour(start, n, k)}
  {
    forall j: nat | j < n ensures StepHour(start, j, k) < StepHour(start, n, k) {
      StepHourGrows(start, j, n, k);
    }
  }

  /**
   * One step of the walk from `start` marks the hour after the visited ones:
   * it takes `status` unless it is "Givin".
   */
  lemma WalkStep(m: SlotMap, start: int, n: nat, k: int, status: Status)
    requires k >= 1
    ensures var before, h := Mark(m, Visited(start, n, k), status), StepHour(start, n, k);
            Mark(m, Visited(start, n + 1, k), status)
            == if h in before && before[h] == Givin then before else before[h := status]
  {
    VisitedExtend(start, n, k);
    MarkExtend(m, Visited(start, n, k), StepHour(start, n, k), status);
  }

  /** Once the walk has passed the bound, it has visited exactly the stride. */
  lemma VisitedIsStride(start: int, bound: int, k: int, n: nat)
    requires k >= 1
    requires StepHour(start, n, k) > bound
    requires n == 0 || StepHour(start, n - 1, k) <= bound
    ensures Visited(start, n, k) == Stride(start, bound, k)
  {
    forall h | h in Visited(start, n, k) ensures h in Stride(start, bound, k) {
      var j: nat :| j < n && h == StepHour(start, j, k);
      StepHourGrows(start, j, n - 1, k);
      StrideHasStep(start, bound, k, j);
    }
    forall h | h in Stride(start, bound, k) ensures h in Visited(start, n, k) {
      var j: nat :| j <= bound - start && StepHour(start, j, k) <= bound && h == StepHour(start, j, k);
      if j >= n {
        StepHourGrows(start, n, j, k);
        assert false;
      }
    }
  }

  /** The status the walk gives: "Available" for PRN, "Due" otherwise (Scheduled). */
  function WalkLabel(routine: Routine): Status {
    if routine == PRN then Available else Due
  }

  /** The PRN/Scheduled rule: the stride from the walk start up to the largest requested hour is marked. */
  ghost function Walked(m: SlotMap, order: MedicationOrder, slots: seq<int>, simTime: Time): SlotMap {
    match MaxSlot(slots)
    case None => m
    case Some(bound) =>
      Mark(m, Stride(WalkStart(m, simTime), bound, EffectiveInterval(order)), WalkLabel(order.routine))
  }

  /** The map after the routine rule, as a function of the map before it. */
  ghost function RoutineStep(m: SlotMap, order: MedicationOrder, slots: seq<int>, simTime: Time): SlotMap {
    match order.routine
    case NOW =>
      if simTime.hour in m && m[simTime.hour] == NoAction then m[simTime.hour := Due] else m
    case PRN => Walked(m, order, slots, simTime)
    case Scheduled => Walked(m, order, slots, simTime)
    case OtherRoutine => m
  }

  /** For PRN and Scheduled with some requested hour, the routine rule marks the stride of the walk. */
  lemma WalkResult(m: SlotMap, order: MedicationOrder, slots: seq<int>, simTime: Time)
    requires order.routine == PRN || order.routine == Scheduled
    requires |slots| > 0
    ensures RoutineStep(m, order, slots, simTime)
         == Mark(m, Stride(WalkStart(m, simTime), MaxSlot(slots).value, EffectiveInterval(order)), WalkLabel(order.routine))
  {
  }

  /** The whole resolver: fill, record, then apply the routine rule, starting from an empty map. */
  ghost function Resolve(order: MedicationOrder, slots: seq<int>, simTime: Time): SlotMap {
    RoutineStep(Baseline(order, slots), order, slots, simTime)
  }
}
