/**
 * The entities the MAR entry works on: the status of an hour slot, the
 * frequency and routine of a medication order, the recorded administrations
 * and the simulated clock, together with the frequency-to-interval table.
 */
module MarTypes {
  import opened Wrappers

  /** Display status of an hour slot. `NoAction` is the label "-". */
  datatype Status = Givin | Available | NoAction | Due

  /** Order frequency: every k hours for k in 1..12, or any other frequency. */
  datatype Frequency =
    | Q1hr | Q2hr | Q3hr | Q4hr | Q5hr | Q6hr
    | Q7hr | Q8hr | Q9hr | Q10hr | Q11hr | Q12hr
    | OtherFrequency

  /** Administration mode of an order. */
  datatype Routine = NOW | PRN | Scheduled | OtherRoutine

  /** One recorded administration; only its hour is used here. */
  datatype MarRecord = MarRecord(hour: int)

  /** A medication order: its frequency, its routine and its recorded administrations. */
  datatype MedicationOrder = MedicationOrder(frequency: Frequency, routine: Routine, mar: seq<MarRecord>)

  /** The simulated clock; only the hour is read. */
  datatype Time = Time(hour: int)

  /** The frequency whose interval is k hours, if there is one: the inverse of the interval table. */
  function FrequencyOfInterval(k: int): Option<Frequency> {
    if k == 1 then Some(Q1hr)
    else if k == 2 then Some(Q2hr)
    else if k == 3 then Some(Q3hr)
    else if k == 4 then Some(Q4hr)
    else if k == 5 then Some(Q5hr)
    else if k == 6 then Some(Q6hr)
    else if k == 7 then Some(Q7hr)
    else if k == 8 then Some(Q8hr)
    else if k == 9 then Some(Q9hr)
    else if k == 10 then Some(Q10hr)
    else if k == 11 then Some(Q11hr)
    else if k == 12 then Some(Q12hr)
    else None
  }

  /**
   * The interval in hours of an order's frequency: k for `q{k}hr`, nothing
   * (`null`) for any other frequency.
   */
  function GetMedQInterval(order: MedicationOrder): (r: Option<int>)
    ensures r.None? <==> order.frequency == OtherFrequency
    ensures r.Some? ==> 1 <= r.value <= 12
    ensures forall k :: r == Some(k) <==> FrequencyOfInterval(k) == Some(order.frequency)
  {
    match order.frequency
    case Q1hr => Some(1)
    case Q2hr => Some(2)
    case Q3hr => Some(3)
    case Q4hr => Some(4)
    case Q5hr => Some(5)
    case Q6hr => Some(6)
    case Q7hr => Some(7)
    case Q8hr => Some(8)
    case Q9hr => Some(9)
    case Q10hr => Some(10)
    case Q11hr => Some(11)
    case Q12hr => Some(12)
    case OtherFrequency => None
  }

  /** The step of the forward walk, `interval || 1`: the table's interval, or 1 when it has none. */
  function EffectiveInterval(order: MedicationOrder): (k: int)
    ensures 1 <= k <= 12
    ensures order.frequency == OtherFrequency ==> k == 1
    ensures order.frequency != OtherFrequency ==> FrequencyOfInterval(k) == Some(order.frequency)
  {
    GetMedQInterval(order).GetOr(1)
  }
}
