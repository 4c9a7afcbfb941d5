# MAR time-slot status resolver

A Dafny model of the medication-administration-record (MAR) entry of the
NurseO nursing-simulation front end. For one medication order the entry
keeps a map from hour to display status — `"Givin"`, `"Available"`, `"-"` or
`"Due"` — and its constructor fills it in three in-place steps:

1. every requested hour becomes `"-"`;
2. every hour at which an administration is recorded becomes `"Givin"`;
3. the routine rule runs. `NOW` turns the simulated hour from `"-"` into
   `"Due"`. `PRN` and `Scheduled` walk forward from the last dose (or the
   simulated hour when there is none) in steps of the order's frequency
   interval, up to the largest requested hour. Every visited hour that is not
   `"Givin"` becomes `"Available"` (PRN) or `"Due"` (Scheduled).

Files:

- `wrappers.dfy`: `Option`, for lookups that may find nothing.
- `mar_types.dfy`: the statuses (`NoAction` is `"-"`), frequencies `q1hr..q12hr`
  and any other, routines, recorded administrations, the simulated clock and
  the frequency-to-interval table.
- `slot_spec.dfy`: each step as a function of the map before it (`Filled`,
  `Recorded`, `RoutineStep`), the whole resolver `Resolve`, and the pieces they
  use. `MaxSlot` is `Math.max` over the requested hours, `LastDose` the scan for
  the last dose, `Stride` the hours of the walk, and `Mark` the walk's effect.
  `StepHour(start, j, k)` is the hour after j steps, which is start + j·k.
- `mar_entry.dfy`: class `MarEntry` with the `timeSlots` map field. Its methods
  keep the source's loops, and each is proved to leave the map its
  specification function describes.
- `properties.dfy`: what the resolver promises, as lemmas over `Resolve`, and
  the worked scenarios.

Behaviour kept from the code:

- With no requested hour, `Math.max()` is −∞, so the walk does not run.
  `MaxSlot` returns `None` in that case.
- The record step and the walk can add keys that are not requested hours.
- The scan for the last dose covers the whole map, so a recorded hour outside
  the requested ones still sets where the walk starts. A recorded hour at −1
  or below is not a last dose.
- For `NOW`, an absent simulated hour reads as `undefined`, which is not `"-"`,
  so nothing changes.

Behaviour of the code that a pure display resolver would not have:

- The code is not a pure function. It updates a field in place, and that is
  modelled as a class.
- With no requested hour the result is not always empty: recorded hours are
  still `"Givin"`.
- The interval falls back to 1 only when the table has no entry (`|| 1`). Every
  table entry is already between 1 and 12.

## Model

| member | source | states |
|---|---|---|
| MarTypes.GetMedQInterval | src/Components/Mar/MarEntry.tsx:86-104 | None exactly for a frequency outside `q1hr..q12hr`; otherwise k in 1..12, and k is the interval whose inverse-table entry is the order's frequency, for every k |
| MarTypes.EffectiveInterval | src/Components/Mar/MarEntry.tsx:59 | the walk's step `interval \|\| 1` lies in 1..12: 1 for an unmapped frequency, else the table's interval |
| SlotSpec.Filled | src/Components/Mar/MarEntry.tsx:37-42 | keys are the old keys plus the requested hours; every requested hour is `"-"`; every other key keeps its status |
| SlotSpec.Recorded | src/Components/Mar/MarEntry.tsx:44-49 | keys are the old keys plus the recorded hours; every recorded hour is `"Givin"`; every other key keeps its status |
| SlotSpec.Baseline | src/Components/Mar/MarEntry.tsx:25-28 | from an empty map, fill then record: keys are requested plus recorded hours; a key is `"Givin"` exactly when it is recorded, else `"-"` |
| SlotSpec.MaxSlot | src/Components/Mar/MarEntry.tsx:62 | None exactly for no requested hour; otherwise a requested hour that no requested hour exceeds |
| SlotSpec.LastDose | src/Components/Mar/MarEntry.tsx:73-83 | at least −1, no `"Givin"` key above it, and when not −1 it is a `"Givin"` key |
| SlotSpec.StepHourIsProduct | src/Components/Mar/MarEntry.tsx:62 | the hour reached after j steps `i = interval + i` from start is start + j·interval |
| SlotSpec.StrideWithin | src/Components/Mar/MarEntry.tsx:62 | every hour of the walk lies between its start and its bound |
| SlotSpec.StrideHasStep | src/Components/Mar/MarEntry.tsx:62 | every start + j·interval (j ≥ 0) not beyond the bound is visited by the walk |
| SlotSpec.Mark | src/Components/Mar/MarEntry.tsx:65-68 | visited hours gain keys; a visited hour not `"Givin"` takes the status; a `"Givin"` hour or an unvisited key keeps its status |
| SlotSpec.RoutineStep | src/Components/Mar/MarEntry.tsx:51-71 | no contract; the routine rule as a function of the map before it; see RoutineStepKeepsGivin, NowRoutine, StrideHourMarked, OffStrideUnchanged, OtherRoutineKeepsBaseline, RoutineStepIdempotent |
| SlotSpec.Resolve | src/Components/Mar/MarEntry.tsx:23-29 | no contract; fill, record and the routine rule from an empty map; see the constructor, GivinAlwaysWins, RequestedSlotsResolved, StatusesByRoutine and the worked examples |
| SlotSpec.WalkStart | src/Components/Mar/MarEntry.tsx:61 | no contract; the last dose when above −1, else the simulated hour; see LastDose, LastDoseIsLatestRecord |
| SlotSpec.Walked | src/Components/Mar/MarEntry.tsx:59-69 | no contract; the PRN/Scheduled walk; see WalkResult, StrideHourMarked, OffStrideUnchanged, WalkAddsKeys, WalkWithinBounds |
| MarEntryComponent.MarEntry.constructor | src/Components/Mar/MarEntry.tsx:23-35 | the map built by the constructor is `Resolve` of the order, the requested hours and the simulated time |
| MarEntryComponent.MarEntry.FillTimeSlots | src/Components/Mar/MarEntry.tsx:37-42 | the loop leaves `Filled` of the old map and returns the map |
| MarEntryComponent.MarEntry.CheckForRecordedMarData | src/Components/Mar/MarEntry.tsx:44-49 | the loop leaves `Recorded` of the old map |
| MarEntryComponent.MarEntry.GetLastDoseTime | src/Components/Mar/MarEntry.tsx:73-83 | reads the map without changing it and returns the largest `"Givin"` key above −1, or −1 |
| MarEntryComponent.MarEntry.CheckRoutineConditions | src/Components/Mar/MarEntry.tsx:51-71 | leaves `RoutineStep` of the old map: NOW rule, PRN/Scheduled walk from the last dose or the simulated hour, anything else unchanged |
| MarEntryComponent.MarEntry.WalkForward | src/Components/Mar/MarEntry.tsx:62-69 | the stride loop leaves `Mark` of the old map over the walk's hours; no requested hour means no step |
| ResolverProperties.RoutineStepKeepsGivin | src/Components/Mar/MarEntry.tsx:51-71 | the routine rule drops no key, never makes an hour `"Givin"` and never changes one that is |
| ResolverProperties.RequestedSlotsResolved | src/Components/Mar/MarEntry.tsx:37-49 | every requested hour and every recorded hour has a status in the result |
| ResolverProperties.GivinAlwaysWins | src/Components/Mar/MarEntry.tsx:44-67 | for every routine, an hour ends `"Givin"` if and only if an administration is recorded at it |
| ResolverProperties.LastDoseIsLatestRecord | src/Components/Mar/MarEntry.tsx:73-83 | the last dose is at least −1, no recorded hour is later, and when not −1 it is a recorded hour, requested or not |
| ResolverProperties.NowRoutine | src/Components/Mar/MarEntry.tsx:53-57 | NOW: same keys; only the simulated hour can change; it becomes `"Due"` exactly when requested and not recorded; otherwise the map is unchanged |
| ResolverProperties.StrideHourMarked | src/Components/Mar/MarEntry.tsx:58-69 | PRN/Scheduled: each unrecorded start + j·interval up to the largest requested hour ends `"Available"` (PRN) or `"Due"` (Scheduled) |
| ResolverProperties.OffStrideUnchanged | src/Components/Mar/MarEntry.tsx:58-69 | PRN/Scheduled: an hour off the walk, or any hour when nothing is requested, keeps its key and its status |
| ResolverProperties.WalkAddsKeys | src/Components/Mar/MarEntry.tsx:62-67 | PRN/Scheduled: final keys are requested plus recorded hours plus the walk's hours |
| ResolverProperties.WalkWithinBounds | src/Components/Mar/MarEntry.tsx:61-62 | the walk never visits an hour before its start or after the largest requested hour |
| ResolverProperties.OtherRoutineKeepsBaseline | src/Components/Mar/MarEntry.tsx:53-70 | any other routine leaves the map as fill and record made it |
| ResolverProperties.StatusesByRoutine | src/Components/Mar/MarEntry.tsx:51-71 | NOW and Scheduled leave only `"Givin"`, `"-"`, `"Due"`; PRN only `"Givin"`, `"-"`, `"Available"`; any other routine only `"Givin"`, `"-"` |
| ResolverProperties.RoutineStepIdempotent | src/Components/Mar/MarEntry.tsx:51-71 | applying the routine rule to its own result changes nothing |
| ResolverProperties.ScheduledExample | src/Components/Mar/MarEntry.tsx:37-69 | Scheduled q4hr, nothing recorded, hour 8, hours 6..12: 8 and 12 `"Due"`, the rest `"-"` |
| ResolverProperties.ScheduledAfterDoseExample | src/Components/Mar/MarEntry.tsx:37-69 | same with a dose at 8: 8 `"Givin"`, 12 `"Due"`, the rest `"-"` |
| ResolverProperties.NowExample | src/Components/Mar/MarEntry.tsx:37-57 | NOW at hour 10, hours 6..12: 10 `"Due"`, the rest `"-"` |
| ResolverProperties.PrnDoseOutsideSlotsExample | src/Components/Mar/MarEntry.tsx:37-83 | PRN q4hr, dose at 3 outside 6..12, hour 10: the walk starts at 3, so 7 and 11 are `"Available"`, and key 3 is `"Givin"` |

## Left out

- `getMedName` (src/Components/Mar/MarEntry.tsx:106-112): an asynchronous database lookup of the display name, followed by `setState`.
- `render` (src/Components/Mar/MarEntry.tsx:116-130) and the alias of the map in React state (line 32): display only. Nothing changes the map after the constructor, so the alias shows the same map.
- The `minutes` field of the time built in the walk (line 63): set to 0 and never read.
- Hours are modelled as exact integers, assumed to satisfy |h| < 2^53. JavaScript numbers could also be fractional, `NaN` or infinite, and the model does not cover that. Beyond 2^53, `Number` addition is no longer exact. Then the walk's `i = interval + i` (line 62) can round back to `i` and the source's loop never ends. For example, Scheduled q1hr, nothing recorded, simulated hour 2^53 and hours [2^53] stalls in the source. In the model, `WalkForward`'s loop ends after one step, with 2^53 "Due".
- The order in which `forEach` visits the map. The scan for the last dose takes a maximum, so the order does not change its result.
- The medication id of the order: only `getMedName` reads it.
- src/Services/Database.ts, src/Services/State.ts, src/Components/Mar/MedLocationModal.tsx and src/Nav/TopMenu/TopNav.tsx are not part of this model. They hold database access, global reactive state, modal UI and navigation.
