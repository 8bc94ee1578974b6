# Car switching in the car show app

This project models `SwitchCarsController`, the part of the car show app that
picks which car is shown. The controller holds an index into a fixed list of
cars. Three entry points move the index:

- `selectCarIndex(i)` jumps to car `i`. The name buttons call it.
- `prevCar()` steps one car to the left. The left arrow calls it.
- `nextCar()` steps one car to the right. The right arrow calls it.

Each entry point has a guard. When the guard fails, the call does nothing.
When it passes, the call hands one `SwitchIndex{prev, current}` event to the
subscribers, then updates the index. `checkButtonsStatusActive` then disables
the left arrow at the first car and the right arrow at the last.

Everything is in `switch_cars.dfy`, module `SwitchCars`:

- `Emit(n, cur, call)` is the event a call emits from index `cur` over `n`
  cars, or `None` when the guard returns early.
- `Run(n, start, calls)` gives the index and the event log after a sequence of
  calls.
- `Chained` and `Linked` say that a log is a chain of moves. Each event starts
  where the previous one ended.
- The class `SwitchCarsController` keeps the index, the event log, the
  subscriptions and the two arrow flags as fields. Its methods update them in
  place. A ghost history of the calls made lets `Valid()` tie the fields to
  `Run`. `Valid()` also states the range invariant, the chain (in its
  `Linked` form), the well-formedness of every event and the arrow
  invariant. Every method preserves them.

Dispatching an event to its subscribers is modelled as appending it to the
`events` field. A subscription records its handler and the log position at
which it subscribed.

## Model

| member | source | states |
|---|---|---|
| SwitchCars.Emit | src/scripts/ui/switch-cars-controller.ts:55-90 | an emitted event starts at the old index and ends at a different one; from a valid index it stays on the list; select lands on `i`, prev on `cur-1`, next on `cur+1`; at a valid index select is a no-op iff `i` is out of range or equal to the index, prev iff the index is 0, next iff the list is empty or the index is the last |
| SwitchCars.Run | src/scripts/ui/switch-cars-controller.ts:55-90 | any sequence of calls emits at most one event per call and keeps a valid index valid |
| SwitchCars.ChainedIsLinked | src/scripts/ui/switch-cars-controller.ts:63-88 | the recursive chain predicate and the link-by-link form (first `prev` is the start, each `current` is the next `prev`, last `current` is the end) are equivalent, both directions |
| SwitchCars.RunAppend | src/scripts/ui/switch-cars-controller.ts:55-90 | one more call, made from the index and log a run reached, extends the run by exactly that call's event and index update |
| SwitchCars.RunChained | src/scripts/ui/switch-cars-controller.ts:63-88 | the events of any run chain from the start index to the final index |
| SwitchCars.RunEventsWellFormed | src/scripts/ui/switch-cars-controller.ts:55-90 | from a valid index, every emitted event has `prev != current`, both within `[0, n)` |
| SwitchCars.SilentRunKeepsIndex | src/scripts/ui/switch-cars-controller.ts:55-90 | a run that emitted no event ends at the index it started from |
| SwitchCars.SelectReaches | src/scripts/ui/switch-cars-controller.ts:55-68 | selecting any car of the list lands on it; it emits `{cur, j}`, or nothing when `j` is already current |
| SwitchCars.PrevUndoesNext | src/scripts/ui/switch-cars-controller.ts:71-90 | right then left returns to the same index and reports both moves in order |
| SwitchCars.ThreeCarsWalk | src/scripts/ui/switch-cars-controller.ts:82-90 | with three cars from index 0, three right-arrow presses emit `{0,1}` then `{1,2}` and nothing at the last car |
| SwitchCars.ArrowsMatchGuards | src/scripts/ui/switch-cars-controller.ts:92-98 | on a non-empty list, each arrow is disabled exactly when pressing it would do nothing |
| SwitchCars.EmptyListRightArrow | src/scripts/ui/switch-cars-controller.ts:95-97 | with no cars the right arrow stays enabled (the index 0 is not `n-1`), although `nextCar` does nothing |
| SwitchCars.SwitchCarsController.constructor | src/scripts/ui/switch-cars-controller.ts:15-22 | a fresh controller is at index 0 with no events and no subscriptions; left arrow disabled, right arrow disabled iff there is exactly one car; `Valid()` holds |
| SwitchCars.SwitchCarsController.OnSelect | src/scripts/ui/switch-cars-controller.ts:28-30 | adds one subscription at the current end of the log; nothing else changes |
| SwitchCars.SwitchCarsController.SelectCarIndex | src/scripts/ui/switch-cars-controller.ts:55-69 | out of range or equal to the current index: index, log and arrows unchanged; otherwise appends exactly `{old index, i}` and the index becomes `i`; `Valid()` is preserved |
| SwitchCars.SwitchCarsController.PrevCar | src/scripts/ui/switch-cars-controller.ts:71-80 | at index 0 nothing changes; otherwise appends `{k, k-1}` and decrements the index by one; `Valid()` is preserved |
| SwitchCars.SwitchCarsController.NextCar | src/scripts/ui/switch-cars-controller.ts:82-90 | at the last index (or with no cars) nothing changes; otherwise appends `{k, k+1}` and increments the index by one; `Valid()` is preserved |
| SwitchCars.SwitchCarsController.CheckButtonsStatusActive | src/scripts/ui/switch-cars-controller.ts:92-98 | left arrow disabled iff the index is 0, right arrow disabled iff the index is the last one |

## Left out

- The DOM wiring in `setupNamesForModels` and `setupArrows` (lines 4-12, 32-53) is left out. It builds buttons and attaches listeners. The model treats the three methods it wires up as the entry points.
- `EventDispatcher` and `Handler` come from `utilities/event-handler`, which is not part of this model. Emission is appended to `events`. Handlers are not invoked. A subscription only records the log position from which its handler receives events.
- `CarDetails` is reduced to the car's name. The controller reads only the name and the length of the list.
- The `currentIndex` getter (lines 24-26) is the public field `currentIndex` itself.
- JavaScript numbers are modelled as unbounded integers. The index stays within the list, so no overflow or rounding can occur.
- `src/main.ts` calls `onViewCar`, `onSelectCar`, `selectedCar` and `viewedCar`. The controller shown does not have them, so no "selected versus viewed" overlay and no deselect operation is modelled.
- The colour changer, the 3D scene, model loading, camera tweening and the circle layout are rendering and asynchronous I/O over external libraries, and are not modelled.
