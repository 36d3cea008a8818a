# Traffic-signal world, modelled and verified in Dafny

This project models the discrete-time engine of the traffic simulator in
`cross.py`. Cars drive along the edges of a road graph towards crossroads.
At a crossroad they wait in one of four queues (north, south, west, east)
and then spend a fixed crossing time in the crossroad's *pass-in-progress*
registry. Two signal flags decide which queues move: one for north/south
and one for west/east. One call of `World.update_all` is one tick:
- `update_cars` moves the cars on the road;
- `update_cross_roads` resolves every crossroad in order;
- the clock advances;
- the signal policy runs.

The model keeps the source's imperative form. `Simulation.World` is a
class with the fields `cars`, `crossRoads` and `time`. The road graph and
the policy are constants. Each of its methods loops over local copies of
the state and writes the result back. Each method is proved equal to a
step function:
- `CarsStep.StepCars` for `update_cars`;
- `CrossStep.FinishCrossings`, `GreenQueue`, `HoldQueue`, `MarkQueued`,
  `ResolveCrossRoad` and `ResolveFrom` for `update_cross_roads`;
- `Ticks.Tick` and `Ticks.ApplySignals` for `update_all`.

The lemmas in `Properties`, `CarsStep`, `Invariants`, `Ticks` and `Scenarios` state
what those functions promise.

How the model represents the source's data:
- Cars and crossroads are identified by their index in `cars` and
  `crossRoads`. A queue is a `seq<CarId>`, and the registry is a
  `map<CarId, int>` from car to elapsed crossing time.
- A car's `dest` is a `QueueRef(cross, dir)`, not a live list, so
  appending to the destination queue changes the crossroad that owns it.
- The networkx graph is a map from crossroad pairs to `Edge(length, dest)`.
- A missing edge (cross.py:90) or an empty path at `actions.pop(0)`
  (cross.py:86) aborts the tick with a `Failure`. The source raises an
  exception in both cases.

The invariant `Invariants.Valid` holds between ticks:
- every car takes at most one slot in the whole network (a place in one
  queue, or one registry entry);
- no arrived car takes a slot;
- every car that takes a slot is marked `updated`.

A successful tick keeps this invariant (`Ticks.TickKeepsValid`,
`Simulation.World.UpdateAll`).

The source's quirks are kept as written:
- In a red phase, the "front" car is the last element of the queue.
- In a red phase, the other cars move *away* on north/south
  (`+dist_move_back`) but *towards* the line on west/east
  (`-dist_move_back`).
- `update_cars` runs before `update_cross_roads`.
- `update_cars` reports whether every car had arrived *before* the step.

Because of the west/east shift, the safety the comments at cross.py:122-123
describe (no car crosses the stop line under a red signal) does not hold
for the code. A car that is not last in a red west/east queue is pushed
towards the line and can end at a negative distance
(`Scenarios.RedShiftPassesLine`). A car already past the line that is not
last is never clamped, on either side. On the north/south side a car that
was short of the line stays short of it (`Properties.NorthSouthRedHolds`).
Also, a tick of length 0 is not a no-op: a car within the length of its
destination queue still joins it (`Scenarios.ZeroTickJoins`).

## Model

| member | source | states |
|---|---|---|
| Model.NewCar | cross.py:8-30 | a new car has wait time 0, no previous crossroad, crossing time 2, and is neither processed nor arrived; distance, destination and path are the arguments |
| Model.NewCrossRoad | cross.py:34-50 | a new crossroad has four empty queues and an empty registry, and carries the given signal flags |
| Simulation.World.constructor | cross.py:54-61 | stores the graph, crossroads, cars and policy, starts the clock at 0; the invariant holds exactly when the given state satisfies it |
| Simulation.World.UpdateCars | cross.py:176-210 | leaves exactly the state `StepCars` describes, and answers whether every car had already arrived before the step |
| CarsStep.TurnQueue | cross.py:194-203 | one car's turn appends it to its destination queue when it is neither arrived nor processed, its new distance is at most the queue's length and it is not already in it; every other queue is unchanged |
| CarsStep.EnqueuedAppendsOnly | cross.py:186-203 | after the car step, each queue is its former content followed only by cars bound for it that passed the join guard |
| CarsStep.EnqueuedKeepsNoDup | cross.py:202-203 | the membership guard never puts a car into a queue twice |
| CarsStep.EnqueuedOcc | cross.py:202-203 | a car occurs in a queue once more after the car step exactly when it joined that queue on its turn |
| CarsStep.EnqueuedCount | cross.py:202-203 | the car step adds a slot for a car at crossroad `c` exactly when it joined one of `c`'s queues, and changes no other slot |
| CarsStep.EnqueuedRest | cross.py:186-208 | the car step touches only queues: registries and signal flags stay |
| CarsStep.EnqueuedIndexed | cross.py:202-203 | every car id appended to a queue names an existing car |
| Properties.StepCar | cross.py:186-208 | an arrived car is left unchanged; any other car ends unprocessed, with `time` added to its wait time, and `time` taken off its distance unless it was processed |
| Properties.AllArrivedIdle | cross.py:185-191 | when every car has arrived, the car step changes nothing |
| Properties.EnqueuedGrows | cross.py:203 | queues only grow at their end while the cars take their turns |
| Properties.JoinsWhenClose | cross.py:199-203 | a car that drives on and ends within the length its destination queue had at the start of the step is in that queue afterwards |
| Simulation.World.UpdateCrossRoads | cross.py:63-174 | visits every crossroad in order and leaves the state `ResolveFrom` describes, or reports one of its failures |
| Simulation.World.UpdateCrossRoad | cross.py:68-174 | one crossroad: crossing completion, then the four signal phases, then marking, as `ResolveCrossRoad` describes |
| Simulation.World.PassInProgress | cross.py:69-99 | crossing completion at one crossroad leaves the state `FinishCrossings` describes, or reports one of its failures |
| Simulation.FinishRegistry | cross.py:71-99 | the registry loop: on success the cars are `Crossed` and the registry is `Remaining`; on failure some registry car is stuck, and the failure returned is one of those `Failures` reports |
| Properties.CrossOverEffect | cross.py:71-99 | a finishing car gets `previousCross = actions[0]` and the rest of its path; it is arrived exactly when no actions remain, and otherwise gets distance `length - elapsed + crossTime` and the edge's destination queue |
| Properties.CrossOverFails | cross.py:86-90 | one crossing car fails exactly when it reaches its crossing time with an empty path or with no edge to its next crossroad, and the failure names that cause |
| Properties.FinishedCar | cross.py:71-99 | after crossing completion, every registry car has moved as `CrossOver` says; it stays in the registry, with `time` added, exactly when still short of its crossing time |
| Properties.FinishLeavesRest | cross.py:69-99 | crossing completion changes no car outside the registry, no queue, no signal and no other crossroad, and adds no registry entry |
| Properties.FinishFailsWhen | cross.py:79-90 | crossing completion fails exactly when some registry car is stuck, and then it reports at least one failure |
| Properties.FinishBlames | cross.py:86-90 | the failures reported are exactly those of the stuck cars |
| CrossStep.FailuresNonEmpty | cross.py:86-90 | a registry that cannot finish reports at least one failure |
| Simulation.World.SignalPhases | cross.py:101-170 | the four queues under their flags, north and south under the north/south flag, then west and east under the west/east flag, as `Signals` describes |
| Simulation.World.ApplyPhase | cross.py:103-170 | one queue under its signal, as `Phase` describes, keeping the well-formedness invariant |
| Simulation.World.GreenPhase | cross.py:103-158 | a green queue (north/south at lines 103-120, west/east at 145-158) leaves exactly the state `GreenQueue` describes |
| Properties.GreenCar | cross.py:109-156 | every car of a green queue is processed and loses `time` of distance; a car at or past the stop line is put on it and enters the registry with its non-negative overshoot |
| Properties.GreenOthers | cross.py:104-120 | a green phase leaves every car outside its queue, and that car's registry entry, unchanged |
| Properties.GreenQueueKept | cross.py:120-158 | after a green phase the queue is the subsequence of its former cars still short of the stop line, in the same order; other queues are unchanged |
| Properties.GreenSeparates | cross.py:114-120 | while every car takes at most one slot, no car left waiting in a green queue is also crossing |
| Simulation.World.RedPhase | cross.py:124-170 | a red queue (north/south at lines 124-142, west/east at 160-170) leaves exactly the car state `HoldQueue` describes, and no crossroad changes |
| Properties.RedFront | cross.py:126-170 | a red phase adds nothing to the registry and changes no queue; the last car of the queue ends at distance at least 0; when it was already there, no car moves |
| Properties.RedRest | cross.py:141-170 | the other cars of a red queue are shifted by the last car's setback: away from the line on north/south, towards it on west/east; only their distance changes |
| Properties.RedOthers | cross.py:126-170 | a red phase leaves every car outside its queue unchanged |
| Properties.NorthSouthRedHolds | cross.py:126-142 | under a red north/south signal every queued car that was not past the stop line, and the last car in any case, ends at or short of it |
| Scenarios.RedShiftPassesLine | cross.py:160-170 | counterexample: a red west/east queue `[0, 1]` at distances 1 and -3 leaves car 0 at -2, past the line, while the same queue on the north side leaves it at 4 |
| Simulation.World.MarkQueues | cross.py:172-174 | every car waiting in one of the crossroad's four queues is marked processed; nothing else changes |
| Simulation.World.MarkQueue | cross.py:173-174 | every car waiting in one queue is marked processed, and no other car changes |
| Invariants.MarkSettles | cross.py:172-174 | after marking, every car that takes a slot at the crossroad is processed; no flag is cleared and no arrival revoked |
| Invariants.FinishKeeps | cross.py:69-99 | crossing completion keeps the well-formedness invariant |
| Invariants.GreenKeeps | cross.py:103-120 | a green phase keeps the well-formedness invariant |
| Invariants.PhaseKeeps | cross.py:103-170 | a green or red phase keeps the well-formedness invariant |
| Invariants.ResolveKeeps | cross.py:68-174 | resolving one crossroad keeps the invariant, settles that crossroad, and changes no other crossroad |
| Invariants.ResolveFromKeeps | cross.py:63-174 | after `update_cross_roads` every car in any queue or registry is marked processed, and the invariant holds |
| Invariants.StepCarsKeeps | cross.py:176-210 | the car step keeps the well-formedness invariant |
| Invariants.InitialValid | cross.py:34-61 | a world of fresh crossroads, with cars and edges bound for existing crossroads, satisfies the invariant the first tick requires |
| Scenarios.ZeroTickJoins | cross.py:197-203 | a tick of length 0 is not a no-op: a car already within the length of its empty destination queue joins it |
| Simulation.World.UpdateAll | cross.py:212-217 | runs the car step, then the crossroads; the clock advances by `t`, and the policy's flags are applied; the answer is the car step's; a successful tick keeps the invariant |
| Simulation.World.ExecPolicy | cross.py:219-220 | the policy sees the graph, crossroads, cars and clock, and only the signal flags change |
| Ticks.TickKeepsValid | cross.py:212-214 | a successful tick keeps the invariant and never revokes an arrival |
| Ticks.ApplySignalsKeepsValid | cross.py:215-216 | the policy only sets signal flags, so it keeps the invariant |
| Ticks.ApplySignals | cross.py:219-220 | the crossroads keep their queues and registries, and each takes the flags the policy chose for it |

## Left out

- `World.stats` (cross.py:222-231): floating-point mean and standard deviation, and printing.
- The `__main__` demonstration (cross.py:234-268): network construction and a print loop.
- The copy `__all_cars__` (cross.py:59): only `stats` reads it.
- Time and distance are `int`, not `Union[int, float]`. The demonstration uses step 1 and integer lengths.
- The networkx `DiGraph` is a map from crossroad pairs to `Edge(length, dest)`. The unused `random` import and numpy are not modelled.
- The policy callback is a function from graph, crossroads, cars and clock to one `Signal` per crossroad. The source lets the callback mutate anything; the model lets it set only the signal flags.
- The `id` fields of `Car` and `CrossRoad` are not modelled. A car or crossroad is identified by its index, so `dest` and registry keys are indices, not object references.
- Simulation.World.UpdateAll: on a failure, the state the source leaves half-updated is not specified. Only the reported failure is (it is one of the failures `Tick` reports).
- Simulation.FinishRegistry: visits the registry in an unspecified order. The source follows dict insertion order, so on a failure the model promises only *one of* the registry's failures, not the first in insertion order.
- Simulation.World.UpdateAll: requires the invariant `Inv()` (no car in two slots, no arrived car in a slot, every slotted car processed). The source runs on any state. A queue holding a car twice would make the Python green loop subtract `time` twice from that car; the model does not describe states like that.
- The docstring at cross.py:183 says `update_cars` must run after `update_cross_roads`. The code runs it first (cross.py:213-214), and the model follows the code.
