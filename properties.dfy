/** What each part of a tick does to a single car or queue, stated against
    the step functions. */
module Properties {
  import opened Model
  import opened Queues
  import opened CarsStep
  import opened CrossStep
  import opened Invariants

  // ----- crossing completion -----

  /** One crossing car, once its elapsed time has become `e`: it is marked
      processed; short of its crossing time nothing else changes; otherwise
      the crossroad it was passing moves from its path into `previousCross`,
      and it is either arrived (that was the last crossroad) or on the edge
      to the next crossroad, the overshoot `e - crossTime` taken off the
      edge's length. */
  lemma CrossOverEffect(car: Car, k: CarId, c: CrossId, e: int, g: Graph)
    requires CrossOver(car, k, c, e, g).Ok?
    ensures var car' := CrossOver(car, k, c, e, g).value;
            car'.updated && car'.crossTime == car.crossTime && car'.waitTime == car.waitTime &&
            (e < car.crossTime ==> car' == car.(updated := true)) &&
            (e >= car.crossTime ==>
               car.actions != [] &&
               car'.previousCross == Some(car.actions[0]) &&
               car'.actions == car.actions[1..] &&
               (car'.arrived <==> car.arrived || |car.actions| == 1) &&
               (|car.actions| == 1 ==> car'.distToCross == car.distToCross && car'.dest == car.dest) &&
               (|car.actions| >= 2 ==>
                  (c, car.actions[1]) in g &&
                  car'.distToCross == g[(c, car.actions[1])].length - e + car.crossTime &&
                  car'.dest == g[(c, car.actions[1])].dest))
  {
  }

  /** Crossing completion at crossroad `c` moves every car of the registry
      on as `CrossOver` says; the car stays in the registry, with `time`
      added to its elapsed time, exactly when it is still short of its
      crossing time. */
  lemma FinishedCar(cars: seq<Car>, crs: seq<CrossRoad>, c: CrossId, g: Graph, time: int,
                    cars': seq<Car>, crs': seq<CrossRoad>, k: CarId)
    requires Indexed(cars, crs) && c < |crs|
    requires FinishCrossings(cars, crs, c, g, time) == Ok((cars', crs'))
    requires k in crs[c].passInProg
    ensures k < |cars|
    ensures CrossOver(cars[k], k, c, crs[c].passInProg[k] + time, g) == Ok(cars'[k])
    ensures k in crs'[c].passInProg <==> crs[c].passInProg[k] + time < cars[k].crossTime
    ensures k in crs'[c].passInProg ==> crs'[c].passInProg[k] == crs[c].passInProg[k] + time
  {
    var pip := crs[c].passInProg;
    FinishOk(cars, crs, c, g, time, cars', crs');
    CrossedCar(cars, pip, c, g, time, k);
  }

  lemma FinishOk(cars: seq<Car>, crs: seq<CrossRoad>, c: CrossId, g: Graph, time: int,
                 cars': seq<Car>, crs': seq<CrossRoad>)
    requires Indexed(cars, crs) && c < |crs|
    requires FinishCrossings(cars, crs, c, g, time) == Ok((cars', crs'))
    ensures KeysBelow(crs[c].passInProg, |cars|) && CanFinish(cars, crs[c].passInProg, c, g, time)
    ensures cars' == Crossed(cars, crs[c].passInProg, c, g, time)
    ensures c < |crs'| && crs'[c].passInProg == Remaining(cars, crs[c].passInProg, time)
  {
    assert crs[c].OccupantsBelow(|cars|);
  }

  lemma CrossedCar(cars: seq<Car>, pip: map<CarId, int>, c: CrossId, g: Graph, time: int, k: CarId)
    requires KeysBelow(pip, |cars|) && CanFinish(cars, pip, c, g, time) && k in pip
    ensures k < |cars| && CrossOver(cars[k], k, c, pip[k] + time, g) == Ok(Crossed(cars, pip, c, g, time)[k])
  {
  }

  /** Crossing completion leaves every car outside the registry, the four
      queues, the signals and every other crossroad as they were. */
  lemma FinishLeavesRest(cars: seq<Car>, crs: seq<CrossRoad>, c: CrossId, g: Graph, time: int,
                         cars': seq<Car>, crs': seq<CrossRoad>)
    requires Indexed(cars, crs) && c < |crs|
    requires FinishCrossings(cars, crs, c, g, time) == Ok((cars', crs'))
    ensures forall j :: 0 <= j < |cars| && j !in crs[c].passInProg ==> cars'[j] == cars[j]
    ensures forall d :: crs'[c].Queue(d) == crs[c].Queue(d)
    ensures crs'[c].nsState == crs[c].nsState && crs'[c].weState == crs[c].weState
    ensures forall c2 :: 0 <= c2 < |crs| && c2 != c ==> crs'[c2] == crs[c2]
    ensures forall k :: k in crs'[c].passInProg ==> k in crs[c].passInProg
  {
    var pip := crs[c].passInProg;
    assert crs[c].OccupantsBelow(|cars|);
    assert cars' == Crossed(cars, pip, c, g, time);
  }

  /** Whether a car whose elapsed time has become `e` reaches its crossing
      time at crossroad `c` and then has nowhere to go: its path is empty,
      or the graph has no edge to its next crossroad. */
  predicate Stuck(car: Car, c: CrossId, e: int, g: Graph)
  {
    e >= car.crossTime &&
    (car.actions == [] || (|car.actions| >= 2 && (c, car.actions[1]) !in g))
  }

  /** The failure a stuck car reports. */
  function Blame(car: Car, k: CarId, c: CrossId): Failure
  {
    if |car.actions| < 2 then EmptyPath(k) else MissingEdge(c, car.actions[1])
  }

  /** One crossing car makes the step fail exactly when it is stuck, and
      then with the failure that names it. */
  lemma CrossOverFails(car: Car, k: CarId, c: CrossId, e: int, g: Graph)
    ensures CrossOver(car, k, c, e, g).Err? <==> Stuck(car, c, e, g)
    ensures CrossOver(car, k, c, e, g).Err? ==> CrossOver(car, k, c, e, g).error == Blame(car, k, c)
  {
  }

  /** `CrossOverFails` for every car of a registry at once. */
  lemma RegistryFails(cars: seq<Car>, pip: map<CarId, int>, c: CrossId, g: Graph, time: int)
    requires KeysBelow(pip, |cars|)
    ensures forall k :: k in pip ==>
              (CrossOver(cars[k], k, c, pip[k] + time, g).Err? <==> Stuck(cars[k], c, pip[k] + time, g))
    ensures forall k :: k in pip && CrossOver(cars[k], k, c, pip[k] + time, g).Err? ==>
              CrossOver(cars[k], k, c, pip[k] + time, g).error == Blame(cars[k], k, c)
  {
    forall k | k in pip
      ensures CrossOver(cars[k], k, c, pip[k] + time, g).Err? <==> Stuck(cars[k], c, pip[k] + time, g)
      ensures CrossOver(cars[k], k, c, pip[k] + time, g).Err? ==>
                CrossOver(cars[k], k, c, pip[k] + time, g).error == Blame(cars[k], k, c)
    {
      CrossOverFails(cars[k], k, c, pip[k] + time, g);
    }
  }

  /** Crossing completion fails exactly when some crossing car is stuck,
      and then it names at least one failure. */
  lemma FinishFailsWhen(cars: seq<Car>, crs: seq<CrossRoad>, c: CrossId, g: Graph, time: int)
    requires Indexed(cars, crs) && c < |crs|
    ensures var pip := crs[c].passInProg;
            FinishCrossings(cars, crs, c, g, time).Err? <==>
              exists k :: k in pip && Stuck(cars[k], c, pip[k] + time, g)
    ensures FinishCrossings(cars, crs, c, g, time).Err? ==> FinishCrossings(cars, crs, c, g, time).error != {}
  {
    var pip := crs[c].passInProg;
    assert crs[c].OccupantsBelow(|cars|);
    RegistryFails(cars, pip, c, g, time);
    if !CanFinish(cars, pip, c, g, time) {
      FailuresNonEmpty(cars, pip, c, g, time);
    }
  }

  /** The failures a failing crossing completion reports are exactly those
      of its stuck cars. */
  lemma FinishBlames(cars: seq<Car>, crs: seq<CrossRoad>, c: CrossId, g: Graph, time: int, f: Failure)
    requires Indexed(cars, crs) && c < |crs|
    requires FinishCrossings(cars, crs, c, g, time).Err?
    ensures var pip := crs[c].passInProg;
            f in FinishCrossings(cars, crs, c, g, time).error <==>
              exists k :: k in pip && Stuck(cars[k], c, pip[k] + time, g) && f == Blame(cars[k], k, c)
  {
    var pip := crs[c].passInProg;
    assert crs[c].OccupantsBelow(|cars|);
    RegistryFails(cars, pip, c, g, time);
    assert FinishCrossings(cars, crs, c, g, time).error == Failures(cars, pip, c, g, time);
  }

  // ----- green phase -----

  /** A car of queue `d` under a green signal drives `time` closer and is
      marked processed; one that reaches or passes the stop line is put on
      it and enters the registry with its overshoot (never negative) as
      elapsed time; one still short of it keeps its registry entry as it
      was. Nothing else about the car changes. */
  lemma GreenCar(cars: seq<Car>, crs: seq<CrossRoad>, c: CrossId, d: Dir, time: int,
                 cars': seq<Car>, crs': seq<CrossRoad>, j: CarId)
    requires Indexed(cars, crs) && c < |crs|
    requires GreenQueue(cars, crs, c, d, time) == (cars', crs')
    requires j in crs[c].Queue(d)
    ensures j < |cars| && cars'[j].updated
    ensures cars'[j] == cars[j].(distToCross := cars'[j].distToCross, updated := true)
    ensures cars[j].distToCross - time <= 0 ==>
              cars'[j].distToCross == 0 && j in crs'[c].passInProg &&
              crs'[c].passInProg[j] == time - cars[j].distToCross >= 0
    ensures cars[j].distToCross - time > 0 ==>
              cars'[j].distToCross == cars[j].distToCross - time &&
              (j in crs'[c].passInProg <==> j in crs[c].passInProg)
  {
    assert crs[c].OccupantsBelow(|cars|);
    assert IdsBelow(crs[c].Queue(d), |cars|);
  }

  /** A car outside queue `d` is untouched by its green phase, and so is
      its registry entry. */
  lemma GreenOthers(cars: seq<Car>, crs: seq<CrossRoad>, c: CrossId, d: Dir, time: int,
                    cars': seq<Car>, crs': seq<CrossRoad>, j: CarId)
    requires Indexed(cars, crs) && c < |crs|
    requires GreenQueue(cars, crs, c, d, time) == (cars', crs')
    requires j < |cars| && j !in crs[c].Queue(d)
    ensures cars'[j] == cars[j]
    ensures j in crs'[c].passInProg <==> j in crs[c].passInProg
    ensures j in crs'[c].passInProg ==> crs'[c].passInProg[j] == crs[c].passInProg[j]
  {
    assert crs[c].OccupantsBelow(|cars|);
  }

  /** After its green phase queue `d` holds exactly the former cars still
      short of the stop line, in their former order; the other queues are
      as they were. */
  lemma GreenQueueKept(cars: seq<Car>, crs: seq<CrossRoad>, c: CrossId, d: Dir, time: int,
                       cars': seq<Car>, crs': seq<CrossRoad>)
    requires Indexed(cars, crs) && c < |crs|
    requires GreenQueue(cars, crs, c, d, time) == (cars', crs')
    ensures Subsequence(crs'[c].Queue(d), crs[c].Queue(d))
    ensures forall id :: id in crs'[c].Queue(d) <==> id in crs[c].Queue(d) && cars[id].distToCross - time > 0
    ensures forall e :: e != d ==> crs'[c].Queue(e) == crs[c].Queue(e)
  {
    var q := crs[c].Queue(d);
    assert crs[c].OccupantsBelow(|cars|);
    assert IdsBelow(q, |cars|);
    assert crs'[c].Queue(d) == Waiting(q, cars');
    forall id | id in q
      ensures cars'[id].distToCross > 0 <==> cars[id].distToCross - time > 0
    {
    }
  }

  /** While every car takes at most one slot of the crossroad, no car that
      waits in queue `d` after its green phase is also crossing. */
  lemma GreenSeparates(cars: seq<Car>, crs: seq<CrossRoad>, c: CrossId, d: Dir, time: int,
                       cars': seq<Car>, crs': seq<CrossRoad>)
    requires Indexed(cars, crs) && c < |crs| && forall id :: crs[c].Count(id) <= 1
    requires GreenQueue(cars, crs, c, d, time) == (cars', crs')
    ensures forall id :: id in crs'[c].Queue(d) ==> id !in crs'[c].passInProg
  {
    forall id | id in crs'[c].Queue(d)
      ensures id !in crs'[c].passInProg
    {
      GreenQueueKept(cars, crs, c, d, time, cars', crs');
      SlotExcludes(crs[c], d, id);
      GreenCar(cars, crs, c, d, time, cars', crs', id);
    }
  }

  /** A car that takes at most one slot and waits in a queue is not crossing. */
  lemma SlotExcludes(cr: CrossRoad, d: Dir, id: CarId)
    requires cr.Count(id) <= 1 && id in cr.Queue(d)
    ensures id !in cr.passInProg
  {
    OccMultiset(cr.Queue(d), id);
    assert Occ(cr.Queue(d), id) >= 1;
  }

  // ----- red phase -----

  /** The red phase of queue `d` admits no car and touches no queue; the
      last car of the queue, the one it treats as at the stop line, ends at
      or short of the line: it is put back on the line if it had passed it,
      and when it had not, no car moves at all. */
  lemma RedFront(cars: seq<Car>, crs: seq<CrossRoad>, c: CrossId, d: Dir, time: int, northSouth: bool,
                 cars': seq<Car>, crs': seq<CrossRoad>, front: CarId)
    requires Indexed(cars, crs) && c < |crs|
    requires Phase(cars, crs, c, d, time, false, northSouth) == (cars', crs')
    requires crs[c].Queue(d) != [] && front == crs[c].Queue(d)[|crs[c].Queue(d)| - 1]
    ensures crs' == crs
    ensures front < |cars| && cars'[front].distToCross >= 0
    ensures cars'[front] == cars[front].(distToCross := if cars[front].distToCross < 0 then 0 else cars[front].distToCross)
    ensures cars[front].distToCross >= 0 ==> cars' == cars
  {
    var q := crs[c].Queue(d);
    assert crs[c].OccupantsBelow(|cars|);
    assert front in q;
  }

  /** Every other car of a red queue moves by the distance the last car is
      put back: away from the stop line on the north/south side, towards it
      on the west/east side. Only its distance changes. */
  lemma RedRest(cars: seq<Car>, crs: seq<CrossRoad>, c: CrossId, d: Dir, time: int, northSouth: bool,
                cars': seq<Car>, front: CarId, j: CarId)
    requires Indexed(cars, crs) && c < |crs| && NoDup(crs[c].Queue(d))
    requires Phase(cars, crs, c, d, time, false, northSouth).0 == cars'
    requires crs[c].Queue(d) != [] && front == crs[c].Queue(d)[|crs[c].Queue(d)| - 1]
    requires j in crs[c].Queue(d)[..|crs[c].Queue(d)| - 1]
    ensures front < |cars| && j < |cars| && j != front
    ensures var back := if cars[front].distToCross < 0 then -cars[front].distToCross else 0;
            cars'[j] == cars[j].(distToCross := cars[j].distToCross + (if northSouth then back else -back))
  {
    var q := crs[c].Queue(d);
    assert crs[c].OccupantsBelow(|cars|);
    assert front in q;
    var i :| 0 <= i < |q| - 1 && q[i] == j;
    assert q[i] != q[|q| - 1];
    assert j in q;
  }

  /** A car outside a red queue is untouched by its red phase. */
  lemma RedOthers(cars: seq<Car>, crs: seq<CrossRoad>, c: CrossId, d: Dir, time: int, northSouth: bool,
                  cars': seq<Car>, j: CarId)
    requires Indexed(cars, crs) && c < |crs|
    requires Phase(cars, crs, c, d, time, false, northSouth).0 == cars'
    requires j < |cars| && j !in crs[c].Queue(d)
    ensures |cars'| == |cars| && cars'[j] == cars[j]
  {
    var q := crs[c].Queue(d);
    if q != [] {
      assert q[|q| - 1] in q;
    }
  }

  /** On the north/south side a red phase keeps the stop line: every car
      of the queue that was not past the line, and the last car in any
      case, ends at or short of it. (On the west/east side this fails: see
      `Scenarios.RedShiftPassesLine`.) */
  lemma NorthSouthRedHolds(cars: seq<Car>, crs: seq<CrossRoad>, c: CrossId, d: Dir, time: int,
                           cars': seq<Car>, j: CarId)
    requires Indexed(cars, crs) && c < |crs| && NoDup(crs[c].Queue(d))
    requires Phase(cars, crs, c, d, time, false, true).0 == cars'
    requires j in crs[c].Queue(d)
    requires cars[j].distToCross >= 0 || j == crs[c].Queue(d)[|crs[c].Queue(d)| - 1]
    ensures j < |cars'| && cars'[j].distToCross >= 0
  {
    var q := crs[c].Queue(d);
    var front := q[|q| - 1];
    RedFront(cars, crs, c, d, time, true, cars', crs, front);
    if j != front {
      var i :| 0 <= i < |q| && q[i] == j;
      assert j in q[..|q| - 1] by { assert q[..|q| - 1][i] == j; }
      RedRest(cars, crs, c, d, time, true, cars', front, j);
    }
  }

  // ----- the car step -----

  /** `update_cars` on one car: an arrived car is left exactly as it was;
      any other car is unmarked and its waiting time grows by `time`, and it
      drives `time` closer unless it was processed at a crossroad. */
  lemma StepCar(cars: seq<Car>, crs: seq<CrossRoad>, time: int, j: nat)
    requires j < |cars|
    ensures var car' := StepCars(cars, crs, time).0[j];
            |StepCars(cars, crs, time).0| == |cars| &&
            (cars[j].arrived ==> car' == cars[j]) &&
            (!cars[j].arrived ==>
               !car'.updated && car'.waitTime == cars[j].waitTime + time &&
               car'.distToCross == (if cars[j].updated then cars[j].distToCross else cars[j].distToCross - time) &&
               car'.dest == cars[j].dest && car'.previousCross == cars[j].previousCross &&
               car'.actions == cars[j].actions && car'.crossTime == cars[j].crossTime && !car'.arrived)
  {
  }

  /** When every car has arrived, `update_cars` changes nothing. */
  lemma AllArrivedIdle(cars: seq<Car>, crs: seq<CrossRoad>, time: int)
    requires AllArrived(cars)
    ensures StepCars(cars, crs, time) == (cars, crs)
  {
    var (cars', crs') := StepCars(cars, crs, time);
    assert cars' == cars;
    AllArrivedNoJoin(cars, crs, time, |cars|);
  }

  lemma {:induction false} AllArrivedNoJoin(cars: seq<Car>, crs: seq<CrossRoad>, time: int, n: nat)
    requires AllArrived(cars) && n <= |cars|
    ensures Enqueued(cars, crs, time, n) == crs
    decreases n
  {
    if n > 0 {
      AllArrivedNoJoin(cars, crs, time, n - 1);
    }
  }

  lemma PrefixTrans(a: seq<CarId>, b: seq<CarId>, c: seq<CarId>)
    requires a <= b && b <= c
    ensures a <= c
  {
    assert c[..|b|] == b;
    assert b[..|a|] == a;
  }

  lemma EnqueuedPrefixStep(cars: seq<Car>, crs: seq<CrossRoad>, time: int, m: nat, r: QueueRef)
    requires 0 < m <= |cars|
    ensures QueueAt(Enqueued(cars, crs, time, m - 1), r) <= QueueAt(Enqueued(cars, crs, time, m), r)
  {
    TurnQueue(cars, Enqueued(cars, crs, time, m - 1), time, m - 1, r);
  }

  /** A queue only grows at its end while the cars take their turns. */
  lemma {:induction false} EnqueuedGrows(cars: seq<Car>, crs: seq<CrossRoad>, time: int, n: nat, m: nat, r: QueueRef)
    requires n <= m <= |cars|
    ensures QueueAt(Enqueued(cars, crs, time, n), r) <= QueueAt(Enqueued(cars, crs, time, m), r)
    decreases m
  {
    if n < m {
      EnqueuedGrows(cars, crs, time, n, m - 1, r);
      EnqueuedPrefixStep(cars, crs, time, m, r);
      PrefixTrans(QueueAt(Enqueued(cars, crs, time, n), r), QueueAt(Enqueued(cars, crs, time, m - 1), r),
                  QueueAt(Enqueued(cars, crs, time, m), r));
    }
  }

  /** A car that drives on and ends within the length its destination queue
      had at the start of the step is in that queue afterwards. */
  lemma JoinsWhenClose(cars: seq<Car>, crs: seq<CrossRoad>, time: int, j: CarId)
    requires j < |cars| && cars[j].dest.cross < |crs|
    requires !cars[j].arrived && !cars[j].updated
    requires cars[j].distToCross - time <= |QueueAt(crs, cars[j].dest)|
    ensures j in QueueAt(StepCars(cars, crs, time).1, cars[j].dest)
  {
    var r := cars[j].dest;
    EnqueuedGrows(cars, crs, time, 0, j, r);
    EnqueuedGrows(cars, crs, time, j + 1, |cars|, r);
    TurnQueue(cars, Enqueued(cars, crs, time, j), time, j, r);
    var q := QueueAt(Enqueued(cars, crs, time, j), r);
    var q' := QueueAt(Enqueued(cars, crs, time, j + 1), r);
    assert j in q';
  }
}
