/** The `World` object of the simulator: the cars, the crossroads, the road
    graph, the clock and the signal policy, and the tick that updates them in
    place. Every method is proved to leave exactly the state that the step
    functions of `CarsStep`, `CrossStep` and `Ticks` describe, and the tick
    keeps the invariant of `Invariants`. */
module Simulation {
  import opened Model
  import opened Queues
  import opened CarsStep
  import opened CrossStep
  import opened Invariants
  import opened Ticks

  class World {
    var cars: seq<Car>
    var crossRoads: seq<CrossRoad>
    var time: int
    const graph: Graph
    const policy: Policy

    /** The invariant every tick keeps. */
    ghost predicate Inv()
      reads this
    {
      Valid(cars, crossRoads, graph)
    }

    /** How an operation that can abort ended, against the step function
        `r` that specifies it: without a failure and in state `r.value`, or
        with one of the failures `r` reports. */
    ghost predicate Reports(r: Result<(seq<Car>, seq<CrossRoad>), set<Failure>>, err: Option<Failure>)
      reads this
    {
      match err
      case None => r == Ok((cars, crossRoads))
      case Some(f) => r.Err? && f in r.error
    }

    /** The clock starts at zero; the invariant holds from the start
        exactly when the given state satisfies it. */
    constructor (g: Graph, allCrossRoads: seq<CrossRoad>, allCars: seq<Car>, p: Policy)
      ensures graph == g && crossRoads == allCrossRoads && cars == allCars && policy == p
      ensures time == 0 && (Inv() <==> Valid(allCars, allCrossRoads, g))
    {
      graph := g;
      crossRoads := allCrossRoads;
      cars := allCars;
      time := 0;
      policy := p;
    }

    // ----- update_cars -----

    /** Every car that has not arrived drives on for `t`, unless a
        crossroad moved it already; one that reaches the tail of its
        destination queue joins it. Answers whether every car had already
        arrived. */
    method UpdateCars(t: int) returns (allArrived: bool)
      modifies this
      ensures allArrived == AllArrived(old(cars))
      ensures (cars, crossRoads) == StepCars(old(cars), old(crossRoads), t)
      ensures time == old(time)
    {
      var cs, crs := cars, crossRoads;
      allArrived := true;
      var i := 0;
      while i < |cs|
        invariant 0 <= i <= |cs| == |cars|
        invariant crs == Enqueued(cars, crossRoads, t, i)
        invariant forall j :: 0 <= j < i ==> cs[j] == Advanced(cars[j], t)
        invariant forall j :: i <= j < |cs| ==> cs[j] == cars[j]
        invariant allArrived == forall j :: 0 <= j < i ==> cars[j].arrived
      {
        var car := cs[i];
        if !car.arrived {
          allArrived := false;
          if !car.updated {
            car := car.(distToCross := car.distToCross - t);
            var q := QueueAt(crs, car.dest);
            if car.distToCross <= |q| && i !in q {
              crs := SetQueue(crs, car.dest, q + [i]);
            }
          }
          car := car.(updated := false);
          car := car.(waitTime := car.waitTime + t);
          cs := cs[i := car];
        }
        i := i + 1;
      }
      assert cs == StepCars(cars, crossRoads, t).0;
      cars, crossRoads := cs, crs;
    }

    // ----- update_cross_roads -----

    /** Every crossroad in order, as `update_cross_roads` visits them; the
        first failure aborts the rest. */
    method UpdateCrossRoads(t: int) returns (err: Option<Failure>)
      requires WellFormed(cars, crossRoads, graph)
      modifies this
      ensures Reports(ResolveFrom(old(cars), old(crossRoads), graph, t, 0), err)
      ensures time == old(time)
    {
      ghost var r0 := ResolveFrom(cars, crossRoads, graph, t, 0);
      var c := 0;
      while c < |crossRoads|
        invariant 0 <= c <= |crossRoads|
        invariant WellFormed(cars, crossRoads, graph)
        invariant ResolveFrom(cars, crossRoads, graph, t, c) == r0
        invariant time == old(time)
        decreases |crossRoads| - c
      {
        ghost var cars1, crs1 := cars, crossRoads;
        err := UpdateCrossRoad(c, t);
        if err.Some? {
          return;
        }
        ResolveKeeps(cars1, crs1, c, graph, t, cars, crossRoads);
        c := c + 1;
      }
      err := None;
    }

    /** One crossroad: crossing completion, the north and south queues under
        the north/south signal, the west and east queues under the west/east
        signal, then every queued car marked processed. */
    method UpdateCrossRoad(c: CrossId, t: int) returns (err: Option<Failure>)
      requires WellFormed(cars, crossRoads, graph) && c < |crossRoads|
      modifies this
      ensures Reports(ResolveCrossRoad(old(cars), old(crossRoads), c, graph, t), err)
      ensures time == old(time)
    {
      ghost var cars0, crs0 := cars, crossRoads;
      err := PassInProgress(c, t);
      if err.Some? {
        return;
      }
      ghost var s1 := (cars, crossRoads);
      FinishKeeps(cars0, crs0, c, graph, t, cars, crossRoads);
      SignalPhases(c, t);
      ghost var s2 := (cars, crossRoads);
      MarkQueues(c);
      ResolveDone(cars0, crs0, c, graph, t, s1, s2);
    }

    /** The four queues of crossroad `c` under their signals: north and
        south under the north/south flag, west and east under the west/east
        flag, each flag read before its pair of queues. */
    method SignalPhases(c: CrossId, t: int)
      requires WellFormed(cars, crossRoads, graph) && c < |crossRoads|
      modifies this
      ensures (cars, crossRoads) == Signals(old(cars), old(crossRoads), c, t)
      ensures time == old(time)
    {
      ghost var s1 := (cars, crossRoads);
      var ns := crossRoads[c].nsState;
      ApplyPhase(c, North, t, ns, true);
      ghost var s2 := (cars, crossRoads);
      ApplyPhase(c, South, t, ns, true);
      ghost var s3 := (cars, crossRoads);
      var we := crossRoads[c].weState;
      ApplyPhase(c, West, t, we, false);
      ghost var s4 := (cars, crossRoads);
      ApplyPhase(c, East, t, we, false);
      PhasesAreSignals(s1.0, s1.1, c, t, s2, s3, s4, (cars, crossRoads));
    }

    /** Every car waiting in a queue of crossroad `c` is marked processed. */
    method MarkQueues(c: CrossId)
      requires Indexed(cars, crossRoads) && c < |crossRoads|
      modifies this
      ensures crossRoads == old(crossRoads) && time == old(time)
      ensures cars == MarkQueued(old(cars), crossRoads[c])
    {
      ghost var cars0 := cars;
      MarkQueue(c, North);
      ghost var m1 := cars;
      MarkQueue(c, South);
      ghost var m2 := cars;
      MarkQueue(c, West);
      ghost var m3 := cars;
      MarkQueue(c, East);
      MarksDone(cars0, crossRoads[c], m1, m2, m3, cars);
    }

    /** The crossing registry of crossroad `c`: every crossing car spends
        `t` more time in it; one that has reached its crossing time leaves
        it, drops the crossroad from its path, and either arrives or is put
        on the edge to its next crossroad. */
    method PassInProgress(c: CrossId, t: int) returns (err: Option<Failure>)
      requires Indexed(cars, crossRoads) && c < |crossRoads|
      modifies this
      ensures Reports(FinishCrossings(old(cars), old(crossRoads), c, graph, t), err)
      ensures time == old(time)
    {
      assert crossRoads[c].OccupantsBelow(|cars|);
      var cs, reg;
      cs, reg, err := FinishRegistry(cars, crossRoads[c].passInProg, c, graph, t);
      if err.Some? {
        return;
      }
      cars, crossRoads := cs, crossRoads[c := crossRoads[c].WithPassInProg(reg)];
    }

    /** Queue `d` of crossroad `c` under its signal `green`. */
    method ApplyPhase(c: CrossId, d: Dir, t: int, green: bool, northSouth: bool)
      requires WellFormed(cars, crossRoads, graph) && c < |crossRoads|
      modifies this
      ensures (cars, crossRoads) == Phase(old(cars), old(crossRoads), c, d, t, green, northSouth)
      ensures WellFormed(cars, crossRoads, graph) && time == old(time)
    {
      ghost var cars0, crs0 := cars, crossRoads;
      if green {
        GreenPhase(c, d, t);
      } else {
        RedPhase(c, d, northSouth);
      }
      PhaseKeeps(cars0, crs0, c, d, graph, t, green, northSouth, cars, crossRoads);
    }

    /** A queue under a green signal: every car in it drives on for `t`;
        one that reaches the stop line enters the crossing registry with its
        overshoot, and the queue keeps only the cars short of the line. */
    method GreenPhase(c: CrossId, d: Dir, t: int)
      requires WellFormed(cars, crossRoads, graph) && c < |crossRoads|
      modifies this
      ensures (cars, crossRoads) == GreenQueue(old(cars), old(crossRoads), c, d, t)
      ensures time == old(time)
    {
      ghost var cars0, crs0 := cars, crossRoads;
      var q := crossRoads[c].Queue(d);
      var pip0 := crossRoads[c].passInProg;
      UniqueNoDup(crossRoads, c, d);
      assert crossRoads[c].OccupantsBelow(|cars|);
      assert IdsBelow(q, |cars0|) && NoDup(q);
      var cs, pip := cars, pip0;
      var i := 0;
      while i < |q|
        invariant 0 <= i <= |q|
        invariant |cs| == |cars0|
        invariant forall j :: 0 <= j < |cs| ==> cs[j] == if j in q[..i] then Approach(cars0[j], t) else cars0[j]
        invariant forall id :: id in pip <==> id in pip0 || (id < |cars0| && id in q[..i] && cars0[id].distToCross - t <= 0)
        invariant forall id :: id in pip ==>
                    pip[id] == if id < |cars0| && id in q[..i] && cars0[id].distToCross - t <= 0
                               then t - cars0[id].distToCross else pip0[id]
      {
        var id := q[i];
        assert id in q && id !in q[..i];
        assert q[..i + 1] == q[..i] + [id];
        var car := cs[id];
        car := car.(distToCross := car.distToCross - t);
        car := car.(updated := true);
        if car.distToCross <= 0 {
          pip := pip[id := -car.distToCross];
          car := car.(distToCross := 0);
        }
        cs := cs[id := car];
        i := i + 1;
      }
      assert q[..|q|] == q;
      AdmittedDone(q, cars0, t, pip0, pip);
      var waiting := Waiting(q, cs);
      GreenDone(cars0, crs0, c, d, t, cs, pip, waiting);
      cars, crossRoads := cs, crossRoads[c := crossRoads[c].WithPassInProg(pip).WithQueue(d, waiting)];
    }

    /** A north/south (`northSouth`) or west/east queue under a red signal:
        the car at the stop line is put back on it if it has passed it, and
        the other cars are shifted by the same amount. */
    method RedPhase(c: CrossId, d: Dir, northSouth: bool)
      requires WellFormed(cars, crossRoads, graph) && c < |crossRoads|
      modifies this
      ensures cars == HoldQueue(old(cars), old(crossRoads), c, d, northSouth)
      ensures crossRoads == old(crossRoads) && time == old(time)
    {
      ghost var cars0 := cars;
      var q := crossRoads[c].Queue(d);
      if q == [] {
        return;
      }
      UniqueNoDup(crossRoads, c, d);
      assert crossRoads[c].OccupantsBelow(|cars|);
      assert IdsBelow(q, |cars0|) && NoDup(q);
      assert q[|q| - 1] in q;
      var cs := cars;
      var back := 0;
      var front := q[|q| - 1];
      if cs[front].distToCross < 0 {
        back := -cs[front].distToCross;
        cs := cs[front := cs[front].(distToCross := 0)];
      }
      var i := 0;
      while i < |q| - 1
        invariant 0 <= i <= |q| - 1
        invariant |cs| == |cars0|
        invariant forall j :: 0 <= j < |cs| ==>
                    cs[j] == if j == front then cars0[j].(distToCross := cars0[j].distToCross + back)
                             else if j in q[..i] then cars0[j].(distToCross := cars0[j].distToCross + (if northSouth then back else -back))
                             else cars0[j]
      {
        var id := q[i];
        assert q[..i + 1] == q[..i] + [id];
        assert id in q && id != front && id !in q[..i];
        if northSouth {
          cs := cs[id := cs[id].(distToCross := cs[id].distToCross + back)];
        } else {
          cs := cs[id := cs[id].(distToCross := cs[id].distToCross - back)];
        }
        i := i + 1;
      }
      HoldDone(cars0, crossRoads, c, d, northSouth, cs, back);
      cars := cs;
    }

    /** Every car waiting in queue `d` of crossroad `c` is marked processed. */
    method MarkQueue(c: CrossId, d: Dir)
      requires Indexed(cars, crossRoads) && c < |crossRoads|
      modifies this
      ensures |cars| == |old(cars)| && crossRoads == old(crossRoads) && time == old(time)
      ensures forall j :: 0 <= j < |cars| ==>
                cars[j] == if j in crossRoads[c].Queue(d) then old(cars[j]).(updated := true) else old(cars[j])
      ensures Indexed(cars, crossRoads)
    {
      ghost var cars0 := cars;
      var q := crossRoads[c].Queue(d);
      assert crossRoads[c].OccupantsBelow(|cars|);
      assert IdsBelow(q, |cars0|);
      var cs := cars;
      var i := 0;
      while i < |q|
        invariant 0 <= i <= |q|
        invariant |cs| == |cars0|
        invariant forall j :: 0 <= j < |cs| ==> cs[j] == if j in q[..i] then cars0[j].(updated := true) else cars0[j]
      {
        assert q[..i + 1] == q[..i] + [q[i]];
        assert q[i] in q;
        cs := cs[q[i] := cs[q[i]].(updated := true)];
        i := i + 1;
      }
      assert q[..|q|] == q;
      cars := cs;
      assert forall j :: 0 <= j < |cars| ==> cars[j].dest == cars0[j].dest;
    }

    // ----- update_all and exec_policy -----

    /** One tick: `update_cars`, then `update_cross_roads`, then the clock,
        then the policy. Answers whether every car had arrived before the
        tick; on a failure the tick stops where the failure happened. */
    method UpdateAll(t: int) returns (allArrived: bool, err: Option<Failure>)
      requires Inv()
      modifies this
      ensures allArrived == AllArrived(old(cars))
      ensures var r := Tick(old(cars), old(crossRoads), graph, t);
              match err
              case None =>
                r.Ok? && cars == r.value.0 && time == old(time) + t &&
                crossRoads == ApplySignals(r.value.1, policy(graph, r.value.1, r.value.0, time)) &&
                Inv()
              case Some(f) => r.Err? && f in r.error
    {
      ghost var cars0, crs0 := cars, crossRoads;
      TickUnfold(cars0, crs0, graph, t);
      allArrived := UpdateCars(t);
      StepCarsKeeps(cars0, crs0, graph, t);
      err := UpdateCrossRoads(t);
      if err.Some? {
        return;
      }
      ghost var r := Tick(cars0, crs0, graph, t);
      assert r == Ok((cars, crossRoads));
      TickKeepsValid(cars0, crs0, graph, t);
      time := time + t;
      ghost var crs1 := crossRoads;
      ExecPolicy();
      assert crossRoads == ApplySignals(r.value.1, policy(graph, r.value.1, r.value.0, time));
      ApplySignalsKeepsValid(cars, crs1, graph, policy(graph, crs1, cars, time));
    }

    /** The policy sets the signal flags from the whole state. */
    method ExecPolicy()
      modifies this
      ensures crossRoads == ApplySignals(old(crossRoads), policy(graph, old(crossRoads), old(cars), old(time)))
      ensures cars == old(cars) && time == old(time)
    {
      var signals := policy(graph, crossRoads, cars, time);
      crossRoads := ApplySignals(crossRoads, signals);
    }
  }

  // ----- the registry pass -----

  /** The loop over the crossing registry `pip` of crossroad `c`: every car
      in it gains `t` elapsed time and goes through `Cross`; the cars whose
      crossing is done leave the registry. The first failure stops the
      pass. */
  method FinishRegistry(cars: seq<Car>, pip: map<CarId, int>, c: CrossId, g: Graph, t: int)
    returns (cs: seq<Car>, reg: map<CarId, int>, err: Option<Failure>)
    requires KeysBelow(pip, |cars|)
    ensures err.None? ==> CanFinish(cars, pip, c, g, t) && cs == Crossed(cars, pip, c, g, t) && reg == Remaining(cars, pip, t)
    ensures err.Some? ==> !CanFinish(cars, pip, c, g, t) && err.value in Failures(cars, pip, c, g, t)
  {
    cs, reg := cars, pip;
    var todo := pip.Keys;
    ghost var failed: CarId := 0;
    err := None;
    while todo != {} && err == None
      invariant todo <= pip.Keys && |cs| == |cars|
      invariant err.Some? ==> failed in pip && CrossOver(cars[failed], failed, c, pip[failed] + t, g) == Err(err.value)
      invariant PassState(cars, pip, c, g, t, todo, cs, reg)
      decreases |todo|, if err == None then 1 else 0
    {
      var k :| k in todo;
      PassPending(cars, pip, c, g, t, todo, cs, reg, k);
      var e := reg[k] + t;
      var r := CrossOver(cs[k], k, c, e, g);
      if r.Err? {
        err, failed := Some(r.error), k;
      } else {
        var reg' := reg[k := e];
        if e >= cs[k].crossTime {
          reg' := reg' - {k};
        }
        PassStep(cars, pip, c, g, t, todo, cs, reg, k, e, r, reg');
        cs, reg, todo := cs[k := r.value], reg', todo - {k};
      }
    }
    if err.Some? {
      FailureFound(cars, pip, c, g, t, failed, err.value);
      return;
    }
    RegistryDone(cars, pip, c, g, t, cs, reg);
  }

  // ----- linking the methods to the step functions -----

  /** The four phases in the order `UpdateCrossRoad` runs them make up
      `Signals`. */
  lemma PhasesAreSignals(cars: seq<Car>, crs: seq<CrossRoad>, c: CrossId, t: int,
                         s2: (seq<Car>, seq<CrossRoad>), s3: (seq<Car>, seq<CrossRoad>),
                         s4: (seq<Car>, seq<CrossRoad>), s5: (seq<Car>, seq<CrossRoad>))
    requires Indexed(cars, crs) && c < |crs|
    requires s2 == Phase(cars, crs, c, North, t, crs[c].nsState, true) && Indexed(s2.0, s2.1)
    requires s3 == Phase(s2.0, s2.1, c, South, t, crs[c].nsState, true) && Indexed(s3.0, s3.1)
    requires s4 == Phase(s3.0, s3.1, c, West, t, crs[c].weState, false) && Indexed(s4.0, s4.1)
    requires s5 == Phase(s4.0, s4.1, c, East, t, crs[c].weState, false)
    ensures s5 == Signals(cars, crs, c, t)
  {
  }

  /** A car of the registry whose crossing fails makes the pass fail, with
      its failure among those reported. */
  lemma FailureFound(cars: seq<Car>, pip: map<CarId, int>, c: CrossId, g: Graph, t: int, k: CarId, f: Failure)
    requires KeysBelow(pip, |cars|) && k in pip
    requires CrossOver(cars[k], k, c, pip[k] + t, g) == Err(f)
    ensures !CanFinish(cars, pip, c, g, t) && f in Failures(cars, pip, c, g, t)
  {
  }

  /** When every car of the registry has been through `Cross`, the cars and
      the registry are those of crossing completion. */
  lemma RegistryDone(cars: seq<Car>, pip: map<CarId, int>, c: CrossId, g: Graph, t: int,
                     cs: seq<Car>, reg: map<CarId, int>)
    requires KeysBelow(pip, |cars|) && |cs| == |cars|
    requires PassState(cars, pip, c, g, t, {}, cs, reg)
    ensures CanFinish(cars, pip, c, g, t) && cs == Crossed(cars, pip, c, g, t) && reg == Remaining(cars, pip, t)
  {
    assert CanFinish(cars, pip, c, g, t);
    assert cs == Crossed(cars, pip, c, g, t);
    RemainingIs(cars, pip, t, reg);
  }

  lemma RemainingIs(cars: seq<Car>, pip: map<CarId, int>, time: int, reg: map<CarId, int>)
    requires KeysBelow(pip, |cars|)
    requires forall k :: k in reg ==> k in pip
    requires forall k :: k in pip ==> (k in reg <==> pip[k] + time < cars[k].crossTime)
    requires forall k :: k in reg ==> reg[k] == pip[k] + time
    ensures reg == Remaining(cars, pip, time)
  {
  }

  /** The registry after the approach loop has visited the whole queue. */
  lemma AdmittedDone(q: seq<CarId>, cars: seq<Car>, t: int, pip0: map<CarId, int>, pip: map<CarId, int>)
    requires IdsBelow(q, |cars|)
    requires forall id :: id in pip <==> id in pip0 || (id < |cars| && id in q && cars[id].distToCross - t <= 0)
    requires forall id :: id in pip ==>
               pip[id] == if id < |cars| && id in q && cars[id].distToCross - t <= 0
                          then t - cars[id].distToCross else pip0[id]
    ensures pip == pip0 + Admitted(q, cars, t)
  {
  }

  /** The approach loop and the filter loop of `GreenPhase` compute the
      green phase. */
  lemma GreenDone(cars: seq<Car>, crs: seq<CrossRoad>, c: CrossId, d: Dir, t: int,
                  cs: seq<Car>, pip: map<CarId, int>, waiting: seq<CarId>)
    requires Indexed(cars, crs) && c < |crs| && IdsBelow(crs[c].Queue(d), |cars|)
    requires |cs| == |cars|
    requires forall j :: 0 <= j < |cs| ==> cs[j] == if j in crs[c].Queue(d) then Approach(cars[j], t) else cars[j]
    requires pip == crs[c].passInProg + Admitted(crs[c].Queue(d), cars, t)
    requires waiting == Waiting(crs[c].Queue(d), cs)
    ensures GreenQueue(cars, crs, c, d, t) == (cs, crs[c := crs[c].WithPassInProg(pip).WithQueue(d, waiting)])
  {
    crs[c].WithCommute(d, waiting, pip);
    assert cs == GreenQueue(cars, crs, c, d, t).0;
  }

  /** The shift loop of `RedPhase` computes the red phase. */
  lemma HoldDone(cars: seq<Car>, crs: seq<CrossRoad>, c: CrossId, d: Dir, northSouth: bool,
                 cs: seq<Car>, back: int)
    requires Indexed(cars, crs) && c < |crs|
    requires var q := crs[c].Queue(d);
             q != [] && IdsBelow(q, |cars|) && q[|q| - 1] < |cars| &&
             back == (if cars[q[|q| - 1]].distToCross < 0 then -cars[q[|q| - 1]].distToCross else 0)
    requires |cs| == |cars|
    requires var q := crs[c].Queue(d);
             forall j :: 0 <= j < |cs| ==>
               cs[j] == if j == q[|q| - 1] then cars[j].(distToCross := cars[j].distToCross + back)
                        else if j in q[..|q| - 1] then cars[j].(distToCross := cars[j].distToCross + (if northSouth then back else -back))
                        else cars[j]
    ensures cs == HoldQueue(cars, crs, c, d, northSouth)
  {
    var h := HoldQueue(cars, crs, c, d, northSouth);
    forall j | 0 <= j < |cs|
      ensures cs[j] == h[j]
    {
    }
  }

  /** The four `MarkQueue` calls mark exactly the cars queued at `cr`. */
  lemma MarksDone(cars: seq<Car>, cr: CrossRoad, m1: seq<Car>, m2: seq<Car>, m3: seq<Car>, m4: seq<Car>)
    requires |m1| == |m2| == |m3| == |m4| == |cars|
    requires forall j :: 0 <= j < |cars| ==> m1[j] == if j in cr.Queue(North) then cars[j].(updated := true) else cars[j]
    requires forall j :: 0 <= j < |cars| ==> m2[j] == if j in cr.Queue(South) then m1[j].(updated := true) else m1[j]
    requires forall j :: 0 <= j < |cars| ==> m3[j] == if j in cr.Queue(West) then m2[j].(updated := true) else m2[j]
    requires forall j :: 0 <= j < |cars| ==> m4[j] == if j in cr.Queue(East) then m3[j].(updated := true) else m3[j]
    ensures m4 == MarkQueued(cars, cr)
  {
  }

  /** A tick is the car step followed by every crossroad from the first. */
  lemma TickUnfold(cars: seq<Car>, crs: seq<CrossRoad>, g: Graph, t: int)
    requires Indexed(cars, crs) && EdgesInto(g, |crs|)
    ensures Indexed(StepCars(cars, crs, t).0, StepCars(cars, crs, t).1)
    ensures Tick(cars, crs, g, t) == ResolveFrom(StepCars(cars, crs, t).0, StepCars(cars, crs, t).1, g, t, 0)
  {
    StepCarsIndexed(cars, crs, t);
  }

  /** Where the registry pass stands: the cars of `pip` still to do are
      untouched, the others have been through `CrossOver`, and the
      registry holds the cars still to do and the done ones still crossing. */
  ghost predicate PassState(cars: seq<Car>, pip: map<CarId, int>, c: CrossId, g: Graph, t: int,
                            todo: set<CarId>, cs: seq<Car>, reg: map<CarId, int>)
    requires KeysBelow(pip, |cars|) && |cs| == |cars|
  {
    (forall k :: k in reg ==> k in pip) &&
    (forall k :: k in todo ==> k in reg && reg[k] == pip[k]) &&
    (forall k :: k in pip && k !in todo ==> CrossOver(cars[k], k, c, pip[k] + t, g) == Ok(cs[k])) &&
    (forall k :: k in pip && k !in todo ==> (k in reg <==> pip[k] + t < cars[k].crossTime)) &&
    (forall k :: k in reg && k !in todo ==> reg[k] == pip[k] + t) &&
    (forall j :: 0 <= j < |cs| && (j !in pip || j in todo) ==> cs[j] == cars[j])
  }

  /** A car still to do is untouched and keeps its registry entry. */
  lemma PassPending(cars: seq<Car>, pip: map<CarId, int>, c: CrossId, g: Graph, t: int,
                    todo: set<CarId>, cs: seq<Car>, reg: map<CarId, int>, k: CarId)
    requires KeysBelow(pip, |cars|) && |cs| == |cars| && todo <= pip.Keys && k in todo
    requires PassState(cars, pip, c, g, t, todo, cs, reg)
    ensures k in reg && reg[k] == pip[k] && cs[k] == cars[k]
  {
  }

  /** One more crossing car handled keeps the pass state. */
  lemma PassStep(cars: seq<Car>, pip: map<CarId, int>, c: CrossId, g: Graph, t: int,
                 todo: set<CarId>, cs: seq<Car>, reg: map<CarId, int>, k: CarId,
                 e: int, r: Result<Car, Failure>, reg': map<CarId, int>)
    requires KeysBelow(pip, |cars|) && |cs| == |cars| && todo <= pip.Keys && k in todo
    requires PassState(cars, pip, c, g, t, todo, cs, reg)
    requires k in reg && e == reg[k] + t && r == CrossOver(cs[k], k, c, e, g) && r.Ok?
    requires reg' == if e >= cs[k].crossTime then reg[k := e] - {k} else reg[k := e]
    ensures PassState(cars, pip, c, g, t, todo - {k}, cs[k := r.value], reg')
  {
    assert cs[k] == cars[k];
  }

  /** Crossing completion, then the signal phases, then the marking: the
      crossroad resolved. */
  lemma ResolveDone(cars: seq<Car>, crs: seq<CrossRoad>, c: CrossId, g: Graph, t: int,
                    s1: (seq<Car>, seq<CrossRoad>), s2: (seq<Car>, seq<CrossRoad>))
    requires Indexed(cars, crs) && EdgesInto(g, |crs|) && c < |crs|
    requires FinishCrossings(cars, crs, c, g, t) == Ok(s1) && Indexed(s1.0, s1.1) && c < |s1.1|
    requires s2 == Signals(s1.0, s1.1, c, t)
    ensures ResolveCrossRoad(cars, crs, c, g, t) == Ok((MarkQueued(s2.0, s2.1[c]), s2.1))
  {
  }
}
