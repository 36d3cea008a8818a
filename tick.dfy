/** One call of `World.update_all`: the car step, then every crossroad in
    order, then the clock, then the signal policy. */
module Ticks {
  import opened Model
  import opened CarsStep
  import opened CrossStep
  import opened Invariants

  /** The signal policy: from the graph, the crossroads, the cars and the
      clock, the flags to show at each crossroad (a crossroad past the end
      of the answer keeps its flags). */
  type Policy = (Graph, seq<CrossRoad>, seq<Car>, int) -> seq<Signal>

  /** The crossroads with the policy's flags applied. */
  function ApplySignals(crs: seq<CrossRoad>, sigs: seq<Signal>): (crs': seq<CrossRoad>)
    ensures |crs'| == |crs|
    ensures forall c :: 0 <= c < |crs| ==>
              (forall d :: crs'[c].Queue(d) == crs[c].Queue(d)) && crs'[c].passInProg == crs[c].passInProg
    ensures forall c :: 0 <= c < |crs| ==>
              if c < |sigs| then crs'[c].nsState == sigs[c].ns && crs'[c].weState == sigs[c].we
              else crs'[c].nsState == crs[c].nsState && crs'[c].weState == crs[c].weState
  {
    seq(|crs|, c requires 0 <= c < |crs| =>
      if c < |sigs| then crs[c].(nsState := sigs[c].ns, weState := sigs[c].we) else crs[c])
  }

  /** `update_cars` followed by `update_cross_roads`. */
  function Tick(cars: seq<Car>, crs: seq<CrossRoad>, g: Graph, time: int)
    : (r: Result<(seq<Car>, seq<CrossRoad>), set<Failure>>)
    requires Indexed(cars, crs) && EdgesInto(g, |crs|)
    ensures r.Ok? ==> |r.value.0| == |cars| && |r.value.1| == |crs| && Indexed(r.value.0, r.value.1)
  {
    StepCarsIndexed(cars, crs, time);
    var (cars1, crs1) := StepCars(cars, crs, time);
    ResolveFrom(cars1, crs1, g, time, 0)
  }

  lemma SettledOfAll(cars: seq<Car>, crs: seq<CrossRoad>)
    requires forall c :: 0 <= c < |crs| ==> SettledAt(cars, crs, c)
    ensures Settled(cars, crs)
  {
    forall c: int, id: CarId {:trigger crs[c].Count(id)} | 0 <= c < |crs| && crs[c].Count(id) > 0
      ensures id < |cars| && cars[id].updated
    {
      assert SettledAt(cars, crs, c);
    }
  }

  /** A successful tick keeps the invariant: after it every car still takes
      at most one slot, no arrived car takes one, every car that takes one
      is marked processed, and no car that had arrived is back on the road. */
  lemma TickKeepsValid(cars: seq<Car>, crs: seq<CrossRoad>, g: Graph, time: int)
    requires Valid(cars, crs, g)
    ensures var r := Tick(cars, crs, g, time);
            r.Ok? ==> Valid(r.value.0, r.value.1, g) &&
                      forall j :: 0 <= j < |cars| && cars[j].arrived ==> r.value.0[j].arrived
  {
    StepCarsIndexed(cars, crs, time);
    StepCarsKeeps(cars, crs, g, time);
    StepCarsCars(cars, crs, time);
    var (cars1, crs1) := StepCars(cars, crs, time);
    ResolveFromKeeps(cars1, crs1, g, time, 0);
    var r := ResolveFrom(cars1, crs1, g, time, 0);
    assert Tick(cars, crs, g, time) == r;
    if r.Ok? {
      SettledOfAll(r.value.0, r.value.1);
    }
  }

  /** The policy only switches signals, so it keeps the invariant. */
  lemma ApplySignalsKeepsValid(cars: seq<Car>, crs: seq<CrossRoad>, g: Graph, sigs: seq<Signal>)
    requires Valid(cars, crs, g)
    ensures Valid(cars, ApplySignals(crs, sigs), g)
  {
    var crs' := ApplySignals(crs, sigs);
    forall c, id: CarId | 0 <= c < |crs|
      ensures crs'[c].Count(id) == crs[c].Count(id)
    {
      assert crs'[c].Queue(North) == crs[c].Queue(North);
      assert crs'[c].Queue(South) == crs[c].Queue(South);
      assert crs'[c].Queue(West) == crs[c].Queue(West);
      assert crs'[c].Queue(East) == crs[c].Queue(East);
    }
    forall c | 0 <= c < |crs|
      ensures crs'[c].OccupantsBelow(|cars|)
    {
      assert crs[c].OccupantsBelow(|cars|);
    }
  }
}
