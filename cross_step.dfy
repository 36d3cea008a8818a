/** `World.update_cross_roads` as functions: per crossroad, finish the
    crossing cars, advance the queues under a green signal, hold the queues
    under a red one at the stop line, and mark every queued car as
    processed. */
module CrossStep {
  import opened Model
  import opened Queues

  // ----- crossing completion -----

  /** A crossing car whose elapsed time has become `elapsed`: still crossing,
      or done with crossroad `c` and either placed on the road to its next
      crossroad or arrived. */
  function CrossOver(car: Car, id: CarId, c: CrossId, elapsed: int, g: Graph): Result<Car, Failure>
  {
    var car := car.(updated := true);
    if elapsed < car.crossTime then Ok(car)
    else if car.actions == [] then Err(EmptyPath(id))
    else
      var car := car.(previousCross := Some(car.actions[0]), actions := car.actions[1..]);
      if car.actions == [] then Ok(car.(arrived := true))
      else if (c, car.actions[0]) !in g then Err(MissingEdge(c, car.actions[0]))
      else
        var edge := g[(c, car.actions[0])];
        Ok(car.(distToCross := edge.length - elapsed + car.crossTime, dest := edge.dest))
  }

  predicate KeysBelow(pip: map<CarId, int>, n: nat)
  {
    forall k :: k in pip ==> k < n
  }

  /** No crossing car of `pip` makes the step fail. */
  predicate CanFinish(cars: seq<Car>, pip: map<CarId, int>, c: CrossId, g: Graph, time: int)
    requires KeysBelow(pip, |cars|)
  {
    forall k :: k in pip ==> CrossOver(cars[k], k, c, pip[k] + time, g).Ok?
  }

  /** The failures the crossing cars of `pip` run into. */
  function Failures(cars: seq<Car>, pip: map<CarId, int>, c: CrossId, g: Graph, time: int): set<Failure>
    requires KeysBelow(pip, |cars|)
  {
    set k | k in pip && CrossOver(cars[k], k, c, pip[k] + time, g).Err? ::
      CrossOver(cars[k], k, c, pip[k] + time, g).error
  }

  /** Crossing completion at crossroad `c`: every crossing car gains `time`;
      those that reach their crossing time leave the registry. It fails when
      one of them has no next hop to go to. */
  function FinishCrossings(cars: seq<Car>, crs: seq<CrossRoad>, c: CrossId, g: Graph, time: int)
    : (r: Result<(seq<Car>, seq<CrossRoad>), set<Failure>>)
    requires Indexed(cars, crs) && c < |crs|
    ensures r.Err? <==> !CanFinish(cars, crs[c].passInProg, c, g, time)
    ensures r.Ok? ==> |r.value.0| == |cars| && |r.value.1| == |crs|
  {
    var pip := crs[c].passInProg;
    if CanFinish(cars, pip, c, g, time) then
      Ok((Crossed(cars, pip, c, g, time), crs[c := crs[c].WithPassInProg(Remaining(cars, pip, time))]))
    else
      Err(Failures(cars, pip, c, g, time))
  }

  /** The cars after crossing completion: each crossing car moved on by
      `CrossOver`, every other car unchanged. */
  function Crossed(cars: seq<Car>, pip: map<CarId, int>, c: CrossId, g: Graph, time: int): (cars': seq<Car>)
    requires KeysBelow(pip, |cars|) && CanFinish(cars, pip, c, g, time)
    ensures |cars'| == |cars|
  {
    seq(|cars|, j requires 0 <= j < |cars| =>
      if j in pip then CrossOver(cars[j], j, c, pip[j] + time, g).value else cars[j])
  }

  /** A failing step always names at least one failure. */
  lemma FailuresNonEmpty(cars: seq<Car>, pip: map<CarId, int>, c: CrossId, g: Graph, time: int)
    requires KeysBelow(pip, |cars|) && !CanFinish(cars, pip, c, g, time)
    ensures Failures(cars, pip, c, g, time) != {}
  {
    var k :| k in pip && CrossOver(cars[k], k, c, pip[k] + time, g).Err?;
    assert CrossOver(cars[k], k, c, pip[k] + time, g).error in Failures(cars, pip, c, g, time);
  }

  /** The registry after crossing completion: the cars still short of their
      crossing time, with `time` added. */
  function Remaining(cars: seq<Car>, pip: map<CarId, int>, time: int): (m: map<CarId, int>)
    requires KeysBelow(pip, |cars|)
    ensures forall k :: k in m <==> k in pip && pip[k] + time < cars[k].crossTime
    ensures forall k :: k in m ==> m[k] == pip[k] + time
  {
    map k | k in pip && pip[k] + time < cars[k].crossTime :: pip[k] + time
  }

  // ----- green phase -----

  /** A queued car under a green signal: it drives `time` closer, and stops
      at the line (distance 0) if it reaches or passes it. */
  function Approach(car: Car, time: int): Car
  {
    var d := car.distToCross - time;
    car.(distToCross := if d <= 0 then 0 else d, updated := true)
  }

  /** The cars of `q` that reach the stop line, each with its overshoot
      as elapsed crossing time. */
  function Admitted(q: seq<CarId>, cars: seq<Car>, time: int): (m: map<CarId, int>)
    requires IdsBelow(q, |cars|)
    ensures forall id :: id in m <==> id in q && cars[id].distToCross - time <= 0
    ensures forall id :: id in m ==> m[id] == time - cars[id].distToCross && m[id] >= 0
  {
    map id | id in q && cars[id].distToCross - time <= 0 :: time - cars[id].distToCross
  }

  /** The green phase of queue `d` at crossroad `c`. */
  function GreenQueue(cars: seq<Car>, crs: seq<CrossRoad>, c: CrossId, d: Dir, time: int): (r: (seq<Car>, seq<CrossRoad>))
    requires Indexed(cars, crs) && c < |crs|
    ensures |r.0| == |cars| && |r.1| == |crs|
    ensures forall c' :: 0 <= c' < |crs| && c' != c ==> r.1[c'] == crs[c']
    ensures r.1[c].nsState == crs[c].nsState && r.1[c].weState == crs[c].weState
  {
    var cr := crs[c];
    var q := cr.Queue(d);
    assert IdsBelow(q, |cars|);
    var cars' := seq(|cars|, j requires 0 <= j < |cars| => if j in q then Approach(cars[j], time) else cars[j]);
    (cars', crs[c := cr.WithQueue(d, Waiting(q, cars')).WithPassInProg(cr.passInProg + Admitted(q, cars, time))])
  }

  // ----- red phase -----

  /** The red phase of queue `d` at crossroad `c`. The car treated as at the
      stop line is the last one appended; if it has passed the line it is
      put back on it, and every other car of the queue is shifted by the
      same amount: away from the line for the north/south queues, towards
      it for the west/east queues. */
  function HoldQueue(cars: seq<Car>, crs: seq<CrossRoad>, c: CrossId, d: Dir, northSouth: bool): (cars': seq<Car>)
    requires Indexed(cars, crs) && c < |crs|
    ensures |cars'| == |cars|
  {
    var q := crs[c].Queue(d);
    if q == [] then cars
    else
      assert q[|q| - 1] in q;
      var front := q[|q| - 1];
      var back := if cars[front].distToCross < 0 then -cars[front].distToCross else 0;
      var shift := if northSouth then back else -back;
      seq(|cars|, j requires 0 <= j < |cars| =>
        if j == front then cars[j].(distToCross := cars[j].distToCross + back)
        else if j in q[..|q| - 1] then cars[j].(distToCross := cars[j].distToCross + shift)
        else cars[j])
  }

  // ----- the whole crossroad -----

  /** One queue under its signal: advance when green, hold when red. */
  function Phase(cars: seq<Car>, crs: seq<CrossRoad>, c: CrossId, d: Dir, time: int, green: bool, northSouth: bool)
    : (r: (seq<Car>, seq<CrossRoad>))
    requires Indexed(cars, crs) && c < |crs|
    ensures |r.0| == |cars| && |r.1| == |crs|
    ensures forall c' :: 0 <= c' < |crs| && c' != c ==> r.1[c'] == crs[c']
    ensures r.1[c].nsState == crs[c].nsState && r.1[c].weState == crs[c].weState
  {
    if green then GreenQueue(cars, crs, c, d, time) else (HoldQueue(cars, crs, c, d, northSouth), crs)
  }

  /** Every car waiting in a queue of `cr` is marked processed. */
  function MarkQueued(cars: seq<Car>, cr: CrossRoad): (cars': seq<Car>)
    ensures |cars'| == |cars|
    ensures forall j :: 0 <= j < |cars| ==> cars'[j].dest == cars[j].dest
  {
    seq(|cars|, j requires 0 <= j < |cars| => if cr.Queued(j) then cars[j].(updated := true) else cars[j])
  }

  /** Crossroad `c` resolved for one tick: crossing completion, then the
      north and south queues under the north/south signal, then the west and
      east queues under the west/east signal, then every queued car marked. */
  function ResolveCrossRoad(cars: seq<Car>, crs: seq<CrossRoad>, c: CrossId, g: Graph, time: int)
    : (r: Result<(seq<Car>, seq<CrossRoad>), set<Failure>>)
    requires Indexed(cars, crs) && EdgesInto(g, |crs|) && c < |crs|
    ensures r.Ok? ==> |r.value.0| == |cars| && |r.value.1| == |crs| && Indexed(r.value.0, r.value.1)
  {
    match FinishCrossings(cars, crs, c, g, time)
    case Err(f) => Err(f)
    case Ok((cars1, crs1)) =>
      FinishIndexed(cars, crs, c, g, time);
      var (cars2, crs2) := Signals(cars1, crs1, c, time);
      Ok((MarkQueued(cars2, crs2[c]), crs2))
  }

  /** The four queues of crossroad `c` under their signals: north and south
      under the north/south flag, then west and east under the west/east
      flag. */
  function Signals(cars: seq<Car>, crs: seq<CrossRoad>, c: CrossId, time: int): (r: (seq<Car>, seq<CrossRoad>))
    requires Indexed(cars, crs) && c < |crs|
    ensures |r.0| == |cars| && |r.1| == |crs| && Indexed(r.0, r.1)
  {
    var ns, we := crs[c].nsState, crs[c].weState;
    PhaseIndexed(cars, crs, c, North, time, ns, true);
    var (cars1, crs1) := Phase(cars, crs, c, North, time, ns, true);
    PhaseIndexed(cars1, crs1, c, South, time, ns, true);
    var (cars2, crs2) := Phase(cars1, crs1, c, South, time, ns, true);
    PhaseIndexed(cars2, crs2, c, West, time, we, false);
    var (cars3, crs3) := Phase(cars2, crs2, c, West, time, we, false);
    PhaseIndexed(cars3, crs3, c, East, time, we, false);
    Phase(cars3, crs3, c, East, time, we, false)
  }

  /** Crossroads `c`, `c + 1`, ... resolved in order, as the loop over
      `all_cross_roads` does from position `c` on; the first failure aborts. */
  function ResolveFrom(cars: seq<Car>, crs: seq<CrossRoad>, g: Graph, time: int, c: nat)
    : (r: Result<(seq<Car>, seq<CrossRoad>), set<Failure>>)
    requires Indexed(cars, crs) && EdgesInto(g, |crs|) && c <= |crs|
    ensures r.Ok? ==> |r.value.0| == |cars| && |r.value.1| == |crs| && Indexed(r.value.0, r.value.1)
    decreases |crs| - c
  {
    if c == |crs| then Ok((cars, crs))
    else
      var r := ResolveCrossRoad(cars, crs, c, g, time);
      if r.Err? then r else ResolveFrom(r.value.0, r.value.1, g, time, c + 1)
  }

  // ----- references stay resolvable -----

  lemma FinishIndexed(cars: seq<Car>, crs: seq<CrossRoad>, c: CrossId, g: Graph, time: int)
    requires Indexed(cars, crs) && EdgesInto(g, |crs|) && c < |crs|
    requires FinishCrossings(cars, crs, c, g, time).Ok?
    ensures Indexed(FinishCrossings(cars, crs, c, g, time).value.0, FinishCrossings(cars, crs, c, g, time).value.1)
  {
    var pip := crs[c].passInProg;
    var cars' := Crossed(cars, pip, c, g, time);
    var cr' := crs[c].WithPassInProg(Remaining(cars, pip, time));
    CrossedDests(cars, pip, c, g, time, |crs|);
    assert cr'.OccupantsBelow(|cars|);
    assert FinishCrossings(cars, crs, c, g, time) == Ok((cars', crs[c := cr']));
  }

  lemma CrossedDests(cars: seq<Car>, pip: map<CarId, int>, c: CrossId, g: Graph, time: int, n: nat)
    requires KeysBelow(pip, |cars|) && CanFinish(cars, pip, c, g, time)
    requires forall j :: 0 <= j < |cars| ==> cars[j].dest.cross < n
    requires EdgesInto(g, n)
    ensures forall j :: 0 <= j < |cars| ==> Crossed(cars, pip, c, g, time)[j].dest.cross < n
  {
    forall j | 0 <= j < |cars|
      ensures Crossed(cars, pip, c, g, time)[j].dest.cross < n
    {
      if j in pip {
        CrossOverDest(cars[j], j, c, pip[j] + time, g, n);
      }
    }
  }

  /** A car that finishes crossing is sent to a queue some edge feeds. */
  lemma CrossOverDest(car: Car, id: CarId, c: CrossId, elapsed: int, g: Graph, n: nat)
    requires car.dest.cross < n && EdgesInto(g, n)
    requires CrossOver(car, id, c, elapsed, g).Ok?
    ensures CrossOver(car, id, c, elapsed, g).value.dest.cross < n
  {
  }

  lemma PhaseIndexed(cars: seq<Car>, crs: seq<CrossRoad>, c: CrossId, d: Dir, time: int, green: bool, northSouth: bool)
    requires Indexed(cars, crs) && c < |crs|
    ensures Indexed(Phase(cars, crs, c, d, time, green, northSouth).0, Phase(cars, crs, c, d, time, green, northSouth).1)
  {
    var (cars', crs') := Phase(cars, crs, c, d, time, green, northSouth);
    if green {
      var q := crs[c].Queue(d);
      assert forall e :: crs'[c].Queue(e) == if e == d then Waiting(q, cars') else crs[c].Queue(e);
      assert crs'[c].OccupantsBelow(|cars'|);
    } else {
      assert crs' == crs;
    }
  }
}
