/** The invariant one tick keeps: every car takes at most one slot (a
    place in one queue, or an entry in one crossing registry) in the whole
    network, no arrived car takes a slot, and between ticks every car that
    takes a slot is marked processed, which is what stops `update_cars`
    from moving it. */
module Invariants {
  import opened Model
  import opened Queues
  import opened CarsStep
  import opened CrossStep

  /** No car takes two slots at one crossroad, nor slots at two crossroads. */
  ghost predicate Unique(crs: seq<CrossRoad>)
  {
    (forall c, id: CarId :: 0 <= c < |crs| ==> crs[c].Count(id) <= 1) &&
    (forall c1, c2, id: CarId :: 0 <= c1 < |crs| && 0 <= c2 < |crs| && c1 != c2 && crs[c1].Count(id) > 0 ==>
       crs[c2].Count(id) == 0)
  }

  /** Every car that takes a slot is a car that has not arrived. */
  ghost predicate InPlay(cars: seq<Car>, crs: seq<CrossRoad>)
  {
    forall c, id: CarId {:trigger crs[c].Count(id)} :: 0 <= c < |crs| && crs[c].Count(id) > 0 ==> id < |cars| && !cars[id].arrived
  }

  /** Every car that takes a slot is marked processed. */
  ghost predicate Settled(cars: seq<Car>, crs: seq<CrossRoad>)
  {
    forall c, id: CarId {:trigger crs[c].Count(id)} :: 0 <= c < |crs| && crs[c].Count(id) > 0 ==> id < |cars| && cars[id].updated
  }

  /** What holds at every point of a tick. */
  ghost predicate WellFormed(cars: seq<Car>, crs: seq<CrossRoad>, g: Graph)
  {
    Indexed(cars, crs) && EdgesInto(g, |crs|) && Unique(crs) && InPlay(cars, crs)
  }

  /** What holds between ticks. */
  ghost predicate Valid(cars: seq<Car>, crs: seq<CrossRoad>, g: Graph)
  {
    WellFormed(cars, crs, g) && Settled(cars, crs)
  }

  /** Where no car takes two slots, no queue holds a car twice. */
  lemma UniqueNoDup(crs: seq<CrossRoad>, c: CrossId, d: Dir)
    requires Unique(crs) && c < |crs|
    ensures NoDup(crs[c].Queue(d))
  {
    var q := crs[c].Queue(d);
    var m: multiset<CarId> := multiset(q);
    forall id: CarId
      ensures m[id] <= 1
    {
      OccMultiset(q, id);
      assert crs[c].Count(id) <= 1;
    }
    NoDupOfCounts(q);
  }

  // ----- how one crossroad's slot count changes -----

  lemma CountReplaced(cr: CrossRoad, d: Dir, q: seq<CarId>, m: map<CarId, int>, id: CarId)
    ensures cr.WithQueue(d, q).WithPassInProg(m).Count(id) + Occ(cr.Queue(d), id) + (if id in cr.passInProg then 1 else 0)
         == cr.Count(id) + Occ(q, id) + (if id in m then 1 else 0)
  {
    match d
    case North =>
    case South =>
    case West =>
    case East =>
  }

  /** The green phase moves cars from the queue into the registry and
      nowhere else: every car keeps exactly the slots it had. */
  lemma {:induction false} GreenKeepsCounts(cars: seq<Car>, crs: seq<CrossRoad>, c: CrossId, d: Dir, time: int)
    requires Indexed(cars, crs) && c < |crs|
    requires forall id :: crs[c].Count(id) <= 1
    ensures forall c', id :: 0 <= c' < |crs| ==>
              GreenQueue(cars, crs, c, d, time).1[c'].Count(id) == crs[c'].Count(id)
  {
    var (cars', crs') := GreenQueue(cars, crs, c, d, time);
    var cr := crs[c];
    var q := cr.Queue(d);
    var w := Waiting(q, cars');
    var adm := Admitted(q, cars, time);
    assert crs'[c] == cr.WithQueue(d, w).WithPassInProg(cr.passInProg + adm);
    forall id
      ensures crs'[c].Count(id) == cr.Count(id)
    {
      CountReplaced(cr, d, w, cr.passInProg + adm, id);
      OccMultiset(q, id);
      OccMultiset(w, id);
      if id in q {
        assert multiset(q)[id] == 1;
        assert id !in cr.passInProg;
      } else {
        assert multiset(w)[id] == 0;
      }
    }
  }

  /** Flags only go one way during crossroad resolution: a processed car
      stays processed and an arrived car stays arrived. */
  ghost predicate Monotone(cars: seq<Car>, cars': seq<Car>)
  {
    |cars'| == |cars| &&
    forall j :: 0 <= j < |cars| ==>
      (cars[j].updated ==> cars'[j].updated) && (cars[j].arrived ==> cars'[j].arrived)
  }

  /** Every car crossing crossroad `c` is marked processed. */
  ghost predicate RegistrySettled(cars: seq<Car>, cr: CrossRoad)
  {
    forall id :: id in cr.passInProg ==> id < |cars| && cars[id].updated
  }

  /** Every car taking a slot at crossroad `c` is marked processed. */
  ghost predicate SettledAt(cars: seq<Car>, crs: seq<CrossRoad>, c: CrossId)
    requires c < |crs|
  {
    forall id: CarId {:trigger crs[c].Count(id)} :: crs[c].Count(id) > 0 ==> id < |cars| && cars[id].updated
  }

  /** Fewer slots cannot break uniqueness. */
  lemma ShrinkKeepsUnique(crs: seq<CrossRoad>, crs': seq<CrossRoad>)
    requires |crs'| == |crs| && Unique(crs)
    requires forall c, id: CarId :: 0 <= c < |crs| ==> crs'[c].Count(id) <= crs[c].Count(id)
    ensures Unique(crs')
  {
  }

  lemma CrossOverFlags(car: Car, id: CarId, c: CrossId, elapsed: int, g: Graph)
    requires CrossOver(car, id, c, elapsed, g).Ok?
    ensures CrossOver(car, id, c, elapsed, g).value.updated
    ensures car.arrived ==> CrossOver(car, id, c, elapsed, g).value.arrived
    ensures elapsed < car.crossTime ==> CrossOver(car, id, c, elapsed, g).value.arrived == car.arrived
  {
  }

  /** Per car: crossing completion marks every crossing car processed,
      leaves every other car alone, and a car that keeps crossing does not
      arrive. */
  lemma CrossedCars(cars: seq<Car>, pip: map<CarId, int>, c: CrossId, g: Graph, time: int)
    requires KeysBelow(pip, |cars|) && CanFinish(cars, pip, c, g, time)
    ensures var cars' := Crossed(cars, pip, c, g, time);
            Monotone(cars, cars') &&
            (forall j :: 0 <= j < |cars| && j !in pip ==> cars'[j] == cars[j]) &&
            (forall j :: 0 <= j < |cars| && j in pip ==> cars'[j].updated) &&
            (forall j :: 0 <= j < |cars| && j in pip && pip[j] + time < cars[j].crossTime ==>
               cars'[j].arrived == cars[j].arrived)
  {
    var cars' := Crossed(cars, pip, c, g, time);
    forall j | 0 <= j < |cars| && j in pip
      ensures cars'[j].updated && (cars[j].arrived ==> cars'[j].arrived)
      ensures pip[j] + time < cars[j].crossTime ==> cars'[j].arrived == cars[j].arrived
    {
      CrossOverFlags(cars[j], j, c, pip[j] + time, g);
    }
  }

  lemma FinishInPlay(cars: seq<Car>, crs: seq<CrossRoad>, cars': seq<Car>, crs': seq<CrossRoad>,
                     c: CrossId, time: int)
    requires c < |crs| == |crs'| && |cars'| == |cars| && KeysBelow(crs[c].passInProg, |cars|)
    requires Unique(crs) && InPlay(cars, crs)
    requires forall c2 :: 0 <= c2 < |crs| && c2 != c ==> crs'[c2] == crs[c2]
    requires forall id: CarId :: var pip := crs[c].passInProg;
               crs'[c].Count(id) + (if id in pip && pip[id] + time >= cars[id].crossTime then 1 else 0) == crs[c].Count(id)
    requires forall j :: 0 <= j < |cars| && j !in crs[c].passInProg ==> cars'[j] == cars[j]
    requires forall j :: 0 <= j < |cars| && j in crs[c].passInProg && crs[c].passInProg[j] + time < cars[j].crossTime ==>
               cars'[j].arrived == cars[j].arrived
    ensures InPlay(cars', crs')
  {
    var pip := crs[c].passInProg;
    forall c2, id: CarId | 0 <= c2 < |crs'| && crs'[c2].Count(id) > 0
      ensures id < |cars'| && !cars'[id].arrived
    {
      if c2 != c {
        assert crs[c2].Count(id) > 0;
        assert crs[c].Count(id) == 0;
        assert id !in pip;
      } else {
        assert crs[c].Count(id) > 0;
        if id in pip {
          assert pip[id] + time < cars[id].crossTime;
        }
      }
    }
  }

  /** The registry after crossing completion has only fewer cars, so only
      crossing cars that finish lose a slot. */
  lemma FinishCounts(cars: seq<Car>, crs: seq<CrossRoad>, c: CrossId, time: int, crs': seq<CrossRoad>)
    requires c < |crs| && KeysBelow(crs[c].passInProg, |cars|)
    requires crs' == crs[c := crs[c].WithPassInProg(Remaining(cars, crs[c].passInProg, time))]
    ensures forall c2, id: CarId :: 0 <= c2 < |crs| && c2 != c ==> crs'[c2].Count(id) == crs[c2].Count(id)
    ensures forall id: CarId :: var pip := crs[c].passInProg;
              crs'[c].Count(id) + (if id in pip && pip[id] + time >= cars[id].crossTime then 1 else 0) == crs[c].Count(id)
  {
    var pip := crs[c].passInProg;
    var rest := Remaining(cars, pip, time);
    forall id: CarId
      ensures crs'[c].Count(id) + (if id in pip && pip[id] + time >= cars[id].crossTime then 1 else 0) == crs[c].Count(id)
    {
      CountReplaced(crs[c], North, crs[c].Queue(North), rest, id);
    }
  }

  lemma FinishUnique(cars: seq<Car>, crs: seq<CrossRoad>, c: CrossId, time: int, crs': seq<CrossRoad>)
    requires c < |crs| && KeysBelow(crs[c].passInProg, |cars|) && Unique(crs)
    requires crs' == crs[c := crs[c].WithPassInProg(Remaining(cars, crs[c].passInProg, time))]
    ensures Unique(crs')
  {
    FinishCounts(cars, crs, c, time, crs');
    ShrinkKeepsUnique(crs, crs');
  }

  lemma FinishFlags(cars: seq<Car>, crs: seq<CrossRoad>, c: CrossId, g: Graph, time: int,
                    cars': seq<Car>, crs': seq<CrossRoad>)
    requires c < |crs| && KeysBelow(crs[c].passInProg, |cars|) && CanFinish(cars, crs[c].passInProg, c, g, time)
    requires Unique(crs) && InPlay(cars, crs)
    requires cars' == Crossed(cars, crs[c].passInProg, c, g, time)
    requires crs' == crs[c := crs[c].WithPassInProg(Remaining(cars, crs[c].passInProg, time))]
    ensures Monotone(cars, cars') && RegistrySettled(cars', crs'[c]) && InPlay(cars', crs')
  {
    CrossedCars(cars, crs[c].passInProg, c, g, time);
    FinishCounts(cars, crs, c, time, crs');
    FinishInPlay(cars, crs, cars', crs', c, time);
  }

  /** Crossing completion keeps the invariant: it only removes cars from the
      registry, the cars it moves on were crossing here and nowhere else,
      and a car that stays in the registry is only marked processed. */
  lemma FinishKeeps(cars: seq<Car>, crs: seq<CrossRoad>, c: CrossId, g: Graph, time: int,
                    cars': seq<Car>, crs': seq<CrossRoad>)
    requires WellFormed(cars, crs, g) && c < |crs|
    requires FinishCrossings(cars, crs, c, g, time) == Ok((cars', crs'))
    ensures WellFormed(cars', crs', g) && Monotone(cars, cars') && RegistrySettled(cars', crs'[c])
  {
    FinishIndexed(cars, crs, c, g, time);
    var pip := crs[c].passInProg;
    FinishUnique(cars, crs, c, time, crs');
    FinishFlags(cars, crs, c, g, time, cars', crs');
  }

  // ----- the signal phases -----

  /** Steps that keep every slot count and every arrival flag keep the
      invariant. */
  lemma SameSlotsKeep(cars: seq<Car>, crs: seq<CrossRoad>, cars': seq<Car>, crs': seq<CrossRoad>)
    requires |cars'| == |cars| && |crs'| == |crs| && Unique(crs) && InPlay(cars, crs)
    requires forall c, id: CarId :: 0 <= c < |crs| ==> crs'[c].Count(id) == crs[c].Count(id)
    requires forall j :: 0 <= j < |cars| ==> cars'[j].arrived == cars[j].arrived
    ensures Unique(crs') && InPlay(cars', crs')
  {
    ShrinkKeepsUnique(crs, crs');
    forall c, id: CarId | 0 <= c < |crs'| && crs'[c].Count(id) > 0
      ensures id < |cars'| && !cars'[id].arrived
    {
      assert crs[c].Count(id) > 0;
    }
  }

  lemma GreenCars(cars: seq<Car>, crs: seq<CrossRoad>, c: CrossId, d: Dir, time: int)
    requires Indexed(cars, crs) && c < |crs|
    ensures var cars' := GreenQueue(cars, crs, c, d, time).0;
            forall j :: 0 <= j < |cars| ==>
              cars'[j].arrived == cars[j].arrived && (cars[j].updated ==> cars'[j].updated) &&
              (j in crs[c].Queue(d) ==> cars'[j].updated)
  {
  }

  /** The green phase keeps the invariant, and every car it admits to the
      registry is marked processed. */
  lemma GreenKeeps(cars: seq<Car>, crs: seq<CrossRoad>, c: CrossId, d: Dir, g: Graph, time: int,
                   cars': seq<Car>, crs': seq<CrossRoad>)
    requires WellFormed(cars, crs, g) && c < |crs|
    requires GreenQueue(cars, crs, c, d, time) == (cars', crs')
    ensures WellFormed(cars', crs', g) && Monotone(cars, cars')
    ensures forall j :: 0 <= j < |cars| ==> cars'[j].arrived == cars[j].arrived
    ensures RegistrySettled(cars, crs[c]) ==> RegistrySettled(cars', crs'[c])
  {
    PhaseIndexed(cars, crs, c, d, time, true, true);
    GreenKeepsCounts(cars, crs, c, d, time);
    GreenCars(cars, crs, c, d, time);
    SameSlotsKeep(cars, crs, cars', crs');
    var q := crs[c].Queue(d);
    assert crs'[c].passInProg == crs[c].passInProg + Admitted(q, cars, time);
  }

  lemma HoldCars(cars: seq<Car>, crs: seq<CrossRoad>, c: CrossId, d: Dir, northSouth: bool)
    requires Indexed(cars, crs) && c < |crs|
    ensures var cars' := HoldQueue(cars, crs, c, d, northSouth);
            forall j :: 0 <= j < |cars| ==>
              cars'[j].arrived == cars[j].arrived && cars'[j].updated == cars[j].updated
  {
  }

  /** One queue under its signal keeps the invariant and never unmarks a car
      or revokes an arrival. */
  lemma PhaseKeeps(cars: seq<Car>, crs: seq<CrossRoad>, c: CrossId, d: Dir, g: Graph, time: int,
                   green: bool, northSouth: bool, cars': seq<Car>, crs': seq<CrossRoad>)
    requires WellFormed(cars, crs, g) && c < |crs|
    requires Phase(cars, crs, c, d, time, green, northSouth) == (cars', crs')
    ensures WellFormed(cars', crs', g) && Monotone(cars, cars')
    ensures forall j :: 0 <= j < |cars| ==> cars'[j].arrived == cars[j].arrived
    ensures RegistrySettled(cars, crs[c]) ==> RegistrySettled(cars', crs'[c])
  {
    if green {
      GreenKeeps(cars, crs, c, d, g, time, cars', crs');
    } else {
      PhaseIndexed(cars, crs, c, d, time, green, northSouth);
      HoldCars(cars, crs, c, d, northSouth);
      SameSlotsKeep(cars, crs, cars', crs');
    }
  }

  /** The four signal phases of crossroad `c` keep the invariant and touch
      no other crossroad. */
  lemma SignalsKeep(cars: seq<Car>, crs: seq<CrossRoad>, c: CrossId, g: Graph, time: int,
                    cars': seq<Car>, crs': seq<CrossRoad>)
    requires WellFormed(cars, crs, g) && c < |crs| && RegistrySettled(cars, crs[c])
    requires Signals(cars, crs, c, time) == (cars', crs')
    ensures WellFormed(cars', crs', g) && Monotone(cars, cars') && RegistrySettled(cars', crs'[c])
    ensures forall j :: 0 <= j < |cars| ==> cars'[j].arrived == cars[j].arrived
    ensures forall c2 :: 0 <= c2 < |crs| && c2 != c ==> crs'[c2] == crs[c2]
  {
    var ns, we := crs[c].nsState, crs[c].weState;
    var (cars1, crs1) := Phase(cars, crs, c, North, time, ns, true);
    PhaseKeeps(cars, crs, c, North, g, time, ns, true, cars1, crs1);
    var (cars2, crs2) := Phase(cars1, crs1, c, South, time, ns, true);
    PhaseKeeps(cars1, crs1, c, South, g, time, ns, true, cars2, crs2);
    var (cars3, crs3) := Phase(cars2, crs2, c, West, time, we, false);
    PhaseKeeps(cars2, crs2, c, West, g, time, we, false, cars3, crs3);
    PhaseKeeps(cars3, crs3, c, East, g, time, we, false, cars', crs');
  }

  /** Marking the queued cars of crossroad `c` settles it. */
  lemma MarkSettles(cars: seq<Car>, crs: seq<CrossRoad>, c: CrossId)
    requires c < |crs| && crs[c].OccupantsBelow(|cars|) && RegistrySettled(cars, crs[c])
    ensures var cars' := MarkQueued(cars, crs[c]);
            SettledAt(cars', crs, c) && Monotone(cars, cars') &&
            forall j :: 0 <= j < |cars| ==> cars'[j].arrived == cars[j].arrived
  {
    var cars' := MarkQueued(cars, crs[c]);
    forall id: CarId | crs[c].Count(id) > 0
      ensures id < |cars'| && cars'[id].updated
    {
      CountPositive(crs[c], id);
    }
  }

  // ----- whole crossroads -----

  lemma MonotoneTrans(a: seq<Car>, b: seq<Car>, c: seq<Car>)
    requires Monotone(a, b) && Monotone(b, c)
    ensures Monotone(a, c)
  {
  }

  /** A settled crossroad stays settled while its slots stay and no car is
      unmarked. */
  lemma SettledAtKept(cars: seq<Car>, crs: seq<CrossRoad>, cars': seq<Car>, crs': seq<CrossRoad>, c: CrossId)
    requires c < |crs| == |crs'| && crs'[c] == crs[c]
    requires SettledAt(cars, crs, c) && Monotone(cars, cars')
    ensures SettledAt(cars', crs', c)
  {
  }

  /** Resolving crossroad `c` keeps the invariant, settles `c`, changes no
      other crossroad, and never unmarks a car or revokes an arrival. */
  lemma ResolveKeeps(cars: seq<Car>, crs: seq<CrossRoad>, c: CrossId, g: Graph, time: int,
                     cars': seq<Car>, crs': seq<CrossRoad>)
    requires WellFormed(cars, crs, g) && c < |crs|
    requires ResolveCrossRoad(cars, crs, c, g, time) == Ok((cars', crs'))
    ensures WellFormed(cars', crs', g) && Monotone(cars, cars') && SettledAt(cars', crs', c)
    ensures forall c2 :: 0 <= c2 < |crs| && c2 != c ==> crs'[c2] == crs[c2]
  {
    var (cars1, crs1) := FinishCrossings(cars, crs, c, g, time).value;
    FinishKeeps(cars, crs, c, g, time, cars1, crs1);
    var (cars2, crs2) := Signals(cars1, crs1, c, time);
    SignalsKeep(cars1, crs1, c, g, time, cars2, crs2);
    assert cars' == MarkQueued(cars2, crs2[c]) && crs' == crs2;
    MarkSettles(cars2, crs2, c);
  }

  /** What resolving crossroads guarantees: the invariant still holds, no
      car was unmarked or un-arrived, and every crossroad is settled. */
  ghost predicate ResolvedWell(cars: seq<Car>, cars': seq<Car>, crs': seq<CrossRoad>, g: Graph)
  {
    WellFormed(cars', crs', g) && Monotone(cars, cars') &&
    forall c2 :: 0 <= c2 < |crs'| ==> SettledAt(cars', crs', c2)
  }

  /** Resolving crossroads `c`, `c + 1`, ... keeps the invariant and
      leaves every crossroad settled. */
  lemma {:induction false} ResolveFromKeeps(cars: seq<Car>, crs: seq<CrossRoad>, g: Graph, time: int, c: nat)
    requires WellFormed(cars, crs, g) && c <= |crs|
    requires forall c2 :: 0 <= c2 < c ==> SettledAt(cars, crs, c2)
    ensures var r := ResolveFrom(cars, crs, g, time, c);
            r.Ok? ==> ResolvedWell(cars, r.value.0, r.value.1, g)
    decreases |crs| - c, 1
  {
    if c == |crs| {
      ResolveFromDone(cars, crs, g, time, c);
    } else {
      ResolveFromStep(cars, crs, g, time, c);
    }
  }

  lemma ResolveFromDone(cars: seq<Car>, crs: seq<CrossRoad>, g: Graph, time: int, c: nat)
    requires WellFormed(cars, crs, g) && c == |crs|
    requires forall c2 :: 0 <= c2 < c ==> SettledAt(cars, crs, c2)
    ensures var r := ResolveFrom(cars, crs, g, time, c);
            r.Ok? ==> ResolvedWell(cars, r.value.0, r.value.1, g)
  {
    assert ResolveFrom(cars, crs, g, time, c) == Ok((cars, crs));
  }

  lemma {:induction false} ResolveFromStep(cars: seq<Car>, crs: seq<CrossRoad>, g: Graph, time: int, c: nat)
    requires WellFormed(cars, crs, g) && c < |crs|
    requires forall c2 :: 0 <= c2 < c ==> SettledAt(cars, crs, c2)
    ensures var r := ResolveFrom(cars, crs, g, time, c);
            r.Ok? ==> ResolvedWell(cars, r.value.0, r.value.1, g)
    decreases |crs| - c, 0
  {
    var r := ResolveCrossRoad(cars, crs, c, g, time);
    if r.Ok? {
      var (cars1, crs1) := r.value;
      ResolveNextKeeps(cars, cars, crs, g, time, c, cars1, crs1);
      ResolveFromKeeps(cars1, crs1, g, time, c + 1);
      var r' := ResolveFrom(cars1, crs1, g, time, c + 1);
      assert ResolveFrom(cars, crs, g, time, c) == r';
      if r'.Ok? {
        MonotoneTrans(cars, cars1, r'.value.0);
      }
    }
  }

  lemma ResolveNextKeeps(cars: seq<Car>, cars1: seq<Car>, crs1: seq<CrossRoad>, g: Graph, time: int, c: CrossId,
                         cars': seq<Car>, crs': seq<CrossRoad>)
    requires WellFormed(cars1, crs1, g) && c < |crs1| && Monotone(cars, cars1)
    requires forall c2 :: 0 <= c2 < c ==> SettledAt(cars1, crs1, c2)
    requires ResolveCrossRoad(cars1, crs1, c, g, time) == Ok((cars', crs'))
    ensures WellFormed(cars', crs', g) && Monotone(cars, cars')
    ensures forall c2 :: 0 <= c2 <= c ==> SettledAt(cars', crs', c2)
  {
    ResolveKeeps(cars1, crs1, c, g, time, cars', crs');
    MonotoneTrans(cars, cars1, cars');
    forall c2 | 0 <= c2 < c
      ensures SettledAt(cars', crs', c2)
    {
      SettledAtKept(cars1, crs1, cars', crs', c2);
    }
  }

  // ----- the car step -----

  /** The car step only drives cars; it never moves them between crossroads
      or changes their arrival. */
  lemma StepCarsCars(cars: seq<Car>, crs: seq<CrossRoad>, time: int)
    requires Indexed(cars, crs)
    ensures var cars' := StepCars(cars, crs, time).0;
            |cars'| == |cars| &&
            forall j :: 0 <= j < |cars| ==> cars'[j].dest == cars[j].dest && cars'[j].arrived == cars[j].arrived
  {
  }

  lemma StepCarsIndexed(cars: seq<Car>, crs: seq<CrossRoad>, time: int)
    requires Indexed(cars, crs)
    ensures Indexed(StepCars(cars, crs, time).0, StepCars(cars, crs, time).1)
  {
    EnqueuedIndexed(cars, crs, time, |cars|);
    StepCarsCars(cars, crs, time);
  }

  /** A car that joins a queue in the car step had no slot before: only
      unprocessed cars drive, and between ticks every car with a slot is
      processed. */
  lemma StepCarsCount(cars: seq<Car>, crs: seq<CrossRoad>, time: int, c: CrossId, id: CarId)
    requires Indexed(cars, crs) && Settled(cars, crs) && c < |crs|
    ensures var crs' := StepCars(cars, crs, time).1;
            var joined := id < |cars| && Joined(cars, crs, time, id);
            crs'[c].Count(id) == crs[c].Count(id) + (if joined && cars[id].dest.cross == c then 1 else 0) &&
            (joined ==> forall c2 :: 0 <= c2 < |crs| ==> crs[c2].Count(id) == 0)
  {
    EnqueuedCount(cars, crs, time, |cars|, c, id);
    if id < |cars| && Joined(cars, crs, time, id) {
      assert !cars[id].updated;
    }
  }

  lemma StepCarsUnique(cars: seq<Car>, crs: seq<CrossRoad>, time: int)
    requires Indexed(cars, crs) && Settled(cars, crs) && Unique(crs)
    ensures Unique(StepCars(cars, crs, time).1)
  {
    var crs' := StepCars(cars, crs, time).1;
    forall c, id: CarId | 0 <= c < |crs'|
      ensures crs'[c].Count(id) <= 1
    {
      StepCarsCount(cars, crs, time, c, id);
    }
    forall c1, c2, id: CarId | 0 <= c1 < |crs'| && 0 <= c2 < |crs'| && c1 != c2 && crs'[c1].Count(id) > 0
      ensures crs'[c2].Count(id) == 0
    {
      StepCarsCount(cars, crs, time, c1, id);
      StepCarsCount(cars, crs, time, c2, id);
    }
  }

  lemma StepCarsInPlay(cars: seq<Car>, crs: seq<CrossRoad>, time: int)
    requires Indexed(cars, crs) && Settled(cars, crs) && InPlay(cars, crs)
    ensures InPlay(StepCars(cars, crs, time).0, StepCars(cars, crs, time).1)
  {
    var cars' := StepCars(cars, crs, time).0;
    var crs' := StepCars(cars, crs, time).1;
    StepCarsCars(cars, crs, time);
    forall c: int, id: CarId {:trigger crs'[c].Count(id)} | 0 <= c < |crs'| && crs'[c].Count(id) > 0
      ensures id < |cars'| && !cars'[id].arrived
    {
      StepCarsCount(cars, crs, time, c, id);
      if crs[c].Count(id) == 0 {
        assert id < |cars| && Joined(cars, crs, time, id);
        assert !cars[id].arrived;
      } else {
        assert id < |cars| && !cars[id].arrived;
      }
    }
    assert InPlay(cars', crs');
  }

  /** Between ticks the car step keeps the invariant: a car that joins a
      queue takes its only slot, and it has not arrived. */
  lemma StepCarsKeeps(cars: seq<Car>, crs: seq<CrossRoad>, g: Graph, time: int)
    requires Valid(cars, crs, g)
    ensures WellFormed(StepCars(cars, crs, time).0, StepCars(cars, crs, time).1, g)
  {
    StepCarsIndexed(cars, crs, time);
    StepCarsUnique(cars, crs, time);
    StepCarsInPlay(cars, crs, time);
  }

  // ----- the initial state -----

  /** A world built as the simulator builds one (fresh crossroads, each
      with the flags given for it, and cars bound for existing crossroads
      over edges into existing crossroads) satisfies the invariant, so its
      first tick may run. */
  lemma InitialValid(cars: seq<Car>, sigs: seq<Signal>, g: Graph)
    requires DestsBelow(cars, |sigs|) && EdgesInto(g, |sigs|)
    ensures Valid(cars, seq(|sigs|, c requires 0 <= c < |sigs| => NewCrossRoad(sigs[c].ns, sigs[c].we)), g)
  {
    var crs := seq(|sigs|, c requires 0 <= c < |sigs| => NewCrossRoad(sigs[c].ns, sigs[c].we));
    forall c | 0 <= c < |crs|
      ensures (forall id :: crs[c].Count(id) == 0) && crs[c].OccupantsBelow(|cars|)
    {
      assert crs[c] == NewCrossRoad(sigs[c].ns, sigs[c].we);
    }
  }
}
