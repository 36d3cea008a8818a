/** `World.update_cars` as functions: every car not yet processed this tick
    drives on, and a car that reaches the tail of its destination queue
    joins it. */
module CarsStep {
  import opened Model
  import opened Queues

  /** The fields of one car after `update_cars` has visited it. */
  function Advanced(car: Car, time: int): Car
  {
    if car.arrived then car
    else car.(distToCross := if car.updated then car.distToCross else car.distToCross - time,
              updated := false,
              waitTime := car.waitTime + time)
  }

  /** Whether car `id`, about to drive on, is appended to queue `q` (its
      destination as it stands when the car's turn comes). */
  predicate Joins(car: Car, id: CarId, q: seq<CarId>, time: int)
  {
    !car.arrived && !car.updated && car.distToCross - time <= |q| && id !in q
  }

  /** The crossroads after car `j`'s turn: it is appended to its
      destination queue when it joins it. */
  function Turn(cars: seq<Car>, crs: seq<CrossRoad>, time: int, j: nat): (r: seq<CrossRoad>)
    requires j < |cars|
    ensures |r| == |crs|
  {
    var car := cars[j];
    var q := QueueAt(crs, car.dest);
    if Joins(car, j, q, time) then SetQueue(crs, car.dest, q + [j]) else crs
  }

  /** The crossroads after the first `n` cars have had their turn; only the
      queues change. */
  function Enqueued(cars: seq<Car>, crs: seq<CrossRoad>, time: int, n: nat): (r: seq<CrossRoad>)
    requires n <= |cars|
    ensures |r| == |crs|
    decreases n
  {
    if n == 0 then crs
    else Turn(cars, Enqueued(cars, crs, time, n - 1), time, n - 1)
  }

  /** The car step touches only queues: registries and signal flags stay. */
  lemma {:induction false} EnqueuedRest(cars: seq<Car>, crs: seq<CrossRoad>, time: int, n: nat, c: CrossId)
    requires n <= |cars| && c < |crs|
    ensures var r := Enqueued(cars, crs, time, n);
            r[c].passInProg == crs[c].passInProg && r[c].nsState == crs[c].nsState && r[c].weState == crs[c].weState
    decreases n
  {
    if n > 0 {
      EnqueuedRest(cars, crs, time, n - 1, c);
    }
  }

  /** Whether car `id` joined its destination queue on its turn. */
  predicate Joined(cars: seq<Car>, crs: seq<CrossRoad>, time: int, id: CarId)
    requires id < |cars|
  {
    Joins(cars[id], id, QueueAt(Enqueued(cars, crs, time, id), cars[id].dest), time)
  }

  /** The cars and crossroads after `update_cars`. */
  function StepCars(cars: seq<Car>, crs: seq<CrossRoad>, time: int): (seq<Car>, seq<CrossRoad>)
  {
    (seq(|cars|, j requires 0 <= j < |cars| => Advanced(cars[j], time)),
     Enqueued(cars, crs, time, |cars|))
  }

  /** The value `update_cars` returns: it is computed before any car moves. */
  predicate AllArrived(cars: seq<Car>)
  {
    forall j :: 0 <= j < |cars| ==> cars[j].arrived
  }

  /** Car `j`'s turn appends it to queue `r` when that is the (existing)
      queue it is bound for and it joins, and leaves every queue alone
      otherwise. */
  lemma TurnQueue(cars: seq<Car>, crs: seq<CrossRoad>, time: int, j: nat, r: QueueRef)
    requires j < |cars|
    ensures QueueAt(Turn(cars, crs, time, j), r) ==
            if cars[j].dest == r && r.cross < |crs| && Joins(cars[j], j, QueueAt(crs, r), time)
            then QueueAt(crs, r) + [j]
            else QueueAt(crs, r)
  {
  }

  /** Queue `q'` is queue `q` with cars appended behind it, each one of the
      first `n` cars, bound for `r`, neither arrived nor processed, and,
      after driving `time`, no farther away than the length the queue had
      when it joined. */
  predicate GrownBy(q: seq<CarId>, q': seq<CarId>, cars: seq<Car>, n: nat, r: QueueRef, time: int)
  {
    q <= q' &&
    forall k :: |q| <= k < |q'| ==>
      q'[k] < n && q'[k] < |cars| &&
      cars[q'[k]].dest == r && !cars[q'[k]].arrived && !cars[q'[k]].updated &&
      cars[q'[k]].distToCross - time <= k
  }

  lemma GrownByStep(q: seq<CarId>, prev: seq<CarId>, now: seq<CarId>, cars: seq<Car>, n: nat, r: QueueRef, time: int)
    requires 0 < n <= |cars| && GrownBy(q, prev, cars, n - 1, r, time)
    requires now == prev || (now == prev + [n - 1] && cars[n - 1].dest == r && Joins(cars[n - 1], n - 1, prev, time))
    ensures GrownBy(q, now, cars, n, r, time)
  {
    assert prev <= now;
  }

  /** Each queue only grows at its end, and only by cars that passed the
      guard of their turn. */
  lemma {:induction false} EnqueuedAppendsOnly(cars: seq<Car>, crs: seq<CrossRoad>, time: int, n: nat, r: QueueRef)
    requires n <= |cars|
    ensures GrownBy(QueueAt(crs, r), QueueAt(Enqueued(cars, crs, time, n), r), cars, n, r, time)
    decreases n
  {
    if n > 0 {
      EnqueuedAppendsOnly(cars, crs, time, n - 1, r);
      TurnQueue(cars, Enqueued(cars, crs, time, n - 1), time, n - 1, r);
      GrownByStep(QueueAt(crs, r), QueueAt(Enqueued(cars, crs, time, n - 1), r),
                  QueueAt(Enqueued(cars, crs, time, n), r), cars, n, r, time);
    }
  }

  /** One car's turn appends only existing cars, so every reference still
      resolves. */
  lemma TurnIndexed(cars: seq<Car>, crs: seq<CrossRoad>, time: int, j: nat)
    requires j < |cars| && Indexed(cars, crs)
    ensures Indexed(cars, Turn(cars, crs, time, j))
  {
    var now := Turn(cars, crs, time, j);
    forall c | 0 <= c < |now|
      ensures now[c].OccupantsBelow(|cars|)
    {
      assert crs[c].OccupantsBelow(|cars|);
      forall d
        ensures forall id :: id in now[c].Queue(d) ==> id < |cars|
      {
        TurnQueue(cars, crs, time, j, QueueRef(c, d));
      }
    }
  }

  lemma {:induction false} EnqueuedIndexed(cars: seq<Car>, crs: seq<CrossRoad>, time: int, n: nat)
    requires n <= |cars| && Indexed(cars, crs)
    ensures Indexed(cars, Enqueued(cars, crs, time, n))
    decreases n
  {
    if n > 0 {
      EnqueuedIndexed(cars, crs, time, n - 1);
      TurnIndexed(cars, Enqueued(cars, crs, time, n - 1), time, n - 1);
    }
  }

  lemma NoDupAppend(q: seq<CarId>, x: CarId)
    requires NoDup(q) && x !in q
    ensures NoDup(q + [x])
  {
  }

  /** The membership guard keeps every queue free of duplicates. */
  lemma {:induction false} EnqueuedKeepsNoDup(cars: seq<Car>, crs: seq<CrossRoad>, time: int, n: nat, r: QueueRef)
    requires n <= |cars| && NoDup(QueueAt(crs, r))
    ensures NoDup(QueueAt(Enqueued(cars, crs, time, n), r))
    decreases n
  {
    if n > 0 {
      EnqueuedKeepsNoDup(cars, crs, time, n - 1, r);
      var prev := QueueAt(Enqueued(cars, crs, time, n - 1), r);
      TurnQueue(cars, Enqueued(cars, crs, time, n - 1), time, n - 1, r);
      if n - 1 !in prev {
        NoDupAppend(prev, n - 1);
      }
    }
  }

  /** After the first `n` turns, car `id` occurs in queue `r` once more
      than before exactly when it is one of those `n` cars, is bound for
      `r` and joined it on its turn. */
  lemma {:induction false} EnqueuedOcc(cars: seq<Car>, crs: seq<CrossRoad>, time: int, n: nat, r: QueueRef, id: CarId)
    requires n <= |cars|
    ensures Occ(QueueAt(Enqueued(cars, crs, time, n), r), id) ==
            Occ(QueueAt(crs, r), id) +
            (if id < n && cars[id].dest == r && r.cross < |crs| && Joined(cars, crs, time, id) then 1 else 0)
    decreases n
  {
    if n > 0 {
      EnqueuedOcc(cars, crs, time, n - 1, r, id);
      var prev := Enqueued(cars, crs, time, n - 1);
      TurnQueue(cars, prev, time, n - 1, r);
      OccAppend(QueueAt(prev, r), n - 1, id);
    }
  }

  lemma OccAppend(q: seq<CarId>, x: CarId, id: CarId)
    ensures Occ(q + [x], id) == Occ(q, id) + (if x == id then 1 else 0)
  {
    assert (q + [x])[..|q|] == q;
  }

  /** The car step gives car `id` one more slot at crossroad `c` exactly
      when it joined a queue of `c` on its turn, and changes no other slot. */
  lemma EnqueuedCount(cars: seq<Car>, crs: seq<CrossRoad>, time: int, n: nat, c: CrossId, id: CarId)
    requires n <= |cars| && c < |crs|
    ensures Enqueued(cars, crs, time, n)[c].Count(id) ==
            crs[c].Count(id) +
            (if id < n && cars[id].dest.cross == c && Joined(cars, crs, time, id) then 1 else 0)
  {
    var e := Enqueued(cars, crs, time, n);
    var joined := id < n && Joined(cars, crs, time, id);
    EnqueuedRest(cars, crs, time, n, c);
    forall d
      ensures Occ(e[c].Queue(d), id) ==
              Occ(crs[c].Queue(d), id) + (if joined && cars[id].dest == QueueRef(c, d) then 1 else 0)
    {
      EnqueuedOcc(cars, crs, time, n, QueueRef(c, d), id);
    }
    if joined && cars[id].dest.cross == c {
      assert cars[id].dest == QueueRef(c, cars[id].dest.dir);
    }
  }
}
