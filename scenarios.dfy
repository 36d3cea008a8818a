/** Small worlds that show where the simulator's behaviour departs from
    what its comments suggest. */
module Scenarios {
  import opened Model
  import opened CarsStep
  import opened CrossStep

  /** Two cars waiting on the west side of crossroad 0: car 1, appended
      last, has passed the stop line by 3; car 0 is 1 short of it. */
  function TwoWaiting(d: Dir): (seq<Car>, seq<CrossRoad>)
  {
    ([NewCar(1, QueueRef(0, d), [0]), NewCar(-3, QueueRef(0, d), [0])],
     [NewCrossRoad(false, false).WithQueue(d, [0, 1])])
  }

  /** Under a red west/east signal car 1 is put back on the line, but car 0
      is pushed 3 towards it and ends past the line, at distance -2; the
      same queue on the north side moves car 0 back to distance 4. */
  lemma RedShiftPassesLine()
    ensures var (cars, crs) := TwoWaiting(West);
            Indexed(cars, crs) &&
            HoldQueue(cars, crs, 0, West, false)[1].distToCross == 0 &&
            HoldQueue(cars, crs, 0, West, false)[0].distToCross == -2
    ensures var (cars, crs) := TwoWaiting(North);
            Indexed(cars, crs) &&
            HoldQueue(cars, crs, 0, North, true)[1].distToCross == 0 &&
            HoldQueue(cars, crs, 0, North, true)[0].distToCross == 4
  {
    var (cars, crs) := TwoWaiting(West);
    assert crs[0].Queue(West) == [0, 1];
    assert crs[0].OccupantsBelow(|cars|);
    var (cars2, crs2) := TwoWaiting(North);
    assert crs2[0].Queue(North) == [0, 1];
    assert crs2[0].OccupantsBelow(|cars2|);
  }

  /** A tick of length 0 still moves state: a car already within the
      length of its (empty) destination queue joins it. */
  lemma ZeroTickJoins()
    ensures var cars := [NewCar(0, QueueRef(0, North), [0])];
            var crs := [NewCrossRoad(true, true)];
            StepCars(cars, crs, 0).1[0].Queue(North) == [0] &&
            StepCars(cars, crs, 0) != (cars, crs)
  {
    var cars := [NewCar(0, QueueRef(0, North), [0])];
    var crs := [NewCrossRoad(true, true)];
    assert Enqueued(cars, crs, 0, 1) == Turn(cars, crs, 0, 0);
  }
}
