/** Records of the traffic engine: cars, crossroads and the road graph.

    Cars and crossroads are identified by their index in the world's
    sequences, and a car's `dest` names a queue by crossroad and compass
    side instead of holding the list itself. */
module Model {

  type CarId = nat
  type CrossId = nat

  datatype Option<T> = None | Some(value: T)

  datatype Result<T, E> = Ok(value: T) | Err(error: E)

  /** The four approach queues of a crossroad, in the order of `CrossRoad.all`. */
  datatype Dir = North | South | West | East

  /** One approach queue: the crossroad it belongs to and its side. */
  datatype QueueRef = QueueRef(cross: CrossId, dir: Dir)

  /** The time a car needs to pass through a crossroad once admitted. */
  const DefaultCrossTime: int := 2

  datatype Car = Car(
    waitTime: int,
    dest: QueueRef,
    previousCross: Option<CrossId>,
    distToCross: int,
    actions: seq<CrossId>,
    crossTime: int,
    updated: bool,
    arrived: bool)

  datatype CrossRoad = CrossRoad(
    north: seq<CarId>,
    south: seq<CarId>,
    west: seq<CarId>,
    east: seq<CarId>,
    passInProg: map<CarId, int>,
    nsState: bool,
    weState: bool)
  {
    function Queue(d: Dir): seq<CarId>
    {
      match d
      case North => north
      case South => south
      case West => west
      case East => east
    }

    /** This crossroad with the queue on side `d` replaced by `q`. */
    function WithQueue(d: Dir, q: seq<CarId>): (r: CrossRoad)
      ensures r.Queue(d) == q
      ensures forall e :: e != d ==> r.Queue(e) == Queue(e)
      ensures r.passInProg == passInProg && r.nsState == nsState && r.weState == weState
    {
      match d
      case North => this.(north := q)
      case South => this.(south := q)
      case West => this.(west := q)
      case East => this.(east := q)
    }

    /** This crossroad with its crossing registry replaced by `m`. */
    function WithPassInProg(m: map<CarId, int>): (r: CrossRoad)
      ensures forall d :: r.Queue(d) == Queue(d)
      ensures r.passInProg == m && r.nsState == nsState && r.weState == weState
    {
      this.(passInProg := m)
    }

    /** Replacing a queue and replacing the registry commute. */
    lemma WithCommute(d: Dir, q: seq<CarId>, m: map<CarId, int>)
      ensures WithPassInProg(m).WithQueue(d, q) == WithQueue(d, q).WithPassInProg(m)
    {
    }

    /** Whether car `id` waits in one of the four queues. */
    predicate Queued(id: CarId)
    {
      id in Queue(North) || id in Queue(South) || id in Queue(West) || id in Queue(East)
    }

    /** How many slots of this crossroad car `id` takes: its occurrences in
        the four queues plus one if it is crossing. */
    function Count(id: CarId): nat
    {
      Occ(Queue(North), id) + Occ(Queue(South), id) + Occ(Queue(West), id) + Occ(Queue(East), id)
        + (if id in passInProg then 1 else 0)
    }

    /** Every car this crossroad refers to is one of the first `n` cars. */
    predicate OccupantsBelow(n: nat)
    {
      (forall d, id :: id in Queue(d) ==> id < n) &&
      (forall id :: id in passInProg ==> id < n)
    }
  }

  /** How many times car `id` occurs in queue `q`. */
  function Occ(q: seq<CarId>, id: CarId): nat
  {
    if q == [] then 0 else Occ(q[..|q| - 1], id) + (if q[|q| - 1] == id then 1 else 0)
  }

  lemma OccMultiset(q: seq<CarId>, id: CarId)
    ensures Occ(q, id) == multiset(q)[id]
  {
    if q != [] {
      OccMultiset(q[..|q| - 1], id);
      assert q == q[..|q| - 1] + [q[|q| - 1]];
    }
  }

  /** A car has a slot at a crossroad exactly when it waits in one of its
      queues or is crossing it. */
  lemma CountPositive(cr: CrossRoad, id: CarId)
    ensures cr.Count(id) > 0 <==> cr.Queued(id) || id in cr.passInProg
  {
    OccMultiset(cr.Queue(North), id);
    OccMultiset(cr.Queue(South), id);
    OccMultiset(cr.Queue(West), id);
    OccMultiset(cr.Queue(East), id);
  }

  /** A directed road: its length and the queue of the target crossroad it feeds. */
  datatype Edge = Edge(length: int, dest: QueueRef)

  /** The road network: the edge from one crossroad to another, when there is one. */
  type Graph = map<(CrossId, CrossId), Edge>

  /** What makes a tick abort: `actions.pop(0)` on an empty path, or a
      next hop with no edge in the graph. */
  datatype Failure = EmptyPath(car: CarId) | MissingEdge(from: CrossId, to: CrossId)

  /** The signal flags the policy chooses for one crossroad. */
  datatype Signal = Signal(ns: bool, we: bool)

  /** The state `Car.__init__` creates. */
  function NewCar(initDist: int, initDest: QueueRef, actions: seq<CrossId>): (car: Car)
    ensures car.distToCross == initDist && car.dest == initDest && car.actions == actions
    ensures car.waitTime == 0 && car.previousCross == None && car.crossTime == DefaultCrossTime
    ensures !car.updated && !car.arrived
  {
    Car(0, initDest, None, initDist, actions, DefaultCrossTime, false, false)
  }

  /** The state `CrossRoad.__init__` creates. */
  function NewCrossRoad(nsState: bool, weState: bool): (cr: CrossRoad)
    ensures forall id :: cr.Count(id) == 0
    ensures cr.nsState == nsState && cr.weState == weState
  {
    CrossRoad([], [], [], [], map[], nsState, weState)
  }

  /** Every reference in the state resolves: car destinations name an
      existing crossroad, and every car id held by a crossroad names an
      existing car. (In the source these are object references, which
      cannot dangle.) */
  predicate Indexed(cars: seq<Car>, crs: seq<CrossRoad>)
  {
    DestsBelow(cars, |crs|) &&
    (forall c :: 0 <= c < |crs| ==> crs[c].OccupantsBelow(|cars|))
  }

  /** Every car is bound for a queue of one of the first `n` crossroads. */
  predicate DestsBelow(cars: seq<Car>, n: nat)
  {
    forall j :: 0 <= j < |cars| ==> cars[j].dest.cross < n
  }

  /** Every edge feeds a queue of one of the first `n` crossroads. */
  predicate EdgesInto(g: Graph, n: nat)
  {
    forall k :: k in g ==> g[k].dest.cross < n
  }

  /** The queue `r` names; a crossroad that does not exist has none. */
  function QueueAt(crs: seq<CrossRoad>, r: QueueRef): seq<CarId>
  {
    if r.cross < |crs| then crs[r.cross].Queue(r.dir) else []
  }

  /** The crossroads with queue `r` replaced by `q`. */
  function SetQueue(crs: seq<CrossRoad>, r: QueueRef, q: seq<CarId>): (crs': seq<CrossRoad>)
    ensures |crs'| == |crs|
    ensures r.cross < |crs| ==> crs'[r.cross] == crs[r.cross].WithQueue(r.dir, q)
    ensures forall c :: 0 <= c < |crs| && c != r.cross ==> crs'[c] == crs[c]
  {
    if r.cross < |crs| then crs[r.cross := crs[r.cross].WithQueue(r.dir, q)] else crs
  }
}
