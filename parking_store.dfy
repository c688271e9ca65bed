/**
 * The backend's `ParkingStore`: the same park and exit rules as the browser
 * fallback, plus a `cars` dictionary from car number to `{r, c, entry_time}`
 * and an hourly fee.
 *
 * Clock readings are passed in as whole seconds (`now`), so the fee rule is
 * integer arithmetic. As before, the rules are stated on values first
 * (Init, Park, Exit, ComputeFee), then the class is proved to run them.
 */
module BackendStore {
  import opened Wrappers
  import opened Slots

  /** `cars[carNumber]`: where the car stands and when it came in. */
  datatype CarRecord = CarRecord(r: int, c: int, entryTime: int)

  /** The `payment` part of a successful exit. */
  datatype Payment = Payment(amount: int, hours: int, entry: int, exit: int)

  /** The dictionary `exit_by_number` returns; `payment` is present only on success. */
  datatype ExitReply = ExitReply(ok: bool, message: string, payment: Option<Payment>)

  /** The store's whole state as a value. */
  datatype Backend = Backend(rows: nat, cols: nat, grid: Grid, cars: map<string, CarRecord>)

  const InvalidPosition: string := "Invalid position"
  const SpotOccupied: string := "Spot already occupied"
  const CarNotFound: string := "Car not found"
  const RatePerHour: int := 2000
  const SecondsPerHour: int := 3600

  function ParkedMessage(r: nat, c: nat): (m: string)
  {
    "Parked at " + Label(r, c)
  }

  function ExitedMessage(r: nat, c: nat): (m: string)
  {
    "Exited " + Label(r, c)
  }

  /**
   * The invariant the store keeps: every recorded car points at an in-bounds
   * slot that is occupied by that same car number. The converse is not kept:
   * re-parking a number leaves its earlier slot occupied with no entry
   * (see ReparkLeavesOrphanSlot).
   */
  ghost predicate Indexed(s: Backend)
  {
    Shaped(s.grid, s.rows, s.cols) &&
    forall n :: n in s.cars ==>
      InBounds(s.rows, s.cols, s.cars[n].r, s.cars[n].c) &&
      !s.grid[s.cars[n].r][s.cars[n].c].available &&
      s.grid[s.cars[n].r][s.cars[n].c].carNumber == Some(n)
  }

  /** `__init__`: a rows x cols grid of free slots and no cars. */
  function Init(rows: nat, cols: nat): (s: Backend)
    ensures Indexed(s) && s.rows == rows && s.cols == cols && s.cars == map[]
    ensures forall i, j :: InBounds(rows, cols, i, j) ==> s.grid[i][j] == Free
  {
    Backend(rows, cols, Empty(rows, cols), map[])
  }

  /** `park_at`: bounds first, then occupancy, then the slot and the `cars` entry. */
  function Park(s: Backend, r: int, c: int, n: string, now: int): (res: ((bool, string), Backend))
    requires Shaped(s.grid, s.rows, s.cols)
    ensures res.1.rows == s.rows && res.1.cols == s.cols
    ensures !InBounds(s.rows, s.cols, r, c) ==> res == ((false, InvalidPosition), s)
    ensures InBounds(s.rows, s.cols, r, c) && !s.grid[r][c].available ==> res == ((false, SpotOccupied), s)
    ensures res.0.0 <==> InBounds(s.rows, s.cols, r, c) && s.grid[r][c].available
    ensures res.0.0 ==> res.0.1 == ParkedMessage(r, c)
    ensures res.0.0 ==> res.1.grid == Put(s.grid, s.rows, s.cols, r, c, Cell(false, Some(n)))
    ensures res.0.0 ==> res.1.cars == s.cars[n := CarRecord(r, c, now)]
  {
    if !(0 <= r < s.rows && 0 <= c < s.cols) then
      ((false, InvalidPosition), s)
    else if !s.grid[r][c].available then
      ((false, SpotOccupied), s)
    else
      var grid := Put(s.grid, s.rows, s.cols, r, c, Cell(false, Some(n)));
      ((true, ParkedMessage(r, c)), s.(grid := grid, cars := s.cars[n := CarRecord(r, c, now)]))
  }

  /**
   * `compute_fee` on whole seconds: (fee, hours) with hours the stay rounded
   * up to whole hours, and at least one hour.
   */
  function ComputeFee(entry: int, exit: int): (f: (int, int))
    ensures f.1 >= 1
    ensures exit - entry <= 0 ==> f.1 == 1
    ensures exit - entry > 0 ==> (f.1 - 1) * SecondsPerHour < exit - entry <= f.1 * SecondsPerHour
    ensures f.0 == RatePerHour * f.1
  {
    var seconds := exit - entry;
    var hours := if seconds > 0 then (seconds + SecondsPerHour - 1) / SecondsPerHour else 1;
    (hours * RatePerHour, hours)
  }

  /** A longer stay never costs less. */
  lemma FeeMonotone(entry: int, exit1: int, exit2: int)
    requires exit1 <= exit2
    ensures ComputeFee(entry, exit1).0 <= ComputeFee(entry, exit2).0
  {
  }

  /** `exit_by_number`: free the slot recorded for `n` and drop its entry. */
  function Exit(s: Backend, n: string, now: int): (res: (ExitReply, Backend))
    requires Indexed(s)
    ensures res.1.rows == s.rows && res.1.cols == s.cols
    ensures res.0.ok <==> n in s.cars
    ensures !res.0.ok ==> res == (ExitReply(false, CarNotFound, None), s)
    ensures res.0.ok ==> (
      var car := s.cars[n];
      var fee := ComputeFee(car.entryTime, now);
      res.0 == ExitReply(true, ExitedMessage(car.r, car.c), Some(Payment(fee.0, fee.1, car.entryTime, now))) &&
      res.1.grid == Put(s.grid, s.rows, s.cols, car.r, car.c, Free) &&
      res.1.cars == s.cars - {n})
  {
    if n !in s.cars then
      (ExitReply(false, CarNotFound, None), s)
    else
      var car := s.cars[n];
      var fee := ComputeFee(car.entryTime, now);
      var grid := Put(s.grid, s.rows, s.cols, car.r, car.c, Free);
      (ExitReply(true, ExitedMessage(car.r, car.c), Some(Payment(fee.0, fee.1, car.entryTime, now))),
       s.(grid := grid, cars := s.cars - {n}))
  }

  /** Parking keeps every recorded car pointing at its own occupied slot. */
  lemma ParkKeepsIndexed(s: Backend, r: int, c: int, n: string, now: int)
    requires Indexed(s)
    ensures Indexed(Park(s, r, c, n, now).1)
  {
    var t := Park(s, r, c, n, now).1;
    if Park(s, r, c, n, now).0.0 {
      forall m | m in t.cars
        ensures InBounds(t.rows, t.cols, t.cars[m].r, t.cars[m].c)
        ensures !t.grid[t.cars[m].r][t.cars[m].c].available && t.grid[t.cars[m].r][t.cars[m].c].carNumber == Some(m)
      {
        if m != n {
          // m's slot was occupied, so it is not the free slot just taken.
          assert !s.grid[s.cars[m].r][s.cars[m].c].available;
        }
      }
    }
  }

  /** Exiting keeps every remaining car pointing at its own occupied slot. */
  lemma ExitKeepsIndexed(s: Backend, n: string, now: int)
    requires Indexed(s)
    ensures Indexed(Exit(s, n, now).1)
  {
    var t := Exit(s, n, now).1;
    if n in s.cars {
      forall m | m in t.cars
        ensures InBounds(t.rows, t.cols, t.cars[m].r, t.cars[m].c)
        ensures !t.grid[t.cars[m].r][t.cars[m].c].available && t.grid[t.cars[m].r][t.cars[m].c].carNumber == Some(m)
      {
        // m's slot holds m and n's slot holds n, so they are different slots.
        assert s.grid[s.cars[m].r][s.cars[m].c].carNumber == Some(m);
        assert s.grid[s.cars[n].r][s.cars[n].c].carNumber == Some(n);
      }
    }
  }

  datatype Call = ParkCall(r: int, c: int, carNumber: string, now: int) | ExitCall(carNumber: string, now: int)

  function Step(s: Backend, call: Call): (t: Backend)
    requires Indexed(s)
    ensures Indexed(t)
  {
    match call
    case ParkCall(r, c, n, now) => ParkKeepsIndexed(s, r, c, n, now); Park(s, r, c, n, now).1
    case ExitCall(n, now) => ExitKeepsIndexed(s, n, now); Exit(s, n, now).1
  }

  /** The invariant survives any sequence of park and exit calls. */
  function Steps(s: Backend, calls: seq<Call>): (t: Backend)
    requires Indexed(s)
    ensures Indexed(t)
    decreases |calls|
  {
    if calls == [] then s else Steps(Step(s, calls[0]), calls[1..])
  }

  /**
   * Parking a number and exiting it later frees exactly that slot, bills
   * the stay from `now` to `later`, and drops the number from `cars`.
   */
  lemma ParkThenExit(s: Backend, r: int, c: int, n: string, now: int, later: int)
    requires Indexed(s) && InBounds(s.rows, s.cols, r, c) && s.grid[r][c].available
    ensures Park(s, r, c, n, now).0 == (true, ParkedMessage(r, c))
    ensures
      var t := Park(s, r, c, n, now).1;
      var fee := ComputeFee(now, later);
      Exit(t, n, later).0 == ExitReply(true, ExitedMessage(r, c), Some(Payment(fee.0, fee.1, now, later))) &&
      Exit(t, n, later).1.grid == Put(s.grid, s.rows, s.cols, r, c, Free) &&
      Exit(t, n, later).1.cars == s.cars - {n}
    ensures s.grid[r][c] == Free && n !in s.cars ==> Exit(Park(s, r, c, n, now).1, n, later).1 == s
  {
    var t := Park(s, r, c, n, now).1;
    ParkKeepsIndexed(s, r, c, n, now);
    var u := Exit(t, n, later).1;
    GridExt(u.grid, Put(s.grid, s.rows, s.cols, r, c, Free), s.rows, s.cols);
    if s.grid[r][c] == Free && n !in s.cars {
      GridExt(u.grid, s.grid, s.rows, s.cols);
      assert u.cars == s.cars;
    }
  }

  /**
   * Neither store checks that a number is parked only once: parking "1234"
   * twice and exiting it once leaves the first slot occupied by "1234" with
   * no `cars` entry left to free it.
   */
  lemma ReparkLeavesOrphanSlot()
    ensures
      var s0 := Init(5, 10);
      var s1 := Park(s0, 0, 0, "1234", 0).1;
      var s2 := Park(s1, 0, 1, "1234", 10).1;
      var s3 := Exit(s2, "1234", 20).1;
      Park(s1, 0, 1, "1234", 10).0.0 &&
      s3.grid[0][0] == Cell(false, Some("1234")) && s3.grid[0][1] == Free && "1234" !in s3.cars
  {
    var s0 := Init(5, 10);
    var s1 := Park(s0, 0, 0, "1234", 0).1;
    ParkKeepsIndexed(s0, 0, 0, "1234", 0);
    var s2 := Park(s1, 0, 1, "1234", 10).1;
    ParkKeepsIndexed(s1, 0, 1, "1234", 10);
    assert s2.cars["1234"] == CarRecord(0, 1, 10);
  }

  // -------------------------------------------------------------- the store

  class ParkingStore {
    const rows: nat
    const cols: nat
    var grid: array2<Cell>
    var cars: map<string, CarRecord>

    /** The store as a value. */
    ghost function State(): (s: Backend)
      reads this, grid
    {
      Backend(rows, cols, Snapshot(grid), cars)
    }

    ghost predicate Valid()
      reads this, grid
    {
      grid.Length0 == rows && grid.Length1 == cols && Indexed(State())
    }

    /** `ParkingStore(rows=5, cols=10)`. */
    constructor (rows: nat := 5, cols: nat := 10)
      ensures Valid() && fresh(grid)
      ensures State() == Init(rows, cols)
    {
      this.rows := rows;
      this.cols := cols;
      grid := new Cell[rows, cols]((i, j) => Free);
      cars := map[];
      new;
      GridExt(Snapshot(grid), Empty(rows, cols), rows, cols);
    }

    /** `get_grid`: a cell-by-cell copy of the grid. */
    function GetGrid(): (g: Grid)
      requires Valid()
      reads this, grid
      ensures Shaped(g, rows, cols)
      ensures forall i, j :: InBounds(rows, cols, i, j) ==> g[i][j] == grid[i, j]
    {
      Snapshot(grid)
    }

    method ParkAt(r: int, c: int, carNumber: string, now: int) returns (ok: bool, message: string)
      requires Valid()
      modifies this, grid
      ensures Valid() && grid == old(grid)
      ensures ((ok, message), State()) == Park(old(State()), r, c, carNumber, now)
    {
      if !(0 <= r < rows && 0 <= c < cols) {
        return false, InvalidPosition;
      }
      if !grid[r, c].available {
        return false, SpotOccupied;
      }
      ghost var before := State();
      grid[r, c] := grid[r, c].(available := false);
      grid[r, c] := grid[r, c].(carNumber := Some(carNumber));
      cars := cars[carNumber := CarRecord(r, c, now)];
      SnapshotAfterWrite(grid, before.grid, r, c);
      ParkKeepsIndexed(before, r, c, carNumber, now);
      ok, message := true, ParkedMessage(r, c);
    }

    /** `find_car`: `cars.get(carNumber)`. */
    function FindCar(carNumber: string): (car: Option<CarRecord>)
      reads this
      ensures car.Some? <==> carNumber in cars
      ensures car.Some? ==> car.value == cars[carNumber]
    {
      if carNumber in cars then Some(cars[carNumber]) else None
    }

    method ExitByNumber(carNumber: string, now: int) returns (reply: ExitReply)
      requires Valid()
      modifies this, grid
      ensures Valid() && grid == old(grid)
      ensures (reply, State()) == Exit(old(State()), carNumber, now)
    {
      var car := FindCar(carNumber);
      if car.None? {
        return ExitReply(false, CarNotFound, None);
      }
      var r, c := car.value.r, car.value.c;
      var entry := car.value.entryTime;
      var fee := ComputeFee(entry, now);
      ghost var before := State();
      grid[r, c] := grid[r, c].(available := true);
      grid[r, c] := grid[r, c].(carNumber := None);
      cars := cars - {carNumber};
      SnapshotAfterWrite(grid, before.grid, r, c);
      ExitKeepsIndexed(before, carNumber, now);
      reply := ExitReply(true, ExitedMessage(r, c), Some(Payment(fee.0, fee.1, entry, now)));
    }

    /** `get_car_info`: a copy of the car's entry; the slot it names is in bounds and holds that car. */
    function GetCarInfo(carNumber: string): (info: Option<CarRecord>)
      requires Valid()
      reads this, grid
      ensures info.Some? <==> carNumber in cars
      ensures info.Some? ==> info.value == cars[carNumber]
      ensures info.Some? ==> InBounds(rows, cols, info.value.r, info.value.c)
      ensures info.Some? ==> grid[info.value.r, info.value.c] == Cell(false, Some(carNumber))
    {
      FindCar(carNumber)
    }
  }
}
