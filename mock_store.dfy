/**
 * The in-memory fallback of the browser's parking store: a module-level
 * 5 x 10 grid of `{available, carNumber}` slots that `parkAt`,
 * `exitCarByNumber`, `findCar`, `localGetGrid` and `resetGrid` use whenever
 * the network call throws.
 *
 * The rules are first stated on grid values (Park, Find, Exit), then the
 * `Store` class runs them on a two-dimensional array and is proved to agree.
 */
module MockStore {
  import opened Wrappers
  import opened Slots

  const Rows: nat := 5
  const Cols: nat := 10

  /** The `{ok, message}` object every store call resolves to. */
  datatype Outcome = Outcome(ok: bool, message: string)

  const InvalidLocation: string := "잘못된 위치"
  const AlreadyOccupied: string := "이미 사용중"
  const CarNotFound: string := "해당 차량을 찾을 수 없습니다."

  function ParkedMessage(r: nat, c: nat): (m: string)
  {
    "주차 완료: " + Label(r, c)
  }

  function ExitedMessage(r: nat, c: nat): (m: string)
  {
    "출차 완료: " + Label(r, c)
  }

  predicate WellShaped(g: Grid)
  {
    Shaped(g, Rows, Cols)
  }

  predicate OnGrid(r: int, c: int)
  {
    InBounds(Rows, Cols, r, c)
  }

  /** Every slot is occupied exactly when it holds a car number. */
  ghost predicate Consistent(g: Grid)
    requires WellShaped(g)
  {
    forall i, j :: OnGrid(i, j) ==> (g[i][j].available <==> g[i][j].carNumber.None?)
  }

  // ---------------------------------------------------------------- parkAt

  /** The local branch of `parkAt`: bounds first, then occupancy, then the two field writes. */
  function Park(g: Grid, r: int, c: int, n: Option<string>): (res: (Outcome, Grid))
    requires WellShaped(g)
    ensures WellShaped(res.1)
    ensures !OnGrid(r, c) ==> res == (Outcome(false, InvalidLocation), g)
    ensures OnGrid(r, c) && !g[r][c].available ==> res == (Outcome(false, AlreadyOccupied), g)
    ensures res.0.ok <==> OnGrid(r, c) && g[r][c].available
    ensures res.0.ok ==> res.0.message == ParkedMessage(r, c) && res.1[r][c] == Cell(false, n)
    ensures forall i, j :: OnGrid(i, j) && (i != r || j != c) ==> res.1[i][j] == g[i][j]
  {
    if r < 0 || r >= Rows || c < 0 || c >= Cols then
      (Outcome(false, InvalidLocation), g)
    else if !g[r][c].available then
      (Outcome(false, AlreadyOccupied), g)
    else
      (Outcome(true, ParkedMessage(r, c)), Put(g, Rows, Cols, r, c, Cell(false, n)))
  }

  // --------------------------------------------------------------- findCar

  /** `p` is the first slot in row-major order holding `n`, or None when no slot does. */
  ghost predicate FirstMatch(g: Grid, n: Option<string>, p: Option<Pos>)
    requires WellShaped(g)
  {
    match p
    case None =>
      forall i, j :: OnGrid(i, j) ==> g[i][j].carNumber != n
    case Some(q) =>
      OnGrid(q.r, q.c) && g[q.r][q.c].carNumber == n &&
      forall i, j :: OnGrid(i, j) && (i < q.r || (i == q.r && j < q.c)) ==> g[i][j].carNumber != n
  }

  /** The inner loop of the scan: columns c.. of row r. */
  function FindInRow(g: Grid, n: Option<string>, r: nat, c: nat): (p: Option<Pos>)
    requires WellShaped(g) && r < Rows && c <= Cols
    ensures p.None? ==> forall j :: c <= j < Cols ==> g[r][j].carNumber != n
    ensures p.Some? ==> p.value.r == r && c <= p.value.c < Cols && g[r][p.value.c].carNumber == n
    ensures p.Some? ==> forall j :: c <= j < p.value.c ==> g[r][j].carNumber != n
    decreases Cols - c
  {
    if c == Cols then None
    else if g[r][c].carNumber == n then Some(Pos(r, c))
    else FindInRow(g, n, r, c + 1)
  }

  /** The outer loop of the scan: rows r.. */
  function FindFrom(g: Grid, n: Option<string>, r: nat): (p: Option<Pos>)
    requires WellShaped(g) && r <= Rows
    ensures p.None? ==> forall i, j :: r <= i < Rows && 0 <= j < Cols ==> g[i][j].carNumber != n
    ensures p.Some? ==> r <= p.value.r < Rows && 0 <= p.value.c < Cols
    ensures p.Some? ==> g[p.value.r][p.value.c].carNumber == n
    ensures p.Some? ==> forall i, j :: r <= i && 0 <= j < Cols && (i < p.value.r || (i == p.value.r && j < p.value.c)) ==> g[i][j].carNumber != n
    decreases Rows - r
  {
    if r == Rows then None
    else
      match FindInRow(g, n, r, 0)
      case Some(q) => Some(q)
      case None => FindFrom(g, n, r + 1)
  }

  /** What the local branch of `findCar` returns: `{r, c}` or `null`. */
  function Find(g: Grid, n: Option<string>): (p: Option<Pos>)
    requires WellShaped(g)
    ensures FirstMatch(g, n, p)
  {
    FindFrom(g, n, 0)
  }

  /** At most one result satisfies FirstMatch, so Find is the only answer the scan can give. */
  lemma FirstMatchUnique(g: Grid, n: Option<string>, p: Option<Pos>)
    requires WellShaped(g) && FirstMatch(g, n, p)
    ensures p == Find(g, n)
  {
  }

  // ------------------------------------------------------- exitCarByNumber

  /** The local branch of `exitCarByNumber`: free the first slot holding `n`. */
  function Exit(g: Grid, n: Option<string>): (res: (Outcome, Grid))
    requires WellShaped(g)
    ensures WellShaped(res.1)
    ensures res.0.ok <==> exists i, j :: OnGrid(i, j) && g[i][j].carNumber == n
    ensures !res.0.ok ==> res == (Outcome(false, CarNotFound), g)
    ensures res.0.ok ==> Find(g, n).Some?
    ensures res.0.ok ==> (
      var p := Find(g, n).value;
      res.0.message == ExitedMessage(p.r, p.c) &&
      res.1[p.r][p.c] == Free &&
      forall i, j :: OnGrid(i, j) && (i != p.r || j != p.c) ==> res.1[i][j] == g[i][j])
  {
    match Find(g, n)
    case None => (Outcome(false, CarNotFound), g)
    case Some(p) => (Outcome(true, ExitedMessage(p.r, p.c)), Put(g, Rows, Cols, p.r, p.c, Free))
  }

  // ------------------------------------------------------ sequences of calls

  datatype Op = ParkOp(r: int, c: int, carNumber: Option<string>) | ExitOp(carNumber: Option<string>) | ResetOp

  function Apply(g: Grid, op: Op): (h: Grid)
    requires WellShaped(g)
    ensures WellShaped(h)
  {
    match op
    case ParkOp(r, c, n) => Park(g, r, c, n).1
    case ExitOp(n) => Exit(g, n).1
    case ResetOp => Empty(Rows, Cols)
  }

  function Run(g: Grid, ops: seq<Op>): (h: Grid)
    requires WellShaped(g)
    ensures WellShaped(h)
    decreases |ops|
  {
    if ops == [] then g else Run(Apply(g, ops[0]), ops[1..])
  }

  ghost predicate ParksCarryNumbers(ops: seq<Op>)
  {
    forall k :: 0 <= k < |ops| && ops[k].ParkOp? ==> ops[k].carNumber.Some?
  }

  /** One park (with a car number), exit or reset keeps occupancy and car numbers in step. */
  lemma ApplyKeepsConsistent(g: Grid, op: Op)
    requires WellShaped(g) && Consistent(g)
    requires op.ParkOp? ==> op.carNumber.Some?
    ensures Consistent(Apply(g, op))
  {
    match op
    case ParkOp(r, c, n) =>
    case ExitOp(n) =>
    case ResetOp =>
  }

  /** "Occupied iff it holds a car number" survives any run in which every park carries a number. */
  lemma {:induction false} RunKeepsConsistent(g: Grid, ops: seq<Op>)
    requires WellShaped(g) && Consistent(g)
    requires ParksCarryNumbers(ops)
    ensures Consistent(Run(g, ops))
    decreases |ops|
  {
    if ops != [] {
      ApplyKeepsConsistent(g, ops[0]);
      assert ParksCarryNumbers(ops[1..]) by {
        forall k | 0 <= k < |ops[1..]| && ops[1..][k].ParkOp? ensures ops[1..][k].carNumber.Some? {
          assert ops[1..][k] == ops[k + 1];
        }
      }
      RunKeepsConsistent(Apply(g, ops[0]), ops[1..]);
    }
  }

  /** Parking a number held nowhere and then exiting it frees exactly the slot it was parked in. */
  lemma ParkThenExit(g: Grid, r: int, c: int, n: Option<string>)
    requires WellShaped(g) && OnGrid(r, c) && g[r][c].available
    requires forall i, j :: OnGrid(i, j) ==> g[i][j].carNumber != n
    ensures Park(g, r, c, n).0 == Outcome(true, ParkedMessage(r, c))
    ensures Exit(Park(g, r, c, n).1, n) == (Outcome(true, ExitedMessage(r, c)), Put(g, Rows, Cols, r, c, Free))
    ensures Consistent(g) ==> Exit(Park(g, r, c, n).1, n).1 == g
  {
    var g1 := Park(g, r, c, n).1;
    assert FirstMatch(g1, n, Some(Pos(r, c)));
    FirstMatchUnique(g1, n, Some(Pos(r, c)));
    var g2 := Exit(g1, n).1;
    GridExt(g2, Put(g, Rows, Cols, r, c, Free), Rows, Cols);
    if Consistent(g) {
      GridExt(g2, g, Rows, Cols);
    }
  }

  /**
   * A run on a fresh grid: park "1234" at (0, 0), fail to park "5678" on
   * top of it, exit "1234", and fail to exit it a second time.
   */
  lemma FreshGridScenario()
    ensures
      var g0 := Empty(Rows, Cols);
      var p1 := Park(g0, 0, 0, Some("1234"));
      var p2 := Park(p1.1, 0, 0, Some("5678"));
      var e1 := Exit(p2.1, Some("1234"));
      var e2 := Exit(e1.1, Some("1234"));
      p1.0 == Outcome(true, ParkedMessage(0, 0)) && p1.1[0][0] == Cell(false, Some("1234")) &&
      p2 == (Outcome(false, AlreadyOccupied), p1.1) &&
      e1.0 == Outcome(true, ExitedMessage(0, 0)) && e1.1 == g0 &&
      e2 == (Outcome(false, CarNotFound), g0)
  {
    var g0 := Empty(Rows, Cols);
    ParkThenExit(g0, 0, 0, Some("1234"));
  }

  /**
   * Parking checks only the target slot, so one number can occupy two slots;
   * an exit then frees only the first of them in row-major order.
   */
  lemma DuplicateParkExitsFirst()
    ensures
      var g0 := Empty(Rows, Cols);
      var g1 := Park(g0, 1, 0, Some("1234")).1;
      var p2 := Park(g1, 0, 5, Some("1234"));
      var e := Exit(p2.1, Some("1234"));
      p2.0.ok && e.0 == Outcome(true, ExitedMessage(0, 5)) &&
      e.1[0][5] == Free && e.1[1][0] == Cell(false, Some("1234"))
  {
    var g0 := Empty(Rows, Cols);
    var g2 := Park(Park(g0, 1, 0, Some("1234")).1, 0, 5, Some("1234")).1;
    assert FirstMatch(g2, Some("1234"), Some(Pos(0, 5)));
    FirstMatchUnique(g2, Some("1234"), Some(Pos(0, 5)));
  }

  // -------------------------------------------------------------- the store

  /** The module-level `grid` and the functions that use it. */
  class Store {
    var grid: array2<Cell>

    ghost predicate Valid()
      reads this
    {
      grid.Length0 == Rows && grid.Length1 == Cols
    }

    /** The grid as a value. */
    ghost function View(): (g: Grid)
      reads this, grid
    {
      Snapshot(grid)
    }

    /** Module initialisation: every slot `{available: true, carNumber: null}`. */
    constructor ()
      ensures Valid() && fresh(grid)
      ensures View() == Empty(Rows, Cols)
    {
      grid := new Cell[Rows, Cols]((i, j) => Free);
      new;
      GridExt(View(), Empty(Rows, Cols), Rows, Cols);
    }

    /** `localGetGrid`: a slot-by-slot copy, so later writes to the store do not show through it. */
    function LocalGetGrid(): (g: Grid)
      requires Valid()
      reads this, grid
      ensures WellShaped(g)
      ensures forall i, j :: OnGrid(i, j) ==> g[i][j] == grid[i, j]
    {
      Snapshot(grid)
    }

    method ParkAt(r: int, c: int, carNumber: Option<string>) returns (res: Outcome)
      requires Valid()
      modifies grid
      ensures Valid()
      ensures (res, View()) == Park(old(View()), r, c, carNumber)
    {
      if r < 0 || r >= Rows || c < 0 || c >= Cols {
        return Outcome(false, InvalidLocation);
      }
      if !grid[r, c].available {
        return Outcome(false, AlreadyOccupied);
      }
      ghost var before := View();
      grid[r, c] := grid[r, c].(available := false);
      grid[r, c] := grid[r, c].(carNumber := carNumber);
      SnapshotAfterWrite(grid, before, r, c);
      res := Outcome(true, ParkedMessage(r, c));
    }

    /** `findCar`'s nested row-major scan. */
    method FindCar(carNumber: Option<string>) returns (p: Option<Pos>)
      requires Valid()
      ensures p == Find(View(), carNumber)
    {
      ghost var g := View();
      var r := 0;
      while r < Rows
        invariant 0 <= r <= Rows
        invariant Find(g, carNumber) == FindFrom(g, carNumber, r)
      {
        var c := 0;
        while c < Cols
          invariant 0 <= c <= Cols
          invariant FindInRow(g, carNumber, r, 0) == FindInRow(g, carNumber, r, c)
        {
          if grid[r, c].carNumber == carNumber {
            return Some(Pos(r, c));
          }
          c := c + 1;
        }
        r := r + 1;
      }
      return None;
    }

    method ExitCarByNumber(carNumber: Option<string>) returns (res: Outcome)
      requires Valid()
      modifies grid
      ensures Valid()
      ensures (res, View()) == Exit(old(View()), carNumber)
    {
      var found := FindCar(carNumber);
      if found.None? {
        return Outcome(false, CarNotFound);
      }
      var r, c := found.value.r, found.value.c;
      ghost var before := View();
      grid[r, c] := grid[r, c].(available := true);
      grid[r, c] := grid[r, c].(carNumber := None);
      SnapshotAfterWrite(grid, before, r, c);
      res := Outcome(true, ExitedMessage(r, c));
    }

    /** `resetGrid` rebinds `grid` to a fresh all-free array. */
    method ResetGrid()
      modifies this
      ensures Valid() && fresh(grid)
      ensures View() == Empty(Rows, Cols)
    {
      grid := new Cell[Rows, Cols]((i, j) => Free);
      GridExt(View(), Empty(Rows, Cols), Rows, Cols);
    }
  }
}
