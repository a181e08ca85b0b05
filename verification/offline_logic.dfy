/** The single-player (versus AI) grid logic: board construction, the
    placement validator, the ship write step, the fleet, the AI's attack and
    game-over detection. The random draws of the source are parameters: a
    draw the source would reject and redraw is answered with `None`. */
module OfflineLogic {
  import opened Outcomes
  import opened Grids

  /** The offline cell: "empty", "ship", "hit", "miss", or the name a fleet
      ship writes into its cells ("5x1", "4x1", ...). */
  datatype Cell = Empty | Ship | Hit | Miss | Named(name: string)

  datatype Orientation = Horizontal | Vertical

  /** `createEmptyGrid`: ten rows of ten "empty" cells. */
  function CreateEmptyGrid(): (g: Grid<Cell>)
    ensures IsBoard(g)
    ensures forall r, c :: InBounds(r, c) ==> g[r][c] == Empty
  {
    Fill(Empty)
  }

  /** The `i`-th cell of a ship anchored at (row, col): rightward when
      horizontal, downward when vertical. */
  function ShipCell(row: int, col: int, o: Orientation, i: int): (int, int) {
    if o == Horizontal then (row, col + i) else (row + i, col)
  }

  /** The cells a ship of length `size` anchored at (row, col) covers. */
  ghost function Footprint(row: int, col: int, size: int, o: Orientation): set<(int, int)> {
    set i | 0 <= i < size :: ShipCell(row, col, o, i)
  }

  /** Whether (r, c) lies on the ship, by arithmetic. */
  predicate Covers(row: int, col: int, size: int, o: Orientation, r: int, c: int) {
    if o == Horizontal then r == row && col <= c < col + size
    else c == col && row <= r < row + size
  }

  lemma CoversIsFootprint(row: int, col: int, size: int, o: Orientation, r: int, c: int)
    ensures Covers(row, col, size, o, r, c) <==> (r, c) in Footprint(row, col, size, o)
  {
    if Covers(row, col, size, o, r, c) {
      var i := if o == Horizontal then c - col else r - row;
      assert ShipCell(row, col, o, i) == (r, c);
    }
  }

  /** A ship of length `size` covers exactly `size` cells. */
  lemma {:induction false} FootprintSize(row: int, col: int, size: int, o: Orientation)
    requires size >= 0
    ensures |Footprint(row, col, size, o)| == size
    decreases size
  {
    if size > 0 {
      FootprintSize(row, col, size - 1, o);
      var last := ShipCell(row, col, o, size - 1);
      assert Footprint(row, col, size, o) == Footprint(row, col, size - 1, o) + {last};
      assert last !in Footprint(row, col, size - 1, o);
    } else {
      assert Footprint(row, col, size, o) == {};
    }
  }

  /** The up-front length test both validators make. */
  predicate FitsEdge(row: int, col: int, size: int, o: Orientation) {
    && (o == Horizontal ==> col + size <= Size)
    && (o == Vertical ==> row + size <= Size)
  }

  /** The cell is on the board and holds "empty". */
  predicate FreeCell(grid: Grid<Cell>, p: (int, int))
    requires IsBoard(grid)
  {
    InBounds(p.0, p.1) && grid[p.0][p.1] == Empty
  }

  /** The loop of `isValidPlacement` from the `i`-th cell on. */
  function FootprintFree(grid: Grid<Cell>, row: int, col: int, size: int, o: Orientation, i: int): (ok: bool)
    requires IsBoard(grid) && 0 <= i
    ensures ok <==> forall k :: i <= k < size ==> FreeCell(grid, ShipCell(row, col, o, k))
    decreases size - i
  {
    if i >= size then true
    else
      var (r, c) := ShipCell(row, col, o, i);
      if r < 0 || c < 0 || r >= |grid| || c >= |grid[0]| then false
      else if grid[r][c] != Empty then false
      else FootprintFree(grid, row, col, size, o, i + 1)
  }

  /** `isValidPlacement`. */
  function IsValidPlacement(grid: Grid<Cell>, row: int, col: int, size: int, o: Orientation): (ok: bool)
    requires IsBoard(grid)
    ensures ok <==> FitsEdge(row, col, size, o)
                    && forall i :: 0 <= i < size ==> FreeCell(grid, ShipCell(row, col, o, i))
  {
    if o == Horizontal && col + size > Size then false
    else if o == Vertical && row + size > Size then false
    else FootprintFree(grid, row, col, size, o, 0)
  }

  /** For a real ship (length at least one) the validator accepts exactly
      when every footprint cell is on the board and "empty". */
  lemma ValidPlacementMeansFreeFootprint(grid: Grid<Cell>, row: int, col: int, size: int, o: Orientation)
    requires IsBoard(grid) && size >= 1
    ensures IsValidPlacement(grid, row, col, size, o) <==>
            forall p :: p in Footprint(row, col, size, o) ==> FreeCell(grid, p)
  {
    if forall p :: p in Footprint(row, col, size, o) ==> FreeCell(grid, p) {
      assert ShipCell(row, col, o, size - 1) in Footprint(row, col, size, o);
      forall i | 0 <= i < size ensures FreeCell(grid, ShipCell(row, col, o, i)) {
        assert ShipCell(row, col, o, i) in Footprint(row, col, size, o);
      }
    }
  }

  /** The write loop: every covered cell gets `v`. */
  function WriteShip(grid: Grid<Cell>, row: int, col: int, size: int, o: Orientation, v: Cell): (g: Grid<Cell>)
    requires IsBoard(grid)
    ensures IsBoard(g)
    ensures forall r, c :: InBounds(r, c) ==>
              g[r][c] == (if (r, c) in Footprint(row, col, size, o) then v else grid[r][c])
  {
    var g := seq(Size, r requires 0 <= r < Size =>
                 seq(Size, c requires 0 <= c < Size =>
                     if Covers(row, col, size, o, r, c) then v else grid[r][c]));
    assert forall r, c :: InBounds(r, c) ==>
             g[r][c] == (if Covers(row, col, size, o, r, c) then v else grid[r][c]);
    forall r, c | InBounds(r, c)
      ensures g[r][c] == (if (r, c) in Footprint(row, col, size, o) then v else grid[r][c])
    {
      CoversIsFootprint(row, col, size, o, r, c);
    }
    g
  }

  /** A ship of the fleet: its length and the name written into its cells. */
  datatype ShipSpec = ShipSpec(size: nat, name: string)

  /** A random draw: orientation and anchor cell. */
  datatype Pick = Pick(o: Orientation, row: int, col: int)

  /** The fleet `createGridWithShips` places. */
  const Fleet: seq<ShipSpec> :=
    [ShipSpec(5, "5x1"), ShipSpec(4, "4x1"), ShipSpec(3, "3x1"), ShipSpec(3, "3x1"), ShipSpec(2, "2x1")]

  /** `placeShip` for one accepted draw: the ship's name goes into exactly
      its footprint. */
  function PlaceShip(grid: Grid<Cell>, ship: ShipSpec, pick: Pick): (r: Option<Grid<Cell>>)
    requires IsBoard(grid)
    ensures r.Some? <==> IsValidPlacement(grid, pick.row, pick.col, ship.size, pick.o)
    ensures r.Some? ==> IsBoard(r.value)
    ensures r.Some? ==> forall i, j :: InBounds(i, j) ==>
      r.value[i][j] == (if (i, j) in Footprint(pick.row, pick.col, ship.size, pick.o)
                        then Named(ship.name) else grid[i][j])
  {
    if IsValidPlacement(grid, pick.row, pick.col, ship.size, pick.o) then
      Some(WriteShip(grid, pick.row, pick.col, ship.size, pick.o, Named(ship.name)))
    else None
  }

  /** The coordinates of the cells that are not "empty". */
  ghost function Occupied(g: Grid<Cell>): set<(int, int)>
    requires IsBoard(g)
  {
    set r, c | 0 <= r < Size && 0 <= c < Size && g[r][c] != Empty :: (r, c)
  }

  /** Placing a ship occupies exactly its `size` footprint cells, all of
      them previously empty. */
  lemma PlaceShipOccupies(grid: Grid<Cell>, ship: ShipSpec, pick: Pick)
    requires IsBoard(grid) && PlaceShip(grid, ship, pick).Some?
    ensures Occupied(PlaceShip(grid, ship, pick).value)
            == Occupied(grid) + Footprint(pick.row, pick.col, ship.size, pick.o)
    ensures Occupied(grid) !! Footprint(pick.row, pick.col, ship.size, pick.o)
    ensures |Occupied(PlaceShip(grid, ship, pick).value)| == |Occupied(grid)| + ship.size
  {
    var g := PlaceShip(grid, ship, pick).value;
    var fp := Footprint(pick.row, pick.col, ship.size, pick.o);
    forall p | p in fp ensures FreeCell(grid, p) {
      var i :| 0 <= i < ship.size && ShipCell(pick.row, pick.col, pick.o, i) == p;
    }
    assert Occupied(g) == Occupied(grid) + fp;
    FootprintSize(pick.row, pick.col, ship.size, pick.o);
  }

  /** Places `ships` one after the other with the matching accepted draws. */
  function PlaceFleet(grid: Grid<Cell>, ships: seq<ShipSpec>, picks: seq<Pick>): (r: Option<Grid<Cell>>)
    requires IsBoard(grid) && |picks| == |ships|
    ensures r.Some? ==> IsBoard(r.value)
    decreases |ships|
  {
    if |ships| == 0 then Some(grid)
    else
      match PlaceShip(grid, ships[0], picks[0])
      case None => None
      case Some(next) => PlaceFleet(next, ships[1..], picks[1..])
  }

  /** The total length of a fleet. */
  function FleetCells(ships: seq<ShipSpec>): nat {
    if |ships| == 0 then 0 else ships[0].size + FleetCells(ships[1..])
  }

  /** No cell holds "ship". */
  ghost predicate ShipFree(g: Grid<Cell>)
    requires IsBoard(g)
  {
    forall r, c :: InBounds(r, c) ==> g[r][c] != Ship
  }

  lemma {:induction false} PlaceFleetOccupies(grid: Grid<Cell>, ships: seq<ShipSpec>, picks: seq<Pick>)
    requires IsBoard(grid) && |picks| == |ships|
    requires PlaceFleet(grid, ships, picks).Some?
    ensures |Occupied(PlaceFleet(grid, ships, picks).value)| == |Occupied(grid)| + FleetCells(ships)
    ensures ShipFree(grid) ==> ShipFree(PlaceFleet(grid, ships, picks).value)
    decreases |ships|
  {
    if |ships| > 0 {
      var next := PlaceShip(grid, ships[0], picks[0]).value;
      PlaceShipOccupies(grid, ships[0], picks[0]);
      PlaceFleetOccupies(next, ships[1..], picks[1..]);
    }
  }

  /** `createGridWithShips` with one accepted draw per fleet ship: 17 cells
      end up occupied, all by named segments, none of them "ship". */
  function CreateGridWithShips(picks: seq<Pick>): (r: Option<Grid<Cell>>)
    requires |picks| == |Fleet|
    ensures r.Some? ==> IsBoard(r.value) && |Occupied(r.value)| == 17
    ensures r.Some? ==> CheckIfGameOver(r.value)
  {
    var r := PlaceFleet(CreateEmptyGrid(), Fleet, picks);
    if r.Some? then
      assert Occupied(CreateEmptyGrid()) == {};
      PlaceFleetOccupies(CreateEmptyGrid(), Fleet, picks);
      assert ShipFree(r.value);
      assert !Holds(r.value, Ship) by {
        forall i, j | 0 <= i < |r.value| && 0 <= j < |r.value[i]| ensures r.value[i][j] != Ship {
          assert InBounds(i, j);
        }
      }
      r
    else r
  }

  /** `aiAttackPlayer` for one draw of (row, col): an "empty" cell becomes
      "miss", a "ship" cell "hit"; any other draw is redrawn. */
  function AiAttackPlayer(grid: Grid<Cell>, row: int, col: int): (r: Option<Grid<Cell>>)
    requires IsBoard(grid) && InBounds(row, col)
    ensures r.Some? <==> grid[row][col] == Empty || grid[row][col] == Ship
    ensures r.Some? ==> SameExcept(grid, r.value, row, col)
    ensures r.Some? ==> r.value[row][col] == (if grid[row][col] == Empty then Miss else Hit)
  {
    if grid[row][col] == Empty then Some(Set(grid, row, col, Miss))
    else if grid[row][col] == Ship then Some(Set(grid, row, col, Hit))
    else None
  }

  /** The AI's redraw loop can finish exactly when some cell is still
      "empty" or "ship". */
  lemma AiAttackCanLand(grid: Grid<Cell>)
    requires IsBoard(grid)
    ensures (exists row, col :: InBounds(row, col) && AiAttackPlayer(grid, row, col).Some?)
            <==> Holds(grid, Empty) || Holds(grid, Ship)
  {
    if Holds(grid, Empty) {
      var r, c :| 0 <= r < |grid| && 0 <= c < |grid[r]| && grid[r][c] == Empty;
      assert AiAttackPlayer(grid, r, c).Some?;
    } else if Holds(grid, Ship) {
      var r, c :| 0 <= r < |grid| && 0 <= c < |grid[r]| && grid[r][c] == Ship;
      assert AiAttackPlayer(grid, r, c).Some?;
    }
  }

  /** The `remainingShips` count of `checkIfGameOver`. */
  function ShipCount(grid: Grid<Cell>): (n: nat)
    ensures n == 0 <==> !Holds(grid, Ship)
  {
    if |grid| == 0 then 0
    else
      assert forall r, c :: 1 <= r < |grid| && 0 <= c < |grid[r]| ==> grid[1..][r - 1][c] == grid[r][c];
      multiset(grid[0])[Ship] + ShipCount(grid[1..])
  }

  /** `checkIfGameOver`: no cell holds "ship". */
  function CheckIfGameOver(grid: Grid<Cell>): (over: bool)
    ensures over <==> !Holds(grid, Ship)
  {
    ShipCount(grid) == 0
  }
}
