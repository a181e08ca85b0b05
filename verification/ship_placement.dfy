/** The multiplayer ship-placement page: clicking a cell toggles a
    single-cell ship, at most five of them, and the Ready button is enabled
    only at exactly five. */
module ShipPlacement {
  import opened Grids
  import opened Documents

  /** The most ship cells the page lets the player mark. */
  const MaxShips: nat := 5

  datatype State = State(grid: Grid<Mark>, placed: int)

  /** The page's state agrees with its board: `placed` counts the "S" cells. */
  ghost predicate Consistent(s: State) {
    && IsBoard(s.grid)
    && s.placed == |CellsOf(s.grid, S)|
    && 0 <= s.placed <= MaxShips
  }

  /** The page as it first renders. */
  function Initial(): (s: State)
    ensures IsBoard(s.grid)
    ensures forall r, c :: InBounds(r, c) ==> s.grid[r][c] == Null
    ensures s.placed == 0
  {
    State(Fill(Null), 0)
  }

  lemma InitialConsistent()
    ensures Consistent(Initial())
  {
    assert CellsOf(Initial().grid, S) == {};
  }

  /** `toggleCell`. A ship cell is cleared; any other cell becomes a ship
      unless five are already marked, in which case the page only alerts. */
  function Toggle(s: State, row: int, col: int): (t: State)
    requires IsBoard(s.grid) && InBounds(row, col)
    ensures IsBoard(t.grid)
    ensures s.grid[row][col] == S ==> t.grid[row][col] == Null && t.placed == s.placed - 1
    ensures s.grid[row][col] != S && s.placed >= MaxShips ==> t == s
    ensures s.grid[row][col] != S && s.placed < MaxShips ==> t.grid[row][col] == S && t.placed == s.placed + 1
    ensures forall i, j :: InBounds(i, j) && (i != row || j != col) ==> t.grid[i][j] == s.grid[i][j]
  {
    if s.grid[row][col] == S then State(Set(s.grid, row, col, Null), s.placed - 1)
    else if s.placed >= MaxShips then s
    else State(Set(s.grid, row, col, S), s.placed + 1)
  }

  /** Every toggle keeps the counter equal to the number of ship cells and
      within 0..5. */
  lemma {:induction false} ToggleKeepsConsistent(s: State, row: int, col: int)
    requires Consistent(s) && InBounds(row, col)
    ensures Consistent(Toggle(s, row, col))
  {
    var t := Toggle(s, row, col);
    if s.grid[row][col] == S {
      CellsAfterSet(s.grid, row, col, Null, S);
      assert (row, col) in CellsOf(s.grid, S);
    } else if s.placed < MaxShips {
      CellsAfterSet(s.grid, row, col, S, S);
      assert (row, col) !in CellsOf(s.grid, S);
    }
  }

  /** The page after a sequence of clicks. */
  function Clicks(s: State, cells: seq<(int, int)>): (t: State)
    requires IsBoard(s.grid)
    requires forall k :: 0 <= k < |cells| ==> InBounds(cells[k].0, cells[k].1)
    ensures IsBoard(t.grid)
    decreases |cells|
  {
    if |cells| == 0 then s
    else Clicks(Toggle(s, cells[0].0, cells[0].1), cells[1..])
  }

  /** No sequence of clicks from the first render breaks the agreement
      between counter and board, so at most five cells are ever marked. */
  lemma {:induction false} ClicksKeepConsistent(s: State, cells: seq<(int, int)>)
    requires Consistent(s)
    requires forall k :: 0 <= k < |cells| ==> InBounds(cells[k].0, cells[k].1)
    ensures Consistent(Clicks(s, cells))
    decreases |cells|
  {
    if |cells| > 0 {
      ToggleKeepsConsistent(s, cells[0].0, cells[0].1);
      ClicksKeepConsistent(Toggle(s, cells[0].0, cells[0].1), cells[1..]);
    }
  }

  /** The Ready button's enabling condition. */
  predicate Ready(s: State) {
    s.placed == MaxShips
  }

  /** A ready page submits a board with exactly five ship cells. */
  lemma ReadyMeansFiveShips(s: State)
    requires Consistent(s) && Ready(s)
    ensures |CellsOf(s.grid, S)| == 5
  {
  }

  /** Clicking the same cell twice restores the page, on any state where
      the cell holds null or "S" and the counter leaves room to re-mark it. */
  lemma ToggleTwiceRestores(s: State, row: int, col: int)
    requires IsBoard(s.grid) && InBounds(row, col)
    requires s.grid[row][col] == Null || s.grid[row][col] == S
    requires s.grid[row][col] == S ==> s.placed <= MaxShips
    requires s.grid[row][col] == Null ==> s.placed < MaxShips
    ensures Toggle(Toggle(s, row, col), row, col) == s
  {
    var t := Toggle(Toggle(s, row, col), row, col);
    forall i | 0 <= i < Size ensures t.grid[i] == s.grid[i] {
      assert forall j :: 0 <= j < Size ==> t.grid[i][j] == s.grid[i][j];
    }
    assert t.grid == s.grid;
  }
}
