/** The single-player page's state transitions: dropping a ship onto the
    player's board, the fleet counters, starting the game, and clicking an
    enemy cell. The page state is one immutable record. */
module OfflineGame {
  import opened Outcomes
  import opened Grids
  import opened OfflineLogic
  import HighScoreStore

  /** The `ships` counters, keyed by ship length: key 5 is "5x1". */
  type Counters = map<int, int>

  const InitialCounters: Counters := map[5 := 1, 4 := 1, 3 := 2, 2 := 1]

  /** The lengths of the enemy fleet placed at random. */
  const EnemyFleet: seq<nat> := [5, 4, 3, 3, 2]

  /** The page state. `revealed` holds the clicked enemy cells; the source
      keys them as "row-col", which is one-to-one on the board. */
  datatype Session = Session(
    enemy: Grid<Cell>,
    player: Grid<Cell>,
    orientation: Orientation,
    started: bool,
    over: bool,
    timer: int,
    ships: Counters,
    revealed: seq<(int, int)>,
    scores: Option<seq<int>>)

  /** The state the page starts from when nothing is saved. */
  function InitialSession(scores: Option<seq<int>>): (s: Session)
    ensures IsBoard(s.enemy) && IsBoard(s.player)
    ensures forall r, c :: InBounds(r, c) ==> s.enemy[r][c] == Empty && s.player[r][c] == Empty
    ensures !s.started && !s.over && s.timer == 0 && s.revealed == []
    ensures s.orientation == Horizontal && s.ships == InitialCounters
  {
    Session(CreateEmptyGrid(), CreateEmptyGrid(), Horizontal, false, false, 0, InitialCounters, [], scores)
  }

  /** The loop of the page's `isValidPlacement` from the `i`-th cell on. */
  function DropFree(row: int, col: int, len: int, o: Orientation, grid: Grid<Cell>, i: int): (ok: bool)
    requires IsBoard(grid) && InBounds(row, col) && FitsEdge(row, col, len, o) && 0 <= i
    ensures ok <==> forall k :: i <= k < len ==> FreeCell(grid, ShipCell(row, col, o, k))
    decreases len - i
  {
    if i >= len then true
    else if o == Horizontal && grid[row][col + i] != Empty then
      assert !FreeCell(grid, ShipCell(row, col, o, i));
      false
    else if o == Vertical && grid[row + i][col] != Empty then
      assert !FreeCell(grid, ShipCell(row, col, o, i));
      false
    else DropFree(row, col, len, o, grid, i + 1)
  }

  /** The page's own `isValidPlacement`: refuse a ship running off the right
      or bottom edge, then require every covered cell to be "empty". */
  function IsValidDrop(row: int, col: int, len: int, o: Orientation, grid: Grid<Cell>): (ok: bool)
    requires IsBoard(grid) && InBounds(row, col)
    ensures ok <==> FitsEdge(row, col, len, o)
                    && forall i :: 0 <= i < len ==> FreeCell(grid, ShipCell(row, col, o, i))
  {
    if o == Horizontal && col + len > Size then false
    else if o == Vertical && row + len > Size then false
    else DropFree(row, col, len, o, grid, 0)
  }

  /** On a drop target the page's validator and the shared one agree. */
  lemma ValidatorsAgree(row: int, col: int, len: int, o: Orientation, grid: Grid<Cell>)
    requires IsBoard(grid) && InBounds(row, col)
    ensures IsValidDrop(row, col, len, o, grid) == IsValidPlacement(grid, row, col, len, o)
  {
  }

  /** Writing a validated ship of "ship" cells adds exactly its footprint
      to the ship cells, which grow by its length. */
  lemma ShipCellsAfterWrite(grid: Grid<Cell>, row: int, col: int, len: nat, o: Orientation)
    requires IsBoard(grid) && InBounds(row, col) && IsValidDrop(row, col, len, o, grid)
    ensures CellsOf(WriteShip(grid, row, col, len, o, Ship), Ship) == CellsOf(grid, Ship) + Footprint(row, col, len, o)
    ensures |CellsOf(WriteShip(grid, row, col, len, o, Ship), Ship)| == |CellsOf(grid, Ship)| + len
  {
    var fp := Footprint(row, col, len, o);
    var g := WriteShip(grid, row, col, len, o, Ship);
    forall p | p in fp ensures FreeCell(grid, p) {
      var i :| 0 <= i < len && ShipCell(row, col, o, i) == p;
    }
    forall p | p in CellsOf(g, Ship) ensures p in CellsOf(grid, Ship) + fp {
      assert InBounds(p.0, p.1);
    }
    forall p | p in CellsOf(grid, Ship) + fp ensures p in CellsOf(g, Ship) {
      assert InBounds(p.0, p.1);
      assert g[p.0][p.1] == Ship;
    }
    assert CellsOf(g, Ship) == CellsOf(grid, Ship) + fp;
    assert CellsOf(grid, Ship) !! fp;
    FootprintSize(row, col, len, o);
  }

  /** `placeRandomShip` for one accepted draw: the page's validator decides
      and the footprint becomes "ship". `None` is a draw the loop rejects. */
  function PlaceRandomShip(grid: Grid<Cell>, len: nat, pick: Pick): (r: Option<Grid<Cell>>)
    requires IsBoard(grid) && InBounds(pick.row, pick.col)
    ensures r.Some? <==> IsValidDrop(pick.row, pick.col, len, pick.o, grid)
    ensures r.Some? ==> IsBoard(r.value)
                        && CellsOf(r.value, Ship) == CellsOf(grid, Ship) + Footprint(pick.row, pick.col, len, pick.o)
                        && |CellsOf(r.value, Ship)| == |CellsOf(grid, Ship)| + len
  {
    if IsValidDrop(pick.row, pick.col, len, pick.o, grid) then
      ShipCellsAfterWrite(grid, pick.row, pick.col, len, pick.o);
      Some(WriteShip(grid, pick.row, pick.col, len, pick.o, Ship))
    else None
  }

  function TotalLength(lengths: seq<nat>): nat {
    if |lengths| == 0 then 0 else lengths[0] + TotalLength(lengths[1..])
  }

  /** The `forEach` of `initializeEnemyShips`, one accepted draw per ship:
      the ship cells grow by the fleet's total length. */
  function PlaceEnemyShips(grid: Grid<Cell>, lengths: seq<nat>, picks: seq<Pick>): (r: Option<Grid<Cell>>)
    requires IsBoard(grid) && |picks| == |lengths|
    requires forall k :: 0 <= k < |picks| ==> InBounds(picks[k].row, picks[k].col)
    ensures r.Some? ==> IsBoard(r.value)
    ensures r.Some? ==> |CellsOf(r.value, Ship)| == |CellsOf(grid, Ship)| + TotalLength(lengths)
    decreases |lengths|
  {
    if |lengths| == 0 then Some(grid)
    else
      match PlaceRandomShip(grid, lengths[0], picks[0])
      case None => None
      case Some(next) => PlaceEnemyShips(next, lengths[1..], picks[1..])
  }

  /** `initializeEnemyShips`: the enemy board holds 17 "ship" cells, so
      unlike the named fleet of `createGridWithShips` it is not over yet. */
  function InitializeEnemyShips(picks: seq<Pick>): (r: Option<Grid<Cell>>)
    requires |picks| == |EnemyFleet|
    requires forall k :: 0 <= k < |picks| ==> InBounds(picks[k].row, picks[k].col)
    ensures r.Some? ==> IsBoard(r.value) && |CellsOf(r.value, Ship)| == 17
    ensures r.Some? ==> !CheckIfGameOver(r.value)
  {
    var empty := CreateEmptyGrid();
    assert CellsOf(empty, Ship) == {};
    var r := PlaceEnemyShips(empty, EnemyFleet, picks);
    if r.Some? then
      assert Holds(r.value, Ship) by {
        var p :| p in CellsOf(r.value, Ship);
        assert r.value[p.0][p.1] == Ship;
      }
      r
    else r
  }

  /** The counter update of a successful drop: one less ship of that length,
      never below zero. */
  function Decrement(ships: Counters, len: int): (t: Counters)
    ensures t.Keys == ships.Keys
    ensures forall k :: k in ships && k != len ==> t[k] == ships[k]
    ensures len in ships && ships[len] > 0 ==> t[len] == ships[len] - 1
    ensures len in ships && ships[len] <= 0 ==> t[len] == ships[len]
  {
    if len in ships && ships[len] > 0 then ships[len := ships[len] - 1] else ships
  }

  /** `handleDrop`: a valid drop writes "ship" into the footprint and counts
      the ship off; an invalid one changes nothing. A zero counter does not
      block the drop. */
  function Drop(s: Session, row: int, col: int, len: int, o: Orientation): (t: Session)
    requires IsBoard(s.player) && InBounds(row, col)
    ensures !IsValidDrop(row, col, len, o, s.player) ==> t == s
    ensures IsValidDrop(row, col, len, o, s.player) ==>
      && IsBoard(t.player)
      && (forall r, c :: InBounds(r, c) ==>
            t.player[r][c] == (if (r, c) in Footprint(row, col, len, o) then Ship else s.player[r][c]))
      && t.ships == Decrement(s.ships, len)
      && t == s.(player := t.player, ships := t.ships)
  {
    if IsValidDrop(row, col, len, o, s.player) then
      s.(player := WriteShip(s.player, row, col, len, o, Ship), ships := Decrement(s.ships, len))
    else s
  }

  /** Counters that start non-negative stay non-negative through any drop. */
  lemma DropKeepsCountersNonNegative(s: Session, row: int, col: int, len: int, o: Orientation)
    requires IsBoard(s.player) && InBounds(row, col)
    requires forall k :: k in s.ships ==> s.ships[k] >= 0
    ensures forall k :: k in Drop(s, row, col, len, o).ships ==> Drop(s, row, col, len, o).ships[k] >= 0
  {
  }

  /** `allShipsPlaced`: every counter is zero. */
  predicate AllShipsPlaced(ships: Counters) {
    forall k :: k in ships ==> ships[k] == 0
  }

  /** Counting off the fleet 5, 4, 3, 3, 2 from the initial counters empties them. */
  lemma FleetEmptiesCounters()
    ensures AllShipsPlaced(Decrement(Decrement(Decrement(Decrement(Decrement(
              InitialCounters, 5), 4), 3), 3), 2))
    ensures !AllShipsPlaced(InitialCounters)
  {
    assert InitialCounters[5] == 1;
  }

  /** The Start button, shown only before the start: it sets the started
      flag to whether every counter is zero. */
  function StartGame(s: Session): (t: Session)
    ensures t.started <==> s.started || AllShipsPlaced(s.ships)
    ensures t == s.(started := t.started)
  {
    if s.started then s else s.(started := AllShipsPlaced(s.ships))
  }

  /** The orientation button. */
  function ToggleOrientation(s: Session): (t: Session)
    ensures t.orientation != s.orientation
    ensures t == s.(orientation := t.orientation)
  {
    s.(orientation := if s.orientation == Horizontal then Vertical else Horizontal)
  }

  /** Pressing the orientation button twice restores the page. */
  lemma ToggleTwice(s: Session)
    ensures ToggleOrientation(ToggleOrientation(s)) == s
  {
  }

  /** `handleEnemyClick`. Ignored before the start, after the end, or on a
      cell already clicked; otherwise the cell is revealed and resolved, and
      the game ends (saving the time as a high score) once no "ship" cell
      remains on the enemy board. */
  function EnemyClick(s: Session, row: int, col: int): (t: Session)
    requires IsBoard(s.enemy) && InBounds(row, col)
    ensures (!s.started || s.over || (row, col) in s.revealed) ==> t == s
    ensures !(!s.started || s.over || (row, col) in s.revealed) ==>
      && t.revealed == s.revealed + [(row, col)]
      && SameExcept(s.enemy, t.enemy, row, col)
      && t.enemy[row][col] == (match s.enemy[row][col]
                              case Ship => Hit
                              case Empty => Miss
                              case other => other)
      && (t.over <==> !Holds(t.enemy, Ship))
      && (t.over ==> t.scores == Some(HighScoreStore.SaveHighScore(s.scores, s.timer)))
      && (!t.over ==> t.scores == s.scores)
      && t == s.(revealed := t.revealed, enemy := t.enemy, over := t.over, scores := t.scores)
  {
    if !s.started || s.over || (row, col) in s.revealed then s
    else
      var cell := s.enemy[row][col];
      var enemy := if cell == Ship then Set(s.enemy, row, col, Hit)
                   else if cell == Empty then Set(s.enemy, row, col, Miss)
                   else s.enemy;
      var over := CheckIfGameOver(enemy);
      s.(revealed := s.revealed + [(row, col)],
         enemy := enemy,
         over := over,
         scores := if over then Some(HighScoreStore.SaveHighScore(s.scores, s.timer)) else s.scores)
  }

  /** The game mode held by the page's context. */
  datatype Mode = Normal | Free

  /** The AI's answer, scheduled after every accepted click in normal mode:
      `aiAttackPlayer` on the player's board at the drawn cell. `None` is a
      draw the source's loop rejects and draws again. */
  function AiReply(s: Session, mode: Mode, row: int, col: int): (r: Option<Session>)
    requires IsBoard(s.player) && InBounds(row, col)
    ensures mode == Free ==> r == Some(s)
    ensures mode == Normal ==>
      (r.Some? <==> s.player[row][col] == Empty || s.player[row][col] == Ship)
    ensures mode == Normal && r.Some? ==>
      && SameExcept(s.player, r.value.player, row, col)
      && r.value.player[row][col] == (if s.player[row][col] == Empty then Miss else Hit)
      && r.value == s.(player := r.value.player)
  {
    if mode == Free then Some(s)
    else
      match AiAttackPlayer(s.player, row, col)
      case None => None
      case Some(g) => Some(s.(player := g))
  }

  /** A second click on the same cell changes nothing. */
  lemma ClickIsIdempotent(s: Session, row: int, col: int)
    requires IsBoard(s.enemy) && InBounds(row, col)
    ensures var t := EnemyClick(s, row, col);
      IsBoard(t.enemy) && EnemyClick(t, row, col) == t
  {
  }
}
