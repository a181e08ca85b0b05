/** The older revision of the multiplayer game. Fire always marks "X" and
    refuses any cell that is not null, "S" included, and a grid is won only
    when every cell is null or "X": once a ship is placed on a grid, no shot
    can ever win it. */
module ServerGames {
  import opened Outcomes
  import opened Grids
  import opened Documents

  datatype Game = Game(
    players: seq<string>,
    status: Status,
    currentTurn: Option<string>,
    grid1: Grid<Mark>,
    grid2: Grid<Mark>,
    history: seq<Move>,
    winner: Option<Option<string>>)   // the `{ username }` object the handler stores

  predicate WellFormed(g: Game) {
    IsBoard(g.grid1) && IsBoard(g.grid2)
  }

  /** A cell this revision's `checkWin` accepts. */
  predicate Cleared(m: Mark) {
    m == Null || m == X
  }

  /** `checkWin`: every cell is null or "X". */
  function CheckWin(grid: Grid<Mark>): (won: bool)
    ensures won <==> forall r, c :: 0 <= r < |grid| && 0 <= c < |grid[r]| ==> Cleared(grid[r][c])
  {
    if |grid| == 0 then true
    else if S in grid[0] || O in grid[0] then false
    else
      assert forall c :: 0 <= c < |grid[0]| ==> Cleared(grid[0][c]);
      assert forall r, c :: 1 <= r < |grid| && 0 <= c < |grid[r]| ==> grid[1..][r - 1][c] == grid[r][c];
      CheckWin(grid[1..])
  }

  /** A grid holding a ship cell is never won. */
  lemma ShipBlocksWin(grid: Grid<Mark>, r: int, c: int)
    requires 0 <= r < |grid| && 0 <= c < |grid[r]| && grid[r][c] == S
    ensures !CheckWin(grid)
  {
  }

  /** POST /new: the creator alone, holding the turn, on two empty grids. */
  function Create(creator: string): (g: Game)
    ensures g.players == [creator]
    ensures g.status == Open
    ensures g.currentTurn == Some(creator)
    ensures WellFormed(g)
    ensures forall i, j :: InBounds(i, j) ==> g.grid1[i][j] == Null && g.grid2[i][j] == Null
    ensures g.history == [] && g.winner == None
  {
    Game([creator], Open, Some(creator), Fill(Null), Fill(Null), [], None)
  }

  /** POST /:id/join: refused exactly when two players are already in. */
  function Join(g: Game, joiner: string): (r: Result<Game>)
    ensures r.Err? <==> |g.players| >= 2
    ensures r.Err? ==> r.error == GameNotAvailable
    ensures r.Ok? ==>
      && r.value.players == g.players + [joiner]
      && r.value.status == Active
      && r.value.currentTurn == g.currentTurn
      && r.value.grid1 == g.grid1 && r.value.grid2 == g.grid2
      && r.value.history == g.history && r.value.winner == g.winner
  {
    if |g.players| >= 2 then Err(GameNotAvailable)
    else Ok(g.(players := g.players + [joiner], status := Active))
  }

  /** POST /:id/place: the grid replaces the slot of each matching player.
      A body without a name (`None`) matches the slots past the end of the
      player list, since `undefined === undefined`. */
  function Place(g: Game, username: Option<string>, grid: Grid<Mark>): (r: Result<Game>)
    ensures username.Some? ==>
      (r.Err? <==> forall i :: 0 <= i < |g.players| && i < 2 ==> g.players[i] != username.value)
    ensures username.None? ==> (r.Err? <==> |g.players| >= 2)
    ensures r.Err? ==> r.error == NotAPlayer
    ensures r.Ok? ==>
      && r.value.grid1 == (if (0 < |g.players| && Some(g.players[0]) == username)
                              || (|g.players| == 0 && username.None?) then grid else g.grid1)
      && r.value.grid2 == (if (1 < |g.players| && Some(g.players[1]) == username)
                              || (|g.players| <= 1 && username.None?) then grid else g.grid2)
      && r.value == g.(grid1 := r.value.grid1, grid2 := r.value.grid2)
  {
    var isPlayer1 := PlayerAt(g.players, 0) == username;
    var isPlayer2 := PlayerAt(g.players, 1) == username;
    if !isPlayer1 && !isPlayer2 then Err(NotAPlayer)
    else
      var g1 := if isPlayer1 then g.(grid1 := grid) else g;
      Ok(if isPlayer2 then g1.(grid2 := grid) else g1)
  }

  /** A body without a name is accepted on a game still waiting for its
      second player, and the grid lands in the empty second slot. */
  lemma PlaceWithoutNameFillsEmptySlot(a: string, grid: Grid<Mark>)
    ensures var g := Create(a);
      var r := Place(g, None, grid);
      && r.Ok?
      && r.value.grid2 == grid
      && r.value.grid1 == g.grid1
  {
  }

  /** The shot goes to player 2's grid exactly when player 1 holds the turn. */
  predicate TargetsSecond(g: Game)
    requires |g.players| > 0
  {
    g.currentTurn == Some(g.players[0])
  }

  function Target(g: Game): Grid<Mark>
    requires |g.players| > 0
  {
    if TargetsSecond(g) then g.grid2 else g.grid1
  }

  /** POST /:id/fire. The shooter is whoever holds the turn. */
  function Fire(g: Game, row: int, col: int): (r: Result<Game>)
    requires WellFormed(g) && InBounds(row, col)
    ensures g.status != Active ==> r == Err(InvalidGameState)
    ensures g.status == Active && |g.players| == 0 ==> r == Err(ServerError)
    ensures r.Ok? <==> g.status == Active && |g.players| > 0 && Target(g)[row][col] == Null
    ensures (g.status == Active && |g.players| > 0 && Target(g)[row][col] != Null) ==> r == Err(CellAlreadyTargeted)
    ensures r.Ok? ==>
      var h := r.value;
      && WellFormed(h)
      && (TargetsSecond(g) ==> h.grid1 == g.grid1 && h.grid2[row][col] == X && SameExcept(g.grid2, h.grid2, row, col))
      && (!TargetsSecond(g) ==> h.grid2 == g.grid2 && h.grid1[row][col] == X && SameExcept(g.grid1, h.grid1, row, col))
      && h.history == g.history + [Shot(g.currentTurn, row, col)]
      && h.players == g.players
    ensures r.Ok? ==>
      var attacked := if TargetsSecond(g) then r.value.grid2 else r.value.grid1;
      && (CheckWin(attacked) ==> r.value.status == Completed && r.value.winner == Some(g.currentTurn)
                                 && r.value.currentTurn == g.currentTurn)
      && (!CheckWin(attacked) ==> r.value.status == Active && r.value.winner == g.winner
                                  && r.value.currentTurn == Opponent(g.players, g.currentTurn))
  {
    if g.status != Active then Err(InvalidGameState)
    else
      var opponent := Opponent(g.players, g.currentTurn);
      if |g.players| == 0 then Err(ServerError)
      else
        var target := Target(g);
        if target[row][col] != Null then Err(CellAlreadyTargeted)
        else
          var shot := Set(target, row, col, X);
          var placed := if TargetsSecond(g) then g.(grid2 := shot) else g.(grid1 := shot);
          var logged := placed.(history := g.history + [Shot(g.currentTurn, row, col)]);
          if CheckWin(shot) then Ok(logged.(status := Completed, winner := Some(g.currentTurn)))
          else Ok(logged.(currentTurn := opponent))
  }

  /** Fire never changes a ship cell of either grid. */
  lemma FireKeepsShips(g: Game, row: int, col: int, i: int, j: int)
    requires WellFormed(g) && InBounds(row, col) && InBounds(i, j)
    requires Fire(g, row, col).Ok?
    ensures g.grid1[i][j] == S ==> Fire(g, row, col).value.grid1[i][j] == S
    ensures g.grid2[i][j] == S ==> Fire(g, row, col).value.grid2[i][j] == S
  {
  }

  /** A successful fire whose attacked grid held a ship never completes the game. */
  lemma {:induction false} ShipGridNeverWon(g: Game, row: int, col: int, i: int, j: int)
    requires WellFormed(g) && InBounds(row, col) && InBounds(i, j)
    requires |g.players| > 0 && Target(g)[i][j] == S
    requires Fire(g, row, col).Ok?
    ensures Fire(g, row, col).value.status == Active
    ensures Fire(g, row, col).value.winner == g.winner
  {
    var h := Fire(g, row, col).value;
    var attacked := if TargetsSecond(g) then h.grid2 else h.grid1;
    FireKeepsShips(g, row, col, i, j);
    ShipBlocksWin(attacked, i, j);
  }

  /** A grid nobody placed ships on is lost to the very first shot. */
  lemma UnplacedGridLostAtFirstShot(g: Game, row: int, col: int)
    requires WellFormed(g) && InBounds(row, col)
    requires g.status == Active && |g.players| > 0
    requires forall i, j :: InBounds(i, j) ==> Target(g)[i][j] == Null
    ensures Fire(g, row, col).Ok?
    ensures Fire(g, row, col).value.status == Completed
    ensures Fire(g, row, col).value.winner == Some(g.currentTurn)
  {
    var h := Fire(g, row, col).value;
    var attacked := if TargetsSecond(g) then h.grid2 else h.grid1;
    forall r, c | 0 <= r < |attacked| && 0 <= c < |attacked[r]|
      ensures Cleared(attacked[r][c])
    {
      assert InBounds(r, c);
    }
  }

  /** The game after a sequence of fire requests; a refused request leaves
      the game as it was. */
  function Volley(g: Game, shots: seq<(int, int)>): (h: Game)
    requires WellFormed(g)
    requires forall k :: 0 <= k < |shots| ==> InBounds(shots[k].0, shots[k].1)
    ensures WellFormed(h) && h.players == g.players
    decreases |shots|
  {
    if |shots| == 0 then g
    else
      var r := Fire(g, shots[0].0, shots[0].1);
      Volley(if r.Ok? then r.value else g, shots[1..])
  }

  /** Once both players have placed at least one ship, no sequence of shots
      ever ends an active game: the ship cells survive every shot. */
  lemma {:induction false} PlacedGamesNeverEnd(g: Game, shots: seq<(int, int)>,
                                                 p1: (int, int), p2: (int, int))
    requires WellFormed(g) && g.status == Active && |g.players| > 0
    requires forall k :: 0 <= k < |shots| ==> InBounds(shots[k].0, shots[k].1)
    requires InBounds(p1.0, p1.1) && g.grid1[p1.0][p1.1] == S
    requires InBounds(p2.0, p2.1) && g.grid2[p2.0][p2.1] == S
    ensures Volley(g, shots).status == Active
    decreases |shots|
  {
    if |shots| > 0 {
      var (row, col) := shots[0];
      var r := Fire(g, row, col);
      var next := if r.Ok? then r.value else g;
      if r.Ok? {
        FireKeepsShips(g, row, col, p1.0, p1.1);
        FireKeepsShips(g, row, col, p2.0, p2.1);
        if TargetsSecond(g) {
          ShipGridNeverWon(g, row, col, p2.0, p2.1);
        } else {
          ShipGridNeverWon(g, row, col, p1.0, p1.1);
        }
      }
      PlacedGamesNeverEnd(next, shots[1..], p1, p2);
    }
  }

  /** The shape every game reached through create, join, place and fire
      keeps: 10×10 boards, at most two players, both present once the game
      is active, and the turn held by one of them. */
  predicate InPlay(g: Game) {
    && WellFormed(g)
    && |g.players| <= 2
    && (g.status == Active ==> |g.players| == 2)
    && g.currentTurn.Some? && g.currentTurn.value in g.players
  }

  /** A game joined by its own creator: two entries with the same name. */
  predicate SelfJoined(g: Game) {
    |g.players| == 2 && g.players[0] == g.players[1]
  }

  lemma CreateEstablishesInPlay(creator: string)
    ensures InPlay(Create(creator))
  {
  }

  lemma JoinKeepsInPlay(g: Game, joiner: string)
    requires InPlay(g) && Join(g, joiner).Ok?
    ensures InPlay(Join(g, joiner).value)
  {
  }

  /** Placing keeps the shape as long as the placed grid is a 10×10 board. */
  lemma PlaceKeepsInPlay(g: Game, username: Option<string>, grid: Grid<Mark>)
    requires InPlay(g) && IsBoard(grid) && Place(g, username, grid).Ok?
    ensures InPlay(Place(g, username, grid).value)
  {
  }

  /** An accepted shot keeps the shape, except on a self-joined game, where a
      shot that does not win finds no opponent and leaves the turn undefined. */
  lemma FireKeepsInPlay(g: Game, row: int, col: int)
    requires InPlay(g) && InBounds(row, col) && Fire(g, row, col).Ok?
    ensures !SelfJoined(g) ==> InPlay(Fire(g, row, col).value)
    ensures SelfJoined(g) ==>
      (InPlay(Fire(g, row, col).value) <==> Fire(g, row, col).value.status == Completed)
  {
    if !SelfJoined(g) {
      assert g.players == [g.players[0], g.players[1]];
      OpponentOfTwo(g.players[0], g.players[1]);
    }
  }

  /** The opening of a game between two distinct players: the creator holds
      the turn with the joiner as opponent, and each player's placement fills
      exactly that player's slot. */
  lemma TwoPlayerOpening(a: string, b: string, gridA: Grid<Mark>, gridB: Grid<Mark>)
    requires a != b && IsBoard(gridA) && IsBoard(gridB)
    ensures Join(Create(a), b).Ok?
    ensures var j := Join(Create(a), b).value;
      && j.players == [a, b] && j.status == Active && j.currentTurn == Some(a)
      && Opponent(j.players, j.currentTurn) == Some(b)
      && InPlay(j)
    ensures var j := Join(Create(a), b).value;
      && Place(j, Some(a), gridA) == Ok(j.(grid1 := gridA))
      && Place(j, Some(b), gridB) == Ok(j.(grid2 := gridB))
    ensures var j := Join(Create(a), b).value;
      var k := Place(j, Some(a), gridA).value;
      && Place(k, Some(b), gridB) == Ok(j.(grid1 := gridA, grid2 := gridB))
      && InPlay(Place(k, Some(b), gridB).value)
  {
    OpponentOfTwo(a, b);
  }
}
