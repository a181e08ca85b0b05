/** The current revision of the authoritative multiplayer game: each route
    handler is a pure step over the game document (and, for `fire`, the user
    collection). Quirks of the handlers are kept: the turn check of `fire` is
    disabled, and `skip` leaves the turn undefined. */
module BackendGames {
  import opened Outcomes
  import opened Grids
  import opened Documents
  import opened Accounts

  /** Seconds on a fresh turn clock. */
  const TurnSeconds: nat := 60

  datatype Game = Game(
    players: seq<string>,
    status: Status,
    currentTurn: Option<string>,
    grid1: Grid<Mark>,
    grid2: Grid<Mark>,
    history: seq<Move>,
    winner: Option<string>,
    timeLeft: nat)

  predicate WellFormed(g: Game) {
    IsBoard(g.grid1) && IsBoard(g.grid2)
  }

  /** `checkWin`: a grid is won once no cell still holds "S". */
  function CheckWin(grid: Grid<Mark>): (won: bool)
    ensures won <==> !Holds(grid, S)
  {
    if |grid| == 0 then true
    else if S in grid[0] then false
    else
      assert forall r, c :: 1 <= r < |grid| && 0 <= c < |grid[r]| ==> grid[1..][r - 1][c] == grid[r][c];
      CheckWin(grid[1..])
  }

  /** A grid where nobody has placed anything already counts as won. */
  lemma EmptyGridIsWon()
    ensures CheckWin(Fill(Null))
  {
  }

  /** POST /new. A body carrying a one-element `players` list is refused. */
  function Create(creator: string, bodyPlayers: Option<seq<string>>): (r: Result<Game>)
    ensures r.Err? <==> bodyPlayers.Some? && |bodyPlayers.value| == 1
    ensures r.Err? ==> r.error == SelfPlay
    ensures r.Ok? ==>
      && r.value.players == [creator]
      && r.value.status == Open
      && r.value.currentTurn == Some(creator)
      && WellFormed(r.value)
      && (forall i, j :: InBounds(i, j) ==> r.value.grid1[i][j] == Null && r.value.grid2[i][j] == Null)
      && r.value.history == []
      && r.value.winner == None
      && r.value.timeLeft == TurnSeconds
  {
    if bodyPlayers.Some? && |bodyPlayers.value| == 1 then Err(SelfPlay)
    else Ok(Game([creator], Open, Some(creator), Fill(Null), Fill(Null), [], None, TurnSeconds))
  }

  /** POST /:id/join. Only the player count is checked: neither the status
      nor a self-join is. */
  function Join(g: Game, joiner: string): (r: Result<Game>)
    ensures r.Err? <==> |g.players| >= 2
    ensures r.Err? ==> r.error == GameNotAvailable
    ensures r.Ok? ==>
      && r.value.players == g.players + [joiner]
      && r.value.status == Active
      && r.value.currentTurn == g.currentTurn
      && r.value.grid1 == g.grid1 && r.value.grid2 == g.grid2
      && r.value.history == g.history && r.value.winner == g.winner
      && r.value.timeLeft == g.timeLeft
  {
    if |g.players| >= 2 then Err(GameNotAvailable)
    else Ok(g.(players := g.players + [joiner], status := Active))
  }

  /** `players[i]?.username === username`: slot `i` is claimed by the body's
      name. A body without a name (`None`) claims every slot past the end of
      the player list, since `undefined === undefined`. */
  predicate Claims(players: seq<string>, i: nat, username: Option<string>) {
    PlayerAt(players, i) == username
  }

  /** POST /:id/place. The grid replaces the slot of every one of the first
      two players whose name matches (both slots on a self-joined game). A
      body without a name matches the empty slots. */
  function Place(g: Game, username: Option<string>, grid: Grid<Mark>): (r: Result<Game>)
    ensures username.Some? ==>
      (r.Err? <==> forall i :: 0 <= i < |g.players| && i < 2 ==> g.players[i] != username.value)
    ensures username.None? ==> (r.Err? <==> |g.players| >= 2)
    ensures r.Err? ==> r.error == NotAPlayer
    ensures r.Ok? ==>
      && r.value.grid1 == (if (0 < |g.players| && Some(g.players[0]) == username)
                              || (|g.players| == 0 && username.None?) then grid else g.grid1)
      && r.value.grid2 == (if (1 < |g.players| && Some(g.players[1]) == username)
                              || (|g.players| <= 1 && username.None?) then grid else g.grid2)
      && r.value == g.(grid1 := r.value.grid1, grid2 := r.value.grid2)
  {
    var isPlayer1 := Claims(g.players, 0, username);
    var isPlayer2 := Claims(g.players, 1, username);
    if !isPlayer1 && !isPlayer2 then Err(NotAPlayer)
    else
      var g1 := if isPlayer1 then g.(grid1 := grid) else g;
      Ok(if isPlayer2 then g1.(grid2 := grid) else g1)
  }

  /** A body without a name is accepted on a game still waiting for its
      second player, and the grid lands in the empty second slot. */
  lemma PlaceWithoutNameFillsEmptySlot(a: string, grid: Grid<Mark>)
    ensures var g := Create(a, None).value;
      var r := Place(g, None, grid);
      && r.Ok?
      && r.value.grid2 == grid
      && r.value.grid1 == g.grid1
  {
  }

  /** `bodyUsername || tokenUsername`: the first non-empty name. */
  function Requester(bodyUser: Option<string>, tokenUser: Option<string>): (u: Option<string>)
    ensures u.None? <==> (bodyUser.None? || bodyUser.value == "") && (tokenUser.None? || tokenUser.value == "")
    ensures bodyUser.Some? && bodyUser.value != "" ==> u == bodyUser
    ensures u.Some? ==> u.value != "" && (u == bodyUser || u == tokenUser)
  {
    if bodyUser.Some? && bodyUser.value != "" then bodyUser
    else if tokenUser.Some? && tokenUser.value != "" then tokenUser
    else None
  }

  /** The shot goes to player 2's grid exactly when player 1 holds the turn. */
  predicate TargetsSecond(g: Game) {
    PlayerAt(g.players, 0) == g.currentTurn
  }

  function Target(g: Game): Grid<Mark> {
    if TargetsSecond(g) then g.grid2 else g.grid1
  }

  /** The grid of `h` that a shot chosen from `g`'s turn lands on. */
  function Attacked(g: Game, h: Game): Grid<Mark> {
    if TargetsSecond(g) then h.grid2 else h.grid1
  }

  /** `after` is `before` with only (row, col) shot at: "S" becomes "X", any
      other value "O". */
  ghost predicate ShotAt(before: Grid<Mark>, after: Grid<Mark>, row: int, col: int)
    requires IsBoard(before) && InBounds(row, col)
  {
    && SameExcept(before, after, row, col)
    && after[row][col] == (if before[row][col] == S then X else O)
  }

  datatype Fired = Fired(game: Game, users: Users)

  /** POST /:id/fire. The turn check is commented out in the handler, so any
      authenticated user may fire; the grid is still chosen from the turn,
      while history and winner record the requester. */
  function Fire(g: Game, users: Users, bodyUser: Option<string>, tokenUser: Option<string>,
                row: int, col: int): (r: Result<Fired>)
    requires WellFormed(g) && InBounds(row, col)
    ensures Requester(bodyUser, tokenUser).None? ==> r == Err(NotAuthenticated)
    ensures Requester(bodyUser, tokenUser).Some? && g.status != Active ==> r == Err(InvalidGameState)
    ensures (Requester(bodyUser, tokenUser).Some? && g.status == Active
             && Opponent(g.players, g.currentTurn).None?) ==> r == Err(OpponentNotFound)
    ensures r.Ok? <==> (Requester(bodyUser, tokenUser).Some? && g.status == Active
                        && Opponent(g.players, g.currentTurn).Some?
                        && Target(g)[row][col] != X && Target(g)[row][col] != O)
    ensures (r.Err? && Requester(bodyUser, tokenUser).Some? && g.status == Active
             && Opponent(g.players, g.currentTurn).Some?) ==> r.error == CellAlreadyTargeted
    ensures r.Ok? ==>
      var h := r.value.game;
      && WellFormed(h)
      && (TargetsSecond(g) ==> h.grid1 == g.grid1 && ShotAt(g.grid2, h.grid2, row, col))
      && (!TargetsSecond(g) ==> h.grid2 == g.grid2 && ShotAt(g.grid1, h.grid1, row, col))
      && h.history == g.history + [Shot(Requester(bodyUser, tokenUser), row, col)]
      && h.players == g.players && h.timeLeft == g.timeLeft
    ensures r.Ok? && CheckWin(Attacked(g, r.value.game)) ==>
      var h := r.value.game;
      var loser := Opponent(g.players, g.currentTurn).value;
      var winner := Requester(bodyUser, tokenUser).value;
      && h.status == Completed
      && h.winner == Some(winner)
      && h.currentTurn == g.currentTurn
      && r.value.users.Keys == users.Keys
      && (forall n :: n in users ==>
            && r.value.users[n].secret == users[n].secret
            && r.value.users[n].wins == users[n].wins + (if n == winner then 1 else 0)
            && r.value.users[n].losses == users[n].losses + (if n == loser then 1 else 0))
    ensures r.Ok? && !CheckWin(Attacked(g, r.value.game)) ==>
      var h := r.value.game;
      && h.status == Active
      && h.winner == g.winner
      && h.currentTurn == Opponent(g.players, g.currentTurn)
      && r.value.users == users
  {
    var who := Requester(bodyUser, tokenUser);
    if who.None? then Err(NotAuthenticated)
    else if g.status != Active then Err(InvalidGameState)
    else
      var opponent := Opponent(g.players, g.currentTurn);
      if opponent.None? then Err(OpponentNotFound)
      else
        var target := Target(g);
        var cell := target[row][col];
        if cell == X || cell == O then Err(CellAlreadyTargeted)
        else
          var shot := Set(target, row, col, if cell == S then X else O);
          var placed := if TargetsSecond(g) then g.(grid2 := shot) else g.(grid1 := shot);
          var logged := placed.(history := g.history + [Shot(who, row, col)]);
          if CheckWin(shot) then
            Ok(Fired(logged.(status := Completed, winner := who),
                     RecordResult(users, who.value, opponent.value)))
          else
            Ok(Fired(logged.(currentTurn := opponent), users))
  }

  /** A cell already marked "X" or "O" keeps its mark through any fire. */
  lemma FireKeepsMarks(g: Game, users: Users, bodyUser: Option<string>, tokenUser: Option<string>,
                       row: int, col: int, i: int, j: int)
    requires WellFormed(g) && InBounds(row, col) && InBounds(i, j)
    requires Fire(g, users, bodyUser, tokenUser, row, col).Ok?
    ensures var h := Fire(g, users, bodyUser, tokenUser, row, col).value.game;
      && (g.grid1[i][j] in {X, O} ==> h.grid1[i][j] == g.grid1[i][j])
      && (g.grid2[i][j] in {X, O} ==> h.grid2[i][j] == g.grid2[i][j])
  {
  }

  /** With the turn check disabled, the player who does not hold the turn can
      fire, and the shot lands on that player's own grid. */
  lemma OutOfTurnShotHitsOwnGrid(users: Users)
    ensures var g := Game(["alice", "bob"], Active, Some("alice"), Fill(Null), Set(Fill(Null), 0, 0, S),
                          [], None, TurnSeconds);
      var r := Fire(g, users, Some("bob"), None, 0, 0);
      && r.Ok?
      && r.value.game.grid2[0][0] == X
      && r.value.game.status == Completed
      && r.value.game.winner == Some("bob")
  {
    var g := Game(["alice", "bob"], Active, Some("alice"), Fill(Null), Set(Fill(Null), 0, 0, S),
                  [], None, TurnSeconds);
    OpponentOfTwo("alice", "bob");
    var shot := Set(g.grid2, 0, 0, X);
    assert !Holds(shot, S) by {
      forall i, j | 0 <= i < |shot| && 0 <= j < |shot[i]| ensures shot[i][j] != S {
        assert InBounds(i, j);
      }
    }
  }

  /** POST /:id/skip as written. The opponent is looked up as a name, and the
      handler then assigns that name's `.username`, which is undefined: the
      turn is cleared instead of handed over. */
  function Skip(g: Game, now: int): (r: Result<Game>)
    ensures g.status != Active ==> r == Err(InvalidGameState)
    ensures g.status == Active && Opponent(g.players, g.currentTurn).None? ==> r == Err(OpponentNotFound)
    ensures r.Ok? <==> g.status == Active && Opponent(g.players, g.currentTurn).Some?
    ensures r.Ok? ==>
      && r.value.history == g.history + [Skipped(g.currentTurn, now)]
      && r.value.currentTurn == None
      && r.value.players == g.players && r.value.status == g.status
      && r.value.grid1 == g.grid1 && r.value.grid2 == g.grid2
      && r.value.winner == g.winner && r.value.timeLeft == g.timeLeft
  {
    if g.status != Active then Err(InvalidGameState)
    else
      var opponent := Opponent(g.players, g.currentTurn);
      if opponent.None? then Err(OpponentNotFound)
      else Ok(g.(history := g.history + [Skipped(g.currentTurn, now)], currentTurn := None))
  }

  /** Skip as evidently intended: the turn passes to the opponent. */
  function SkipIntended(g: Game, now: int): (r: Result<Game>)
    ensures g.status != Active ==> r == Err(InvalidGameState)
    ensures g.status == Active && Opponent(g.players, g.currentTurn).None? ==> r == Err(OpponentNotFound)
    ensures r.Ok? <==> g.status == Active && Opponent(g.players, g.currentTurn).Some?
    ensures r.Ok? ==>
      && r.value.history == g.history + [Skipped(g.currentTurn, now)]
      && r.value.currentTurn.Some?
      && r.value.currentTurn != g.currentTurn
      && r.value.currentTurn.value in g.players
      && r.value.players == g.players && r.value.status == g.status
      && r.value.grid1 == g.grid1 && r.value.grid2 == g.grid2
      && r.value.winner == g.winner && r.value.timeLeft == g.timeLeft
  {
    if g.status != Active then Err(InvalidGameState)
    else
      var opponent := Opponent(g.players, g.currentTurn);
      if opponent.None? then Err(OpponentNotFound)
      else Ok(g.(history := g.history + [Skipped(g.currentTurn, now)], currentTurn := opponent))
  }

  /** The discrepancy: in an ordinary two-player game the skip handler leaves
      nobody holding the turn, where the intended step hands it to the other
      player. */
  lemma SkipLosesTurn(now: int)
    ensures var g := Game(["alice", "bob"], Active, Some("alice"), Fill(Null), Fill(Null), [], None, TurnSeconds);
      && Skip(g, now).Ok? && Skip(g, now).value.currentTurn == None
      && SkipIntended(g, now).Ok? && SkipIntended(g, now).value.currentTurn == Some("bob")
  {
    OpponentOfTwo("alice", "bob");
  }

  /** With two distinct players, the intended skip alternates the turn. */
  lemma SkipIntendedAlternates(g: Game, now: int)
    requires g.status == Active && |g.players| == 2 && g.players[0] != g.players[1]
    requires g.currentTurn == Some(g.players[0]) || g.currentTurn == Some(g.players[1])
    ensures SkipIntended(g, now).Ok?
    ensures g.currentTurn == Some(g.players[0]) ==> SkipIntended(g, now).value.currentTurn == Some(g.players[1])
    ensures g.currentTurn == Some(g.players[1]) ==> SkipIntended(g, now).value.currentTurn == Some(g.players[0])
  {
    assert g.players == [g.players[0], g.players[1]];
    OpponentOfTwo(g.players[0], g.players[1]);
  }

  /** POST /:id/start: only an active game is started; a spent clock is reset. */
  function Start(g: Game): (r: Result<Game>)
    ensures r.Err? <==> g.status != Active
    ensures r.Err? ==> r.error == GameNotActive
    ensures r.Ok? ==> r.value.timeLeft > 0
    ensures r.Ok? && g.timeLeft > 0 ==> r.value == g
    ensures r.Ok? && g.timeLeft == 0 ==> r.value == g.(timeLeft := TurnSeconds)
  {
    if g.status != Active then Err(GameNotActive)
    else if g.timeLeft == 0 then Ok(g.(timeLeft := TurnSeconds))
    else Ok(g)
  }

  /** Starting an active game and letting its interval run out: the clock
      counts down from whatever `/start` left (60 when it was spent) and the
      game then ends completed with nothing else changed. */
  lemma StartRunsOut(g: Game)
    requires g.status == Active
    ensures Start(g).Ok?
    ensures var h := Start(g).value;
      && h.timeLeft == (if g.timeLeft == 0 then TurnSeconds else g.timeLeft)
      && Countdown(h, h.timeLeft + 1) == g.(timeLeft := 0, status := Completed)
  {
    CountdownCompletes(Start(g).value, 0);
  }

  /** What one run of the interval callback leaves, and whether the interval
      keeps running. */
  datatype Ticked = Ticked(game: Game, running: bool)

  /** One tick of the turn clock: count down while active with time left,
      otherwise mark the game completed and stop. */
  function Tick(g: Game): (t: Ticked)
    ensures t.running <==> g.status == Active && g.timeLeft > 0
    ensures t.running ==> t.game.timeLeft + 1 == g.timeLeft && t.game.status == g.status
    ensures !t.running ==> t.game.status == Completed && t.game.timeLeft == g.timeLeft
    ensures t.game.players == g.players && t.game.currentTurn == g.currentTurn
    ensures t.game.grid1 == g.grid1 && t.game.grid2 == g.grid2
    ensures t.game.history == g.history && t.game.winner == g.winner
  {
    if g.status == Active && g.timeLeft > 0 then Ticked(g.(timeLeft := g.timeLeft - 1), true)
    else Ticked(g.(status := Completed), false)
  }

  /** The game after `n` runs of the interval, which is cleared by the first
      tick that stops. */
  function Countdown(g: Game, n: nat): Game
    decreases n
  {
    if n == 0 then g
    else
      var t := Tick(g);
      if t.running then Countdown(t.game, n - 1) else t.game
  }

  /** An active game with `t` seconds left counts down for `t` ticks and is
      completed, with nothing else changed, by tick `t + 1`. */
  lemma {:induction false} CountdownCompletes(g: Game, n: nat)
    requires g.status == Active && n <= g.timeLeft
    ensures Countdown(g, n) == g.(timeLeft := g.timeLeft - n)
    ensures Countdown(g, g.timeLeft + 1) == g.(timeLeft := 0, status := Completed)
    decreases g.timeLeft
  {
    if g.timeLeft == 0 {
      assert Countdown(g, 1) == g.(status := Completed);
    } else {
      var next := g.(timeLeft := g.timeLeft - 1);
      assert Tick(g) == Ticked(next, true);
      if n > 0 {
        CountdownCompletes(next, n - 1);
      } else {
        CountdownCompletes(next, 0);
      }
    }
  }

  /** The shape every game reached through create, join, place and fire
      keeps: 10×10 boards, at most two players, both present once the game
      is active, and the turn held by one of them. */
  predicate InPlay(g: Game) {
    && WellFormed(g)
    && |g.players| <= 2
    && (g.status == Active ==> |g.players| == 2)
    && g.currentTurn.Some? && g.currentTurn.value in g.players
  }

  lemma CreateEstablishesInPlay(creator: string, bodyPlayers: Option<seq<string>>)
    requires Create(creator, bodyPlayers).Ok?
    ensures InPlay(Create(creator, bodyPlayers).value)
  {
  }

  lemma JoinKeepsInPlay(g: Game, joiner: string)
    requires InPlay(g) && Join(g, joiner).Ok?
    ensures InPlay(Join(g, joiner).value)
  {
  }

  /** Placing keeps the shape as long as the placed grid is a 10×10 board. */
  lemma PlaceKeepsInPlay(g: Game, username: Option<string>, grid: Grid<Mark>)
    requires InPlay(g) && IsBoard(grid) && Place(g, username, grid).Ok?
    ensures InPlay(Place(g, username, grid).value)
  {
  }

  /** Every accepted shot keeps the shape: a winning shot keeps the turn, any
      other hands it to the opponent, who is one of the players. */
  lemma FireKeepsInPlay(g: Game, users: Users, bodyUser: Option<string>, tokenUser: Option<string>,
                        row: int, col: int)
    requires InPlay(g) && InBounds(row, col)
    requires Fire(g, users, bodyUser, tokenUser, row, col).Ok?
    ensures InPlay(Fire(g, users, bodyUser, tokenUser, row, col).value.game)
  {
  }

  /** The skip handler as written is the one step that breaks the shape. */
  lemma SkipBreaksInPlay(g: Game, now: int)
    requires InPlay(g) && Skip(g, now).Ok?
    ensures !InPlay(Skip(g, now).value)
  {
  }

  /** The intended skip keeps it. */
  lemma SkipIntendedKeepsInPlay(g: Game, now: int)
    requires InPlay(g) && SkipIntended(g, now).Ok?
    ensures InPlay(SkipIntended(g, now).value)
  {
  }

  /** The opening of a game between two distinct players: the creator holds
      the turn with the joiner as opponent, and each player's placement fills
      exactly that player's slot. */
  lemma TwoPlayerOpening(a: string, b: string, gridA: Grid<Mark>, gridB: Grid<Mark>)
    requires a != b && IsBoard(gridA) && IsBoard(gridB)
    ensures Create(a, None).Ok? && Join(Create(a, None).value, b).Ok?
    ensures var j := Join(Create(a, None).value, b).value;
      && j.players == [a, b] && j.status == Active && j.currentTurn == Some(a)
      && Opponent(j.players, j.currentTurn) == Some(b)
      && InPlay(j)
    ensures var j := Join(Create(a, None).value, b).value;
      && Place(j, Some(a), gridA) == Ok(j.(grid1 := gridA))
      && Place(j, Some(b), gridB) == Ok(j.(grid2 := gridB))
    ensures var j := Join(Create(a, None).value, b).value;
      var k := Place(j, Some(a), gridA).value;
      && Place(k, Some(b), gridB) == Ok(j.(grid1 := gridA, grid2 := gridB))
      && InPlay(Place(k, Some(b), gridB).value)
  {
    OpponentOfTwo(a, b);
  }
}
