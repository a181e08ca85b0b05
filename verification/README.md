# Battleship game logic in Dafny

This project models the game logic of a Battleship web application, which
exists in several revisions side by side:

- **`BackendGames`** models the current multiplayer server (`backend/routes/games.js`).
  It covers create, join, place, fire, skip, start and the turn-clock tick.
  Each operation is a pure step over the game document and, for fire, over
  the user collection.
- **`ServerGames`** models the older multiplayer server (`server/routes/games.js`),
  which has different fire and win rules.
- **`OfflineLogic`** and **`OfflineGame`** model the single-player browser
  game: grid helpers, placement validation, the AI attack, drag-and-drop
  placement, enemy clicks and game-over detection.
- **`HighScoreStore`** models the browser-storage helpers: the saved game
  and the top-five list of finishing times.
- **`ShipPlacement`** and **`Lobby`** model two multiplayer pages: the
  ship-placement toggle page and the lobby's five game lists.
- **`Leaderboard`** models the leaderboard comparator and sort. The two
  score routes and the scores page each carry a copy.
- **`BackendAuth`** and **`ServerAuth`** model registration and login in
  both server revisions.
- **Shared modules:**
  - `Outcomes`: `Option`, `Result`, the failure vocabulary and HTTP status codes;
  - `Grids`: 10×10 boards;
  - `Documents`: the game document's vocabulary;
  - `Accounts`: the user collection as a map from username to account.

Each revision keeps its own cell encoding:

- The multiplayer revisions use `Mark = Null | S | X | O`.
- The offline game uses `Cell = Empty | Ship | Hit | Miss | Named(name)`.
  Its `createGridWithShips` writes ship names such as "5x1", not "ship".

Modelling conventions:

- **Missing values.** `None` stands for JavaScript's `undefined` or `null`.
  `currentTurn` is an `Option<string>` because two handlers can leave it undefined.
  A missing request string is usually the empty string. The register, join, create and fire handlers test such strings only with `!x`, lengths and comparisons with stored names, and these treat the two alike.
  The login handlers are the exception: they pass the value to the database query and to the hash comparison (see "Left out").
  The one exception is the `username` of `/place`. It is compared with `players[i]?.username`, which is undefined for a missing player, so it is an `Option<string>`.
- **String lengths.** JavaScript's `length` counts UTF-16 code units. The register route's length limits use `Utf16Length`, which counts a character outside the Basic Multilingual Plane twice.
- **Coordinates and boards.** Coordinates are required to lie in 0..9, and stored boards to be 10×10.
  The handlers never check this; beyond the board they fall back on JavaScript array semantics.
- **Randomness.** The random draws of the offline game become parameters.
  A draw that the source's retry loop would reject yields `None`.
- **Stores.** Databases and browser storage are immutable values passed in and returned.

Three behaviours are modelled as the code has them, not as the game's rules would lead a reader to expect:

- The backend fire handler has its turn check commented out, so any authenticated user may fire. The comment at backend/routes/games.js:213-215 calls this a temporary bypass that should be fixed.
- The backend skip handler does not hand the turn over (see Findings).
- A tick that finds the clock at zero completes the game (backend/routes/games.js:157) rather than passing the turn.

## Model

| member | source | states |
|---|---|---|
| Outcomes.HttpStatus | backend/routes/auth.js:44-79 | every failure maps to a 4xx/5xx code; 401 exactly for an unauthenticated request or an unknown login name, 409 exactly for a duplicate username |
| Grids.Fill | backend/routes/games.js:34-39 | the result is a 10×10 board every cell of which holds the fill value |
| Documents.PlayerAt | backend/routes/games.js:85-86 | `players[i]?.username` is defined exactly when `i` is an index, and then is that player |
| Documents.Opponent | backend/routes/games.js:224 | undefined exactly when every player's name equals the turn; otherwise the first player whose name differs, never the turn holder |
| Documents.OpponentOfTwo | backend/routes/games.js:224-229 | with two distinct players the opponent of either is the other |
| Accounts.NewAccount | backend/models/User.js:19-26 | a new account starts with 0 wins and 0 losses |
| Accounts.AddWin | backend/routes/games.js:286-289 | the named user's wins rise by one; an unknown name changes nothing; no other user changes |
| Accounts.AddLoss | backend/routes/games.js:291-294 | the named user's losses rise by one; an unknown name changes nothing; no other user changes |
| Accounts.RecordResult | backend/routes/games.js:285-294 | for every user, wins rise by one exactly for the winner and losses by one exactly for the loser; secrets and keys are kept |
| BackendGames.CheckWin | backend/routes/games.js:8-15 | a grid is won exactly when no cell holds "S" |
| BackendGames.EmptyGridIsWon | backend/routes/games.js:8-15 | a grid with no ships placed already counts as won |
| BackendGames.Create | backend/routes/games.js:24-42 | refused exactly when the body carries a one-element player list; otherwise an open game of the creator alone, holding the turn, two all-null 10×10 grids, empty history, no winner, 60 seconds |
| BackendGames.Join | backend/routes/games.js:61-65 | refused exactly when two players are already in; otherwise the joiner is appended and the game becomes active, with turn, grids, history and winner unchanged |
| BackendGames.Place | backend/routes/games.js:77-95 | a named body is refused exactly when the name is neither of the first two players. A body without a name is refused exactly when both slots are filled, because it matches an empty slot. Otherwise the matching slot(s) take the new grid and nothing else changes |
| BackendGames.PlaceWithoutNameFillsEmptySlot | backend/routes/games.js:85-95 | on a freshly created game, a body without a name is accepted and its grid lands in the empty second slot |
| BackendGames.CreateEstablishesInPlay | backend/routes/games.js:30-42 | a created game has 10×10 boards, one player and that player's turn |
| BackendGames.JoinKeepsInPlay | backend/routes/games.js:61-65 | a join keeps at most two players, brings an active game to exactly two, and keeps the turn with a player |
| BackendGames.PlaceKeepsInPlay | backend/routes/games.js:85-95 | placing a 10×10 grid keeps the boards, the players and the turn holder |
| BackendGames.FireKeepsInPlay | backend/routes/games.js:224-320 | every accepted shot leaves the turn with one of the players: a win keeps it, any other shot hands it to the opponent |
| BackendGames.SkipBreaksInPlay | backend/routes/games.js:341-357 | the skip handler as written is the step that leaves no player holding the turn |
| BackendGames.SkipIntendedKeepsInPlay | backend/routes/games.js:341-357 | the corrected skip keeps the turn with a player |
| BackendGames.TwoPlayerOpening | backend/routes/games.js:18-95 | create by `a` then join by `b != a` gives an active game `[a, b]` with `a`'s turn and `b` as opponent. Each player's placement replaces only that player's grid, and both placements together keep the game in shape |
| BackendGames.Requester | backend/routes/games.js:171-188 | the body's name when non-empty, else the token's; undefined exactly when neither is a non-empty name |
| BackendGames.Fire | backend/routes/games.js:185-322 | the failures in the handler's order (not authenticated, game not active, no opponent, cell already "X"/"O") and success exactly otherwise. On success, one cell of the grid opposite the turn goes "S"→"X" or else "O"; the other grid is untouched; one history entry names the requester. On a win: completed, winner is the requester, turn unchanged, and exactly the requester's wins and the opponent's losses rise by one, with every stored password hash kept. Otherwise: still active, the turn passes to the opponent, users unchanged |
| BackendGames.FireKeepsMarks | backend/routes/games.js:243-256 | a cell already marked "X" or "O" keeps its mark through any fire |
| BackendGames.OutOfTurnShotHitsOwnGrid | backend/routes/games.js:213-235 | with the turn check disabled, the player not holding the turn can fire; the shot lands on that player's own grid and can win the game for them |
| BackendGames.Skip | backend/routes/games.js:337-357 | refused unless the game is active and some player differs from the turn; otherwise one skipped entry for the turn holder is appended and the turn becomes undefined, nothing else changing |
| BackendGames.SkipIntended | backend/routes/games.js:341-357 | the same guards and history entry, with the turn handed to a player other than the previous turn holder |
| BackendGames.SkipLosesTurn | backend/routes/games.js:341-357 | in an ordinary two-player game, skip as written leaves nobody holding the turn, while the intended step gives it to the other player |
| BackendGames.SkipIntendedAlternates | backend/routes/games.js:341-357 | with two distinct players, the intended skip alternates the turn between them |
| BackendGames.Start | backend/routes/games.js:139-143 | refused exactly when the game is not active; a spent clock is reset to 60 and a running one left alone |
| BackendGames.StartRunsOut | backend/routes/games.js:139-162 | on an active game `/start` succeeds, leaving the clock at 60 if it was spent and unchanged otherwise; that many ticks count it down, and the next one completes the game with nothing else changed |
| BackendGames.Tick | backend/routes/games.js:152-161 | the clock counts down by one while the game is active with time left, otherwise the game is completed and the interval stops; nothing else changes |
| BackendGames.CountdownCompletes | backend/routes/games.js:148-162 | an active game with `t` seconds left counts down through `t` ticks and is completed at tick `t+1`, the clock never going negative |
| ServerGames.CheckWin | server/routes/games.js:7-14 | a grid is won exactly when every cell is null or "X" |
| ServerGames.ShipBlocksWin | server/routes/games.js:7-14 | a grid holding an "S" is never won |
| ServerGames.Create | server/routes/games.js:21-32 | an open game of the creator alone, holding the turn, with two all-null 10×10 grids, empty history and no winner |
| ServerGames.Join | server/routes/games.js:49-53 | refused exactly when two players are already in; otherwise the joiner is appended and the game becomes active |
| ServerGames.Place | server/routes/games.js:63-78 | a named body is refused exactly when the name is neither of the first two players. A body without a name is refused exactly when both slots are filled. Otherwise the matching slot(s) take the new grid and nothing else changes |
| ServerGames.PlaceWithoutNameFillsEmptySlot | server/routes/games.js:68-78 | on a freshly created game, a body without a name is accepted and its grid lands in the empty second slot |
| ServerGames.CreateEstablishesInPlay | server/routes/games.js:21-32 | a created game has 10×10 boards, one player and that player's turn |
| ServerGames.JoinKeepsInPlay | server/routes/games.js:49-53 | a join keeps at most two players, brings an active game to exactly two, and keeps the turn with a player |
| ServerGames.PlaceKeepsInPlay | server/routes/games.js:68-78 | placing a 10×10 grid keeps the boards, the players and the turn holder |
| ServerGames.FireKeepsInPlay | server/routes/games.js:118-139 | an accepted shot keeps the turn with a player, except on a game its creator joined: there a shot that does not win finds no opponent and leaves the turn undefined |
| ServerGames.TwoPlayerOpening | server/routes/games.js:17-78 | create by `a` then join by `b != a` gives an active game `[a, b]` with `a`'s turn and `b` as opponent. Each player's placement replaces only that player's grid, and both placements together keep the game in shape |
| ServerGames.Fire | server/routes/games.js:114-139 | refused unless active, a failure when there are no players, refused on any non-null cell ("S" included); success exactly otherwise. On success "X" is written into that cell of the grid opposite the turn and the history names the turn holder. A won grid completes the game with the turn holder as winner; otherwise the turn passes to the opponent |
| ServerGames.FireKeepsShips | server/routes/games.js:125-129 | no fire ever changes an "S" cell of either grid |
| ServerGames.ShipGridNeverWon | server/routes/games.js:125-139 | a fire on a grid holding an "S" never completes the game |
| ServerGames.UnplacedGridLostAtFirstShot | server/routes/games.js:129-136 | a grid without ships is lost to the first shot |
| ServerGames.PlacedGamesNeverEnd | server/routes/games.js:125-139 | once both grids hold an "S", no sequence of fire requests ever ends the game |
| OfflineLogic.CreateEmptyGrid | Yang-Liu-project2/src/utils/gameLogic.js:1-11 | ten rows of ten "empty" cells |
| OfflineLogic.FootprintSize | Yang-Liu-project2/src/utils/gameLogic.js:41-47 | a ship of length `n` covers exactly `n` distinct cells |
| OfflineLogic.FootprintFree | Yang-Liu-project2/src/utils/gameLogic.js:57-69 | the loop accepts exactly when every remaining footprint cell is on the board and "empty" |
| OfflineLogic.IsValidPlacement | Yang-Liu-project2/src/utils/gameLogic.js:53-70 | true exactly when the ship does not run past the right/bottom edge and every footprint cell is on the board and "empty" |
| OfflineLogic.ValidPlacementMeansFreeFootprint | Yang-Liu-project2/src/utils/gameLogic.js:53-70 | for a ship of length at least one, the validator accepts exactly when every cell of its footprint set is free |
| OfflineLogic.WriteShip | Yang-Liu-project2/src/utils/gameLogic.js:41-47 | exactly the footprint cells take the written value; every other cell is unchanged |
| OfflineLogic.PlaceShip | Yang-Liu-project2/src/utils/gameLogic.js:39-48 | a draw is accepted exactly when the validator passes; the ship's name then fills exactly its footprint |
| OfflineLogic.PlaceShipOccupies | Yang-Liu-project2/src/utils/gameLogic.js:39-48 | a placed ship occupies its footprint, previously empty, so the occupied cells grow by its length |
| OfflineLogic.PlaceFleetOccupies | Yang-Liu-project2/src/utils/gameLogic.js:13-28 | placing a fleet grows the occupied cells by the fleet's total length and writes no "ship" cell |
| OfflineLogic.CreateGridWithShips | Yang-Liu-project2/src/utils/gameLogic.js:13-28 | the 5,4,3,3,2 fleet occupies exactly 17 cells, and since they hold names the grid already counts as game over |
| OfflineLogic.AiAttackPlayer | Yang-Liu-project2/src/utils/gameLogic.js:73-91 | a draw lands exactly on an "empty" or "ship" cell, turning it into "miss" or "hit"; only that cell changes |
| OfflineLogic.AiAttackCanLand | Yang-Liu-project2/src/utils/gameLogic.js:77-88 | some draw lands exactly when some cell is still "empty" or "ship", which is when the retry loop can end |
| OfflineLogic.ShipCount | Yang-Liu-project2/src/utils/gameLogic.js:94-103 | the count of "ship" cells is zero exactly when no cell holds "ship" |
| OfflineLogic.CheckIfGameOver | Yang-Liu-project2/src/utils/gameLogic.js:94-104 | over exactly when no cell holds "ship" |
| OfflineGame.InitialSession | Yang-Liu-project2/src/pages/Game.jsx:22-38 | two empty boards, horizontal, not started, not over, timer 0, nothing revealed, counters 5x1:1, 4x1:1, 3x1:2, 2x1:1 |
| OfflineGame.DropFree | Yang-Liu-project2/src/pages/Game.jsx:49-52 | the page's loop accepts exactly when every remaining footprint cell is "empty" |
| OfflineGame.IsValidDrop | Yang-Liu-project2/src/pages/Game.jsx:45-54 | false past the right/bottom edge; otherwise true exactly when every footprint cell is "empty" |
| OfflineGame.ValidatorsAgree | Yang-Liu-project2/src/pages/Game.jsx:45-54 | the page's validator and the shared one agree on every board cell |
| OfflineGame.ShipCellsAfterWrite | Yang-Liu-project2/src/pages/Game.jsx:164-170 | writing a validated ship adds exactly its footprint to the "ship" cells, which grow by its length |
| OfflineGame.PlaceRandomShip | Yang-Liu-project2/src/pages/Game.jsx:154-174 | a draw is accepted exactly when the page's validator passes; the "ship" cells then grow by exactly the footprint |
| OfflineGame.PlaceEnemyShips | Yang-Liu-project2/src/pages/Game.jsx:125-132 | placing a list of ships grows the "ship" cells by the total length |
| OfflineGame.InitializeEnemyShips | Yang-Liu-project2/src/pages/Game.jsx:125-132 | the enemy fleet 5,4,3,3,2 yields exactly 17 "ship" cells, so the new enemy board is not over |
| OfflineGame.Decrement | Yang-Liu-project2/src/pages/Game.jsx:111-117 | the counter for the length drops by one only when positive; other counters and the key set are unchanged |
| OfflineGame.Drop | Yang-Liu-project2/src/pages/Game.jsx:96-119 | an invalid drop changes nothing; a valid one writes "ship" into exactly the footprint and counts the ship off, even at a zero counter; no other part of the page state changes, the orientation included |
| OfflineGame.DropKeepsCountersNonNegative | Yang-Liu-project2/src/pages/Game.jsx:111-117 | counters never go negative through a drop |
| OfflineGame.FleetEmptiesCounters | Yang-Liu-project2/src/pages/Game.jsx:28 | the initial counters are not all placed, and one drop per fleet length empties them |
| OfflineGame.StartGame | Yang-Liu-project2/src/pages/Game.jsx:231 | the game starts exactly when every counter is zero; nothing else changes |
| OfflineGame.ToggleOrientation | Yang-Liu-project2/src/pages/Game.jsx:121-123 | the orientation flips and nothing else changes |
| OfflineGame.ToggleTwice | Yang-Liu-project2/src/pages/Game.jsx:121-123 | toggling twice restores the page |
| OfflineGame.EnemyClick | Yang-Liu-project2/src/pages/Game.jsx:60-81 | ignored before the start, after the end or on a revealed cell. Otherwise the cell is revealed, "ship"→"hit", "empty"→"miss", any other value and all other cells unchanged; the game is over exactly when no "ship" remains, and then the time is saved as a high score. Board, counters, orientation, start flag and timer are unchanged |
| OfflineGame.AiReply | Yang-Liu-project2/src/pages/Game.jsx:83-87 | in normal mode the AI's draw lands on an "empty" or "ship" cell of the player's board and changes only it; in free mode nothing happens |
| OfflineGame.ClickIsIdempotent | Yang-Liu-project2/src/pages/Game.jsx:61-63 | a second click on the same cell changes nothing |
| HighScoreStore.Insert | Yang-Liu-project2/src/utils/localStorage.js:18 | inserting into an ascending list keeps it ascending and adds exactly the new element |
| HighScoreStore.SortAscending | Yang-Liu-project2/src/utils/localStorage.js:18 | the result is ascending and a permutation of the input |
| HighScoreStore.SortedUnique | Yang-Liu-project2/src/utils/localStorage.js:18 | two ascending permutations of the same list are equal |
| HighScoreStore.PrefixOfSorted | Yang-Liu-project2/src/utils/localStorage.js:19 | the first `k` of an ascending list are ascending, drawn from it, and no larger than anything left out |
| HighScoreStore.GetHighScores | Yang-Liu-project2/src/utils/localStorage.js:23-25 | the stored list, or `[]` when nothing is stored |
| HighScoreStore.SaveHighScore | Yang-Liu-project2/src/utils/localStorage.js:15-21 | the kept list has length min(n+1, 5), is ascending, is drawn from the old list plus the score, holds nothing larger than what it drops, and holds the score while fewer than five were stored |
| HighScoreStore.KeepsSmallestFive | Yang-Liu-project2/src/utils/localStorage.js:16-19 | the kept list is the first five of any ascending arrangement of the old list plus the score |
| HighScoreStore.RecordHighScore | Yang-Liu-project2/src/utils/localStorage.js:16-20 | the written list holds the five smallest of the old list plus the new score (all of them when fewer), in ascending order, and is exactly what SaveHighScore computes; the saved game is untouched |
| HighScoreStore.SaveGameState | Yang-Liu-project2/src/utils/localStorage.js:2-4 | saving the game leaves the score list alone |
| HighScoreStore.LoadGameState | Yang-Liu-project2/src/utils/localStorage.js:6-9 | null when nothing is stored |
| HighScoreStore.ClearGameState | Yang-Liu-project2/src/utils/localStorage.js:11-13 | afterwards nothing loads, and the scores are kept |
| HighScoreStore.SaveThenLoad | Yang-Liu-project2/src/utils/localStorage.js:2-9 | loading after saving returns the saved state; the scores are untouched |
| ShipPlacement.Initial | frontend/src/pages/ShipPlacement.jsx:10-15 | an all-null 10×10 grid with nothing placed |
| ShipPlacement.InitialConsistent | frontend/src/pages/ShipPlacement.jsx:10-16 | the initial counter equals the number of "S" cells |
| ShipPlacement.Toggle | frontend/src/pages/ShipPlacement.jsx:18-30 | an "S" cell becomes null and the count drops; another cell becomes "S" and the count rises unless five are placed, when nothing changes; no other cell changes |
| ShipPlacement.ToggleKeepsConsistent | frontend/src/pages/ShipPlacement.jsx:18-30 | every toggle keeps the counter equal to the number of "S" cells and within 0..5 |
| ShipPlacement.ClicksKeepConsistent | frontend/src/pages/ShipPlacement.jsx:15-30 | any sequence of clicks keeps that agreement |
| ShipPlacement.ReadyMeansFiveShips | frontend/src/pages/ShipPlacement.jsx:67 | when Ready is enabled the submitted grid holds exactly five "S" cells |
| ShipPlacement.ToggleTwiceRestores | frontend/src/pages/ShipPlacement.jsx:19-29 | clicking a null or "S" cell twice restores grid and counter when there is room to re-mark it |
| Lobby.Filter | frontend/src/pages/AllGames.jsx:85-90 | the result holds exactly the games passing the test, and is no longer than the input |
| Lobby.FilterAppend | frontend/src/pages/AllGames.jsx:85-119 | filtering distributes over concatenation, so each list keeps the fetched order |
| Lobby.OpenGames | frontend/src/pages/AllGames.jsx:85-90 | exactly the open games with a player array in which the user is not a player |
| Lobby.MyOpenGames | frontend/src/pages/AllGames.jsx:92-97 | exactly the open games with a player array whose first player is the user (signed out: whose array is empty) |
| Lobby.MyActiveGames | frontend/src/pages/AllGames.jsx:99-104 | exactly the active games in which the signed-in user plays |
| Lobby.MyCompletedGames | frontend/src/pages/AllGames.jsx:106-111 | exactly the completed games in which the signed-in user plays |
| Lobby.OtherGames | frontend/src/pages/AllGames.jsx:113-119 | exactly the active or completed games with a player array not containing the user |
| Lobby.OtherGamesOneFilter | frontend/src/pages/AllGames.jsx:113-119 | the two chained filters give the same list as one combined filter |
| Lobby.OpenListsDisjoint | frontend/src/pages/AllGames.jsx:85-97 | for a signed-in user no game is both open to join and their own open game |
| Lobby.SignedOutSeesEmptyGameTwice | frontend/src/pages/AllGames.jsx:85-97 | signed out, an open game with no players appears in both open lists |
| Lobby.PlayedGamesPartitioned | frontend/src/pages/AllGames.jsx:99-119 | every active or completed game lands in exactly one of "My Active", "My Completed" and "Other"; signed out, always "Other" |
| Lobby.PlayedCount | frontend/src/pages/AllGames.jsx:99-119 | the three lists together are as long as the active-or-completed games |
| Lobby.JoinWith | frontend/src/pages/AllGames.jsx:13 | the joined line is empty for no names, starts with the first name (then the separator), and is as long as the names plus one separator between each pair |
| Lobby.JoinWithAppend | frontend/src/pages/AllGames.jsx:13 | joining two non-empty lists gives the two joined halves with one separator between them, which fixes the line for any number of names |
| Lobby.PlayersLine | frontend/src/pages/AllGames.jsx:12-14 | "No players" when the field is not an array |
| Lobby.TwoPlayersLine | frontend/src/pages/AllGames.jsx:13 | two players read "a vs b" |
| Leaderboard.StrCompare | backend/routes/scores.js:16 | the name comparison is a sign in -1..1, and 0 for two empty names |
| Leaderboard.StrCompareZero | backend/routes/scores.js:16 | names compare equal exactly when identical |
| Leaderboard.StrCompareAntisymmetric | backend/routes/scores.js:16 | swapping names negates the comparison |
| Leaderboard.StrCompareTransitive | backend/routes/scores.js:16 | the name order is transitive |
| Leaderboard.CompareZero | backend/routes/scores.js:13-17 | the comparator returns 0 only for rows equal in name, wins and losses |
| Leaderboard.CompareAntisymmetric | backend/routes/scores.js:13-17 | swapping rows negates the comparator |
| Leaderboard.CompareTransitive | backend/routes/scores.js:13-17 | the comparator's order is transitive |
| Leaderboard.Insert | backend/routes/scores.js:13 | inserting into a ranked list keeps it ranked and adds exactly the row |
| Leaderboard.Sort | backend/routes/scores.js:13-17 | the result is ranked (every pair in comparator order) and a permutation of the input |
| Leaderboard.SortedUnique | backend/routes/scores.js:13 | two ranked permutations of the same rows are equal, so any correct sort gives the same list |
| Leaderboard.RankingIgnoresOrder | backend/routes/scores.js:9-13 | the ranking does not depend on the order the rows are fetched in |
| Leaderboard.RankingMeaning | backend/routes/scores.js:14-16 | down the board wins never increase, losses never decrease among equal wins, and names ascend among equal records |
| Leaderboard.BackendRanking | backend/routes/scores.js:13-17 | the answer is a ranked permutation of the users |
| Leaderboard.ServerRanking | server/routes/scores.js:10-14 | the answer is a ranked permutation of the users, by the same comparator |
| Leaderboard.PageRanking | frontend/src/pages/HighScores.jsx:25-29 | the page's list is a ranked permutation of the fetched scores |
| Leaderboard.ResortIsIdentity | frontend/src/pages/HighScores.jsx:25-29 | sorting a ranked list again changes nothing |
| Leaderboard.PageKeepsRouteOrder | frontend/src/pages/HighScores.jsx:13-29 | the page shows either route's answer in exactly the route's order |
| BackendAuth.Utf16Length | backend/routes/auth.js:27-37 | JavaScript's `length`: at least the number of characters and at most twice it, and equal to it when every character lies in the Basic Multilingual Plane |
| BackendAuth.ValidUsernameLength | backend/routes/auth.js:25-30 | a username that passes the test has 3 to 20 characters, since it is ASCII |
| BackendAuth.AstralPasswordAccepted | backend/routes/auth.js:37 | three emoji count as six code units and pass the password test |
| BackendAuth.Register | backend/routes/auth.js:22-51 | a bad username is reported first, then a bad password, then a taken name. Lengths are counted in UTF-16 code units. Success exactly otherwise, adding exactly the new user with 0 wins and losses and keeping every other account |
| BackendAuth.Login | backend/routes/auth.js:67-79 | an unknown name fails as not found, a failed password check as incorrect; success exactly otherwise, naming the user |
| BackendAuth.RegisterThenLogin | backend/routes/auth.js:44-79 | a newly registered user can log in with the password whose hash was stored |
| BackendAuth.RegisterTwiceRefused | backend/routes/auth.js:44-47 | registering a name a second time is refused as a duplicate |
| BackendAuth.RegisterKeepsLogins | backend/routes/auth.js:49-51 | registration leaves every existing user's login outcome unchanged |
| BackendAuth.LoginStatuses | backend/routes/auth.js:71-79 | a failed login answers 401 for an unknown name and 400 for a wrong password |
| ServerAuth.Register | server/routes/auth.js:9-25 | a missing field or mismatched confirmation is refused first, then a taken name; success exactly otherwise, adding exactly the new user |
| ServerAuth.Login | server/routes/auth.js:33-40 | success exactly for a known name whose password check passes; every failure is the same "invalid credentials" |
| ServerAuth.LoginHidesWhichCheckFailed | server/routes/auth.js:37-40 | an unknown name and a wrong password produce the identical 400 answer |
| ServerAuth.NewerRulesAreStricter | server/routes/auth.js:12-25 | whatever the newer revision registers, the older registers identically |
| ServerAuth.RegisterThenLogin | server/routes/auth.js:18-40 | a newly registered user can log in with the password whose hash was stored |

## Left out

- **Lookup by id.** `findById`/`findOne` and the "game not found" answers are left out. Every handler is given the document it would have loaded.
- **Schema validation and casting by the document store.** The model returns the document each handler builds; the store's own checks are left out:
  - Game schema: `currentTurn` is `required` and `winner` is a String.
  - User schema: minimum lengths.
  - With those checks, a skip that clears the turn, and an older-revision win whose winner is an object, would be refused at save time.
- **The double hash on save.** The pre-save hook of backend/models/User.js hashes an already hashed password again; this is left out. With the hook, a user registered through backend/routes/auth.js:49-50 would fail every later login with "Incorrect password", so BackendAuth.RegisterThenLogin holds only for the model without the hook.
- **Hashing, tokens and cookies.** bcrypt, JWT and cookies are left out.
  - The stored hash is a parameter, and the password comparison a function parameter.
  - `/logout`, `/me` and both auth middlewares are left out.
- **Timers.** The interval of `/start` is reduced to the single `Tick` step and its iteration `Countdown`.
  - The `/start` handler sends no response on success; responses are not modelled.
  - The offline game's timer component and the `setTimeout` that schedules the AI reply are left out.
- **Offline game persistence and reset.**
  - The effect that saves the page state to storage on every change is left out, as is its removal at game over; the high-score write is kept.
  - `resetGame` and the mode switch are left out.
- **Arbitrary stored values.** Cell strings other than the enumerated ones, orientations other than "horizontal"/"vertical", and drag data that does not parse are left out. In the source an unknown orientation passes the validator and is written vertically.
- **Revealed-cell keys.** The `"row-col"` string key of a revealed cell is modelled as the coordinate pair; the two are in one-to-one correspondence on the board.
- **`localeCompare`.** It is modelled as lexicographic comparison of code points; locale collation is left out.
- OfflineLogic.PlaceShip: the source draws the orientation once per ship and redraws only the anchor; the model takes the accepted draw as given and does not model non-termination when no anchor fits.
- BackendAuth.Login: a body without `username` or without `password` is modelled as if the empty string had been sent. In the source, `findOne({ username: undefined })` matches an arbitrary stored user, so the password is checked against that user's hash. And `bcrypt.compare(undefined, hash)` rejects, so the async handler sends no answer at all. The login page always sends both fields.
- ServerAuth.Login: the same two cases as BackendAuth.Login are modelled as if the empty string had been sent, for the same reasons (server/routes/auth.js:33-40).
- HighScoreStore.LoadGameState: a stored falsy value (such as `0` or `""`) loads as null in the source; the model returns any stored value.
- HighScoreStore.SaveThenLoad: holds because the model ignores that falsy case; the page only ever saves an object, which is never falsy.
- BackendGames.Fire: a row or column outside the board is not modelled (the handler would index outside the arrays).
- **Request handling.** Routing, HTTP responses beyond the failure tag, console logging, React rendering and navigation are left out.

## Findings

| source | as written | input that shows it | evidently intended | confidence | as-written member | corrected member |
|---|---|---|---|---|---|---|
| backend/routes/games.js:341-357 | `opponent` is already a username string, so `currentTurn = opponent.username` assigns undefined and the turn is not handed over | active game with players ["alice", "bob"] and turn "alice"; POST /skip | the turn passes to the opponent ("bob") | not executed | BackendGames.Skip (shown by BackendGames.SkipLosesTurn) | BackendGames.SkipIntended (proved by BackendGames.SkipIntendedAlternates) |
