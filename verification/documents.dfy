/** Vocabulary of the persisted multiplayer game document, shared by the
    two server-side revisions and by the lobby. */
module Documents {
  import opened Outcomes

  /** The letter-coded cell: `null`, "S" (ship), "X" (hit), "O" (miss). */
  datatype Mark = Null | S | X | O

  /** The `status` enum of the Game schema. */
  datatype Status = Open | Active | Completed

  /** A history entry: an attack `{username, x: row, y: col}` or a skipped turn
      `{username, skipped: true, timestamp}`. The name is `None` when the
      handler pushed `undefined`. */
  datatype Move =
    | Shot(player: Option<string>, x: int, y: int)
    | Skipped(player: Option<string>, at: int)

  /** `players[i]?.username`. */
  function PlayerAt(players: seq<string>, i: nat): (p: Option<string>)
    ensures p.Some? <==> i < |players|
    ensures p.Some? ==> p.value == players[i]
  {
    if i < |players| then Some(players[i]) else None
  }

  /** `players.find(p => p.username !== turn)?.username`: the first player
      whose name differs from the turn. */
  function Opponent(players: seq<string>, turn: Option<string>): (o: Option<string>)
    ensures o.None? <==> forall i :: 0 <= i < |players| ==> Some(players[i]) == turn
    ensures o.Some? ==> exists i :: 0 <= i < |players| && players[i] == o.value
                                   && (forall j :: 0 <= j < i ==> Some(players[j]) == turn)
    ensures o.Some? ==> Some(o.value) != turn
  {
    if |players| == 0 then None
    else if Some(players[0]) != turn then Some(players[0])
    else
      var rest := Opponent(players[1..], turn);
      assert rest.Some? ==> exists i :: 0 <= i < |players[1..]| && players[1..][i] == rest.value
                                      && (forall j :: 0 <= j < i ==> Some(players[1..][j]) == turn);
      if rest.Some? then
        var i :| 0 <= i < |players[1..]| && players[1..][i] == rest.value
                 && (forall j :: 0 <= j < i ==> Some(players[1..][j]) == turn);
        assert players[i + 1] == rest.value;
        assert forall j :: 0 <= j < i + 1 ==> Some(players[j]) == turn by {
          forall j | 0 <= j < i + 1 ensures Some(players[j]) == turn {
            if j > 0 { assert players[j] == players[1..][j - 1]; }
          }
        }
        rest
      else
        assert forall i :: 0 <= i < |players| ==> Some(players[i]) == turn by {
          forall i | 0 <= i < |players| ensures Some(players[i]) == turn {
            if i > 0 { assert players[i] == players[1..][i - 1]; }
          }
        }
        rest
  }

  /** In a two-player game whose turn names one player, the opponent is the
      other one. */
  lemma OpponentOfTwo(a: string, b: string)
    requires a != b
    ensures Opponent([a, b], Some(a)) == Some(b)
    ensures Opponent([a, b], Some(b)) == Some(a)
  {
  }
}
