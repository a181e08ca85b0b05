/** The multiplayer lobby page: the five lists it derives from the fetched
    games for the signed-in user (or for nobody, when signed out), and the
    players line of each game card. */
module Lobby {
  import opened Outcomes
  import opened Documents

  /** A game as the lobby receives it: `players` is `None` when the field is
      not an array. Players are reduced to their usernames. */
  datatype Listing = Listing(status: Status, players: Option<seq<string>>)

  /** `Array.prototype.filter`. */
  function Filter(s: seq<Listing>, p: Listing -> bool): (r: seq<Listing>)
    ensures |r| <= |s|
    ensures forall x :: x in r <==> x in s && p(x)
    decreases |s|
  {
    if |s| == 0 then []
    else if p(s[0]) then [s[0]] + Filter(s[1..], p)
    else Filter(s[1..], p)
  }

  /** Filtering keeps the original order: it distributes over concatenation. */
  lemma {:induction false} FilterAppend(a: seq<Listing>, b: seq<Listing>, p: Listing -> bool)
    ensures Filter(a + b, p) == Filter(a, p) + Filter(b, p)
    decreases |a|
  {
    if |a| > 0 {
      assert (a + b)[1..] == a[1..] + b;
      FilterAppend(a[1..], b, p);
    } else {
      assert a + b == b;
    }
  }

  /** `p.username === user?.username` for some player. A signed-out user
      matches no player. */
  predicate Plays(players: seq<string>, user: Option<string>) {
    user.Some? && user.value in players
  }

  /** The "Open Games" test. */
  predicate IsOpen(g: Listing, user: Option<string>) {
    g.status == Open && g.players.Some? && !Plays(g.players.value, user)
  }

  /** The "My Open Games" test: `players[0]?.username === user?.username`,
      where both sides may be undefined. */
  predicate IsMyOpen(g: Listing, user: Option<string>) {
    g.status == Open && g.players.Some? && PlayerAt(g.players.value, 0) == user
  }

  predicate IsMyActive(g: Listing, user: Option<string>) {
    g.status == Active && g.players.Some? && Plays(g.players.value, user)
  }

  predicate IsMyCompleted(g: Listing, user: Option<string>) {
    g.status == Completed && g.players.Some? && Plays(g.players.value, user)
  }

  /** The "Other Games" test: a started or finished game the user is not in. */
  predicate IsOther(g: Listing, user: Option<string>) {
    (g.status == Active || g.status == Completed) && g.players.Some? && !Plays(g.players.value, user)
  }

  /** The games the three started-or-finished lists draw from. */
  predicate IsPlayed(g: Listing) {
    (g.status == Active || g.status == Completed) && g.players.Some?
  }

  function OpenGames(games: seq<Listing>, user: Option<string>): (r: seq<Listing>)
    ensures forall g :: g in r <==> g in games && g.status == Open && g.players.Some?
                                    && (user.None? || user.value !in g.players.value)
  {
    Filter(games, g => IsOpen(g, user))
  }

  function MyOpenGames(games: seq<Listing>, user: Option<string>): (r: seq<Listing>)
    ensures forall g :: g in r <==> g in games && g.status == Open && g.players.Some?
                                    && (if |g.players.value| == 0 then user.None?
                                        else user == Some(g.players.value[0]))
  {
    Filter(games, g => IsMyOpen(g, user))
  }

  function MyActiveGames(games: seq<Listing>, user: Option<string>): (r: seq<Listing>)
    ensures forall g :: g in r <==> g in games && g.status == Active && g.players.Some?
                                    && user.Some? && user.value in g.players.value
  {
    Filter(games, g => IsMyActive(g, user))
  }

  function MyCompletedGames(games: seq<Listing>, user: Option<string>): (r: seq<Listing>)
    ensures forall g :: g in r <==> g in games && g.status == Completed && g.players.Some?
                                    && user.Some? && user.value in g.players.value
  {
    Filter(games, g => IsMyCompleted(g, user))
  }

  /** The second filter of "Other Games". */
  predicate Absent(g: Listing, user: Option<string>) {
    g.players.Some? && !Plays(g.players.value, user)
  }

  /** "Other Games", filtered twice as the page does. */
  function OtherGames(games: seq<Listing>, user: Option<string>): (r: seq<Listing>)
    ensures forall g :: g in r <==> g in games && g.status != Open && g.players.Some?
                                    && (user.None? || user.value !in g.players.value)
  {
    Filter(Filter(games, IsPlayed), (g: Listing) => Absent(g, user))
  }

  /** The two filters of "Other Games" act as one: same games, same order. */
  lemma {:induction false} OtherGamesOneFilter(games: seq<Listing>, user: Option<string>)
    ensures OtherGames(games, user) == Filter(games, (g: Listing) => IsOther(g, user))
    decreases |games|
  {
    if |games| > 0 {
      OtherGamesOneFilter(games[1..], user);
    }
  }

  /** For a signed-in user no game is both open to join and their own open
      game: their own game lists them first. */
  lemma OpenListsDisjoint(games: seq<Listing>, user: string, g: Listing)
    ensures !(g in OpenGames(games, Some(user)) && g in MyOpenGames(games, Some(user)))
  {
    if g in MyOpenGames(games, Some(user)) {
      assert g.players.value[0] == user;
    }
  }

  /** Signed out, an open game with no players shows up in both open lists. */
  lemma SignedOutSeesEmptyGameTwice()
    ensures var g := Listing(Open, Some([]));
      g in OpenGames([g], None) && g in MyOpenGames([g], None)
  {
  }

  /** Each started or finished game lands in exactly one of "My Active",
      "My Completed" and "Other", and a signed-out user sees all of them
      under "Other". */
  lemma PlayedGamesPartitioned(games: seq<Listing>, user: Option<string>, g: Listing)
    requires g in games && IsPlayed(g)
    ensures (g in MyActiveGames(games, user)) || (g in MyCompletedGames(games, user))
            || (g in OtherGames(games, user))
    ensures !(g in MyActiveGames(games, user) && g in MyCompletedGames(games, user))
    ensures !(g in MyActiveGames(games, user) && g in OtherGames(games, user))
    ensures !(g in MyCompletedGames(games, user) && g in OtherGames(games, user))
    ensures user.None? ==> g in OtherGames(games, user)
  {
  }

  /** The three lists together hold as many cards as there are started or
      finished games. */
  lemma {:induction false} PlayedCount(games: seq<Listing>, user: Option<string>)
    ensures |MyActiveGames(games, user)| + |MyCompletedGames(games, user)| + |OtherGames(games, user)|
            == |Filter(games, IsPlayed)|
    decreases |games|
  {
    if |games| > 0 {
      var g, rest := games[0], games[1..];
      assert games == [g] + rest;
      PlayedCount(rest, user);
      FilterAppend([g], rest, g => IsMyActive(g, user));
      FilterAppend([g], rest, g => IsMyCompleted(g, user));
      FilterAppend([g], rest, IsPlayed);
      FilterAppend([g], rest, (g: Listing) => IsOther(g, user));
      OtherGamesOneFilter(games, user);
      OtherGamesOneFilter(rest, user);
    }
  }

  /** The summed length of the names. */
  function TotalLength(names: seq<string>): nat {
    if |names| == 0 then 0 else |names[0]| + TotalLength(names[1..])
  }

  /** `Array.prototype.join`: the names in order with `sep` between
      neighbours. */
  function JoinWith(names: seq<string>, sep: string): (line: string)
    ensures |names| == 0 ==> line == ""
    ensures |names| >= 1 ==> |line| == TotalLength(names) + |sep| * (|names| - 1)
    ensures |names| >= 1 ==> line[..|names[0]|] == names[0]
    ensures |names| >= 2 ==> line[..|names[0]| + |sep|] == names[0] + sep
    decreases |names|
  {
    if |names| == 0 then ""
    else if |names| == 1 then names[0]
    else
      var line := names[0] + sep + JoinWith(names[1..], sep);
      assert line[..|names[0]|] == names[0];
      assert line[..|names[0]| + |sep|] == names[0] + sep;
      line
  }

  /** Joining two non-empty lists is joining each and putting one separator
      between the halves; with the one-name case this fixes the line for any
      number of names. */
  lemma {:induction false} JoinWithAppend(a: seq<string>, b: seq<string>, sep: string)
    requires |a| >= 1 && |b| >= 1
    ensures JoinWith(a + b, sep) == JoinWith(a, sep) + sep + JoinWith(b, sep)
    decreases |a|
  {
    assert (a + b)[0] == a[0];
    if |a| == 1 {
      assert (a + b)[1..] == b;
    } else {
      assert (a + b)[1..] == a[1..] + b;
      JoinWithAppend(a[1..], b, sep);
    }
  }

  /** The card's players line. */
  function PlayersLine(players: Option<seq<string>>): (line: string)
    ensures players.None? ==> line == "No players"
  {
    match players
    case None => "No players"
    case Some(names) => JoinWith(names, " vs ")
  }

  lemma TwoPlayersLine(a: string, b: string)
    ensures PlayersLine(Some([a, b])) == a + " vs " + b
  {
    assert [a, b][1..] == [b];
    assert JoinWith([b], " vs ") == b;
    assert JoinWith([a, b], " vs ") == a + " vs " + JoinWith([b], " vs ");
  }
}
