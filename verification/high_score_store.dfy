/** The browser-storage helpers of the single-player game: the saved game
    state and the top-five list of finishing times (smaller is better).
    Storage is a record of the two keys; `None` is a key never written. */
module HighScoreStore {
  import opened Outcomes

  /** How many scores the list keeps. */
  const MaxScores: nat := 5

  datatype Store<S> = Store(battleshipGame: Option<S>, highScores: Option<seq<int>>)

  predicate SortedAsc(s: seq<int>) {
    forall i, j :: 0 <= i < j < |s| ==> s[i] <= s[j]
  }

  function Insert(x: int, s: seq<int>): (r: seq<int>)
    requires SortedAsc(s)
    ensures SortedAsc(r)
    ensures multiset(r) == multiset(s) + multiset{x}
  {
    if |s| == 0 || x <= s[0] then [x] + s
    else
      assert s == [s[0]] + s[1..];
      var rest := Insert(x, s[1..]);
      HeadBelowRest(x, s, rest);
      [s[0]] + rest
  }

  /** The head of an ascending list is no larger than the rest of it, nor
      than a larger element inserted into that rest. */
  lemma HeadBelowRest(x: int, s: seq<int>, rest: seq<int>)
    requires SortedAsc(s) && |s| > 0 && s[0] < x
    requires multiset(rest) == multiset(s[1..]) + multiset{x}
    ensures forall k :: 0 <= k < |rest| ==> s[0] <= rest[k]
  {
    forall k | 0 <= k < |rest| ensures s[0] <= rest[k] {
      assert rest[k] in multiset(rest);
      if rest[k] != x {
        assert rest[k] in multiset(s[1..]);
        var m :| 0 <= m < |s[1..]| && s[1..][m] == rest[k];
        assert s[m + 1] == rest[k];
      }
    }
  }

  /** `sort((a, b) => a - b)`: numeric ascending order. */
  function SortAscending(s: seq<int>): (r: seq<int>)
    ensures SortedAsc(r)
    ensures multiset(r) == multiset(s)
  {
    if |s| == 0 then []
    else
      assert s == [s[0]] + s[1..];
      Insert(s[0], SortAscending(s[1..]))
  }

  /** A sorted arrangement of a multiset is unique, so any correct sort
      returns what `SortAscending` returns. */
  lemma {:induction false} SortedUnique(a: seq<int>, b: seq<int>)
    requires SortedAsc(a) && SortedAsc(b) && multiset(a) == multiset(b)
    ensures a == b
    decreases |a|
  {
    assert |a| == |multiset(a)| == |multiset(b)| == |b|;
    if |a| > 0 {
      HeadsAgree(a, b);
      var a', b' := a[1..], b[1..];
      assert a == [a[0]] + a';
      assert b == [b[0]] + b';
      assert multiset(a') == multiset(b') by {
        assert multiset(a) == multiset{a[0]} + multiset(a');
        assert multiset(b) == multiset{b[0]} + multiset(b');
        assert multiset(a') == multiset(a) - multiset{a[0]};
        assert multiset(b') == multiset(b) - multiset{b[0]};
      }
      SortedUnique(a', b');
    }
  }

  /** Two ascending arrangements of one multiset start with its minimum. */
  lemma HeadsAgree(a: seq<int>, b: seq<int>)
    requires SortedAsc(a) && SortedAsc(b) && multiset(a) == multiset(b) && |a| > 0 && |b| > 0
    ensures a[0] == b[0]
  {
    assert a[0] in multiset(b);
    assert b[0] in multiset(a);
    var i :| 0 <= i < |b| && b[i] == a[0];
    var j :| 0 <= j < |a| && a[j] == b[0];
  }

  /** The first `k` of an ascending list are no larger than anything left out. */
  lemma PrefixOfSorted(t: seq<int>, k: nat)
    requires SortedAsc(t) && k <= |t|
    ensures SortedAsc(t[..k])
    ensures multiset(t[..k]) <= multiset(t)
    ensures forall x, y :: x in t[..k] && y in multiset(t) - multiset(t[..k]) ==> x <= y
  {
    assert t == t[..k] + t[k..];
    assert multiset(t) == multiset(t[..k]) + multiset(t[k..]);
    assert multiset(t) - multiset(t[..k]) == multiset(t[k..]);
    forall x, y | x in t[..k] && y in multiset(t) - multiset(t[..k]) ensures x <= y {
      assert y in t[k..];
      var l :| 0 <= l < k && t[l] == x;
      var m :| 0 <= m < |t[k..]| && t[k..][m] == y;
      assert t[k + m] == y;
    }
  }

  function Min(a: int, b: int): int {
    if a < b then a else b
  }

  /** `getHighScores`: the stored list, or `[]` when nothing is stored. */
  function GetHighScores<S>(st: Store<S>): (r: seq<int>)
    ensures st.highScores.None? ==> r == []
    ensures st.highScores.Some? ==> r == st.highScores.value
  {
    match st.highScores
    case None => []
    case Some(s) => s
  }

  /** `saveHighScore`: append, sort ascending, keep the first five. */
  function SaveHighScore(stored: Option<seq<int>>, score: int): (r: seq<int>)
    ensures var all := (if stored.Some? then stored.value else []) + [score];
      && |r| == Min(|all|, MaxScores)
      && SortedAsc(r)
      && multiset(r) <= multiset(all)
      && (forall x, y :: x in r && y in multiset(all) - multiset(r) ==> x <= y)
      && (|all| <= MaxScores ==> score in r)
  {
    var all := (if stored.Some? then stored.value else []) + [score];
    var sorted := SortAscending(all);
    var k := Min(|sorted|, MaxScores);
    PrefixOfSorted(sorted, k);
    assert |all| <= MaxScores ==> sorted[..k] == sorted;
    assert score in multiset(all);
    sorted[..k]
  }

  /** The kept list is the first five of ANY ascending arrangement of the old
      list plus the new score: the five smallest. */
  lemma KeepsSmallestFive(stored: Option<seq<int>>, score: int, t: seq<int>)
    requires SortedAsc(t)
    requires multiset(t) == multiset((if stored.Some? then stored.value else []) + [score])
    ensures SaveHighScore(stored, score) == t[..Min(|t|, MaxScores)]
  {
    var all := (if stored.Some? then stored.value else []) + [score];
    SortedUnique(SortAscending(all), t);
  }

  /** Saving to storage: the new list replaces the stored one. */
  function RecordHighScore<S>(st: Store<S>, score: int): (st': Store<S>)
    ensures st'.battleshipGame == st.battleshipGame
    ensures st'.highScores.Some?
    ensures |st'.highScores.value| <= MaxScores
    ensures var all := (if st.highScores.Some? then st.highScores.value else []) + [score];
      var kept := st'.highScores.value;
      && |kept| == Min(|all|, MaxScores)
      && SortedAsc(kept)
      && multiset(kept) <= multiset(all)
      && (forall x, y :: x in kept && y in multiset(all) - multiset(kept) ==> x <= y)
    ensures st'.highScores == Some(SaveHighScore(st.highScores, score))
  {
    st.(highScores := Some(SaveHighScore(st.highScores, score)))
  }

  /** `saveGameState`. */
  function SaveGameState<S>(st: Store<S>, state: S): (st': Store<S>)
    ensures st'.highScores == st.highScores
  {
    st.(battleshipGame := Some(state))
  }

  /** `loadGameState`: the stored state, or null when nothing is stored. */
  function LoadGameState<S>(st: Store<S>): (r: Option<S>)
    ensures st.battleshipGame.None? ==> r.None?
  {
    st.battleshipGame
  }

  /** `clearGameState`. */
  function ClearGameState<S>(st: Store<S>): (st': Store<S>)
    ensures LoadGameState(st') == None
    ensures st'.highScores == st.highScores
  {
    st.(battleshipGame := None)
  }

  /** Saving a state and loading it returns that state; the score list is
      not touched. */
  lemma SaveThenLoad<S>(st: Store<S>, state: S)
    ensures LoadGameState(SaveGameState(st, state)) == Some(state)
    ensures GetHighScores(SaveGameState(st, state)) == GetHighScores(st)
  {
  }
}
