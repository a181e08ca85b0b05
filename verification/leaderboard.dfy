/** The multiplayer leaderboard order: most wins first, then fewest losses,
    then usernames in alphabetical order. The two score routes and the
    scores page each sort with this comparator. */
module Leaderboard {
  /** One leaderboard row: the selected fields of a user. */
  datatype Score = Score(username: string, wins: nat, losses: nat)

  /** A stand-in for `localeCompare`: plain lexicographic order of code
      points, as a sign. */
  function StrCompare(a: string, b: string): (c: int)
    ensures -1 <= c <= 1
    ensures |a| == 0 && |b| == 0 ==> c == 0
    decreases |a|
  {
    if |a| == 0 && |b| == 0 then 0
    else if |a| == 0 then -1
    else if |b| == 0 then 1
    else if a[0] < b[0] then -1
    else if a[0] > b[0] then 1
    else StrCompare(a[1..], b[1..])
  }

  lemma {:induction false} StrCompareZero(a: string, b: string)
    ensures StrCompare(a, b) == 0 <==> a == b
    decreases |a|
  {
    if |a| > 0 && |b| > 0 && a[0] == b[0] {
      StrCompareZero(a[1..], b[1..]);
      if a[1..] == b[1..] {
        assert a == [a[0]] + a[1..] && b == [b[0]] + b[1..];
      }
    }
  }

  lemma {:induction false} StrCompareAntisymmetric(a: string, b: string)
    ensures StrCompare(b, a) == -StrCompare(a, b)
    decreases |a|
  {
    if |a| > 0 && |b| > 0 && a[0] == b[0] {
      StrCompareAntisymmetric(a[1..], b[1..]);
    }
  }

  lemma {:induction false} StrCompareTransitive(a: string, b: string, c: string)
    requires StrCompare(a, b) <= 0 && StrCompare(b, c) <= 0
    ensures StrCompare(a, c) <= 0
    decreases |a|
  {
    if |a| > 0 && |b| > 0 && |c| > 0 && a[0] == b[0] && b[0] == c[0] {
      StrCompareTransitive(a[1..], b[1..], c[1..]);
    }
  }

  /** The comparator the routes and the page pass to `sort`. */
  function Compare(a: Score, b: Score): int {
    if b.wins != a.wins then b.wins - a.wins
    else if a.losses != b.losses then a.losses - b.losses
    else StrCompare(a.username, b.username)
  }

  /** `a` may stand before `b`. */
  predicate Le(a: Score, b: Score) {
    Compare(a, b) <= 0
  }

  /** The comparator says "equal" only of equal rows. */
  lemma CompareZero(a: Score, b: Score)
    ensures Compare(a, b) == 0 <==> a == b
  {
    StrCompareZero(a.username, b.username);
  }

  lemma CompareAntisymmetric(a: Score, b: Score)
    ensures Compare(b, a) == -Compare(a, b)
  {
    StrCompareAntisymmetric(a.username, b.username);
  }

  lemma CompareTransitive(a: Score, b: Score, c: Score)
    requires Le(a, b) && Le(b, c)
    ensures Le(a, c)
  {
    if a.wins == b.wins == c.wins && a.losses == b.losses == c.losses {
      StrCompareTransitive(a.username, b.username, c.username);
    }
  }

  /** Ordered by the comparator, every pair and not just neighbours. */
  predicate Sorted(s: seq<Score>) {
    forall i, j :: 0 <= i < j < |s| ==> Le(s[i], s[j])
  }

  function Insert(x: Score, s: seq<Score>): (r: seq<Score>)
    requires Sorted(s)
    ensures Sorted(r)
    ensures multiset(r) == multiset(s) + multiset{x}
    decreases |s|
  {
    if |s| == 0 || Le(x, s[0]) then
      assert forall k :: 0 <= k < |s| ==> Le(x, s[k]) by {
        forall k | 0 <= k < |s| ensures Le(x, s[k]) {
          if k > 0 { CompareTransitive(x, s[0], s[k]); }
        }
      }
      [x] + s
    else
      assert s == [s[0]] + s[1..];
      var rest := Insert(x, s[1..]);
      assert forall k :: 0 <= k < |rest| ==> Le(s[0], rest[k]) by {
        forall k | 0 <= k < |rest| ensures Le(s[0], rest[k]) {
          assert rest[k] in multiset(rest);
          if rest[k] == x {
            CompareAntisymmetric(x, s[0]);
          } else {
            assert rest[k] in multiset(s[1..]);
            var m :| 0 <= m < |s[1..]| && s[1..][m] == rest[k];
            assert s[m + 1] == rest[k];
          }
        }
      }
      [s[0]] + rest
  }

  /** `sort` with the leaderboard comparator. */
  function Sort(s: seq<Score>): (r: seq<Score>)
    ensures Sorted(r)
    ensures multiset(r) == multiset(s)
    decreases |s|
  {
    if |s| == 0 then []
    else
      assert s == [s[0]] + s[1..];
      Insert(s[0], Sort(s[1..]))
  }

  /** Two arrangements of the same rows that both respect the comparator
      are one and the same list, so any correct `sort` agrees with `Sort`. */
  lemma {:induction false} SortedUnique(a: seq<Score>, b: seq<Score>)
    requires Sorted(a) && Sorted(b) && multiset(a) == multiset(b)
    ensures a == b
    decreases |a|
  {
    assert |a| == |multiset(a)| == |multiset(b)| == |b|;
    if |a| > 0 {
      HeadsAgree(a, b);
      var a', b' := a[1..], b[1..];
      assert a == [a[0]] + a';
      assert b == [b[0]] + b';
      assert multiset(a') == multiset(b') by {
        assert multiset(a') == multiset(a) - multiset{a[0]};
        assert multiset(b') == multiset(b) - multiset{b[0]};
      }
      SortedUnique(a', b');
    }
  }

  lemma HeadsAgree(a: seq<Score>, b: seq<Score>)
    requires Sorted(a) && Sorted(b) && multiset(a) == multiset(b) && |a| > 0 && |b| > 0
    ensures a[0] == b[0]
  {
    assert a[0] in multiset(b);
    assert b[0] in multiset(a);
    var i :| 0 <= i < |b| && b[i] == a[0];
    var j :| 0 <= j < |a| && a[j] == b[0];
    if i > 0 && j > 0 {
      assert Le(b[0], b[i]) && Le(a[0], a[j]);
      CompareAntisymmetric(a[0], b[0]);
      CompareZero(a[0], b[0]);
    }
  }

  /** The ranking depends only on the rows, not on the order the database
      returns them in. */
  lemma RankingIgnoresOrder(a: seq<Score>, b: seq<Score>)
    requires multiset(a) == multiset(b)
    ensures Sort(a) == Sort(b)
  {
    SortedUnique(Sort(a), Sort(b));
  }

  /** Sorting an already ranked list changes nothing: the page's second sort
      of the route's answer is the identity. */
  lemma ResortIsIdentity(s: seq<Score>)
    ensures Sort(Sort(s)) == Sort(s)
  {
    SortedUnique(Sort(Sort(s)), Sort(s));
  }

  /** What the order means row by row: wins never increase down the board,
      losses never decrease among equal wins, and usernames ascend among
      equal records. */
  lemma RankingMeaning(s: seq<Score>, i: int, j: int)
    requires Sorted(s) && 0 <= i < j < |s|
    ensures s[i].wins >= s[j].wins
    ensures s[i].wins == s[j].wins ==> s[i].losses <= s[j].losses
    ensures s[i].wins == s[j].wins && s[i].losses == s[j].losses ==>
              StrCompare(s[i].username, s[j].username) <= 0
  {
    assert Le(s[i], s[j]);
  }

  /** GET /api/scores of the backend revision. */
  function BackendRanking(rows: seq<Score>): (r: seq<Score>)
    ensures Sorted(r) && multiset(r) == multiset(rows)
  {
    Sort(rows)
  }

  /** GET /api/scores of the server revision: the same comparator. */
  function ServerRanking(rows: seq<Score>): (r: seq<Score>)
    ensures Sorted(r) && multiset(r) == multiset(rows)
  {
    Sort(rows)
  }

  /** The scores page's `sortedScores`. */
  function PageRanking(fetched: seq<Score>): (r: seq<Score>)
    ensures Sorted(r) && multiset(r) == multiset(fetched)
  {
    Sort(fetched)
  }

  /** The page shows the route's list exactly as the route ranked it. */
  lemma PageKeepsRouteOrder(rows: seq<Score>)
    ensures PageRanking(BackendRanking(rows)) == BackendRanking(rows)
    ensures PageRanking(ServerRanking(rows)) == ServerRanking(rows)
  {
    ResortIsIdentity(rows);
  }
}
