/** 10x10 boards as sequences of rows, generic in the cell encoding (each
    revision of the game has its own). */
module Grids {

  /** Side length of every board. */
  const Size: int := 10

  type Grid<T> = seq<seq<T>>

  predicate IsBoard<T>(g: Grid<T>) {
    |g| == Size && forall r :: 0 <= r < |g| ==> |g[r]| == Size
  }

  predicate InBounds(r: int, c: int) {
    0 <= r < Size && 0 <= c < Size
  }

  /** A board whose every cell holds `v`. */
  function Fill<T>(v: T): (g: Grid<T>)
    ensures IsBoard(g)
    ensures forall r, c :: InBounds(r, c) ==> g[r][c] == v
  {
    seq(Size, _ => seq(Size, _ => v))
  }

  /** The board with the one cell (r, c) replaced by `v`. */
  function Set<T>(g: Grid<T>, r: int, c: int, v: T): (g': Grid<T>)
    requires IsBoard(g) && InBounds(r, c)
    ensures IsBoard(g')
    ensures g'[r][c] == v
    ensures forall i, j :: InBounds(i, j) && (i != r || j != c) ==> g'[i][j] == g[i][j]
  {
    g[r := g[r][c := v]]
  }

  /** `after` is a board that agrees with `before` everywhere except perhaps at (r, c). */
  ghost predicate SameExcept<T>(before: Grid<T>, after: Grid<T>, r: int, c: int) {
    && IsBoard(after)
    && forall i, j :: InBounds(i, j) && (i != r || j != c) && i < |before| && j < |before[i]| ==>
         after[i][j] == before[i][j]
  }

  /** The coordinates of the cells holding `v`. */
  ghost function CellsOf<T>(g: Grid<T>, v: T): set<(int, int)>
    requires IsBoard(g)
  {
    set r, c | 0 <= r < Size && 0 <= c < Size && g[r][c] == v :: (r, c)
  }

  /** Some cell of `g` (of any shape) holds `v`. */
  ghost predicate Holds<T>(g: Grid<T>, v: T) {
    exists r, c :: 0 <= r < |g| && 0 <= c < |g[r]| && g[r][c] == v
  }

  /** Writing `v` at (r, c) adds that cell to the `v` cells and removes it
      from the cells of every other value. */
  lemma CellsAfterSet<T>(g: Grid<T>, r: int, c: int, v: T, w: T)
    requires IsBoard(g) && InBounds(r, c)
    ensures v == w ==> CellsOf(Set(g, r, c, v), w) == CellsOf(g, w) + {(r, c)}
    ensures v != w ==> CellsOf(Set(g, r, c, v), w) == CellsOf(g, w) - {(r, c)}
  {
    var g' := Set(g, r, c, v);
    forall p | p in CellsOf(g', w)
      ensures p in (if v == w then CellsOf(g, w) + {(r, c)} else CellsOf(g, w) - {(r, c)})
    {
      var (i, j) := p;
      if i != r || j != c {
        assert g[i][j] == w;
      }
    }
    forall p | p in (if v == w then CellsOf(g, w) + {(r, c)} else CellsOf(g, w) - {(r, c)})
      ensures p in CellsOf(g', w)
    {
      var (i, j) := p;
      assert InBounds(i, j);
      assert g'[i][j] == w;
    }
  }
}
