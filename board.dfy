/** The value model of an Othello board: an N x N grid of cells, each either
    empty or holding a disk of one of the two colours, and the disk counts
    that scoring is built on. */
module Board {

  datatype Color = Black | White

  datatype Option<+T> = None | Some(value: T)

  /** A cell is empty (None) or holds a disk of some colour. */
  type Cell = Option<Color>

  /** Zero-based (row, column); also used for direction vectors. */
  datatype Position = Position(x: int, y: int)

  /** Row-major grid: g[x][y] is the cell in row x, column y. */
  type Grid = seq<seq<Cell>>

  /** The colour of the other player. */
  function Opponent(c: Color): (o: Color)
    ensures o != c
  {
    if c == Black then White else Black
  }

  /** Every row is as long as there are rows. */
  predicate IsSquare(g: Grid)
  {
    forall i :: 0 <= i < |g| ==> |g[i]| == |g|
  }

  predicate InBounds(g: Grid, q: Position)
  {
    0 <= q.x < |g| && 0 <= q.y < |g|
  }

  function At(g: Grid, q: Position): Cell
    requires IsSquare(g) && InBounds(g, q)
  {
    g[q.x][q.y]
  }

  /** The n x n grid with no disk on it. */
  function Empty(n: nat): (g: Grid)
    ensures |g| == n && IsSquare(g)
    ensures forall q :: InBounds(g, q) ==> At(g, q) == None
  {
    seq(n, _ => seq(n, _ => None))
  }

  /** The grid with cell q set to v and every other cell as it was. */
  function Put(g: Grid, q: Position, v: Cell): (h: Grid)
    requires IsSquare(g) && InBounds(g, q)
    ensures |h| == |g| && IsSquare(h)
    ensures forall r :: InBounds(g, r) ==> At(h, r) == if r == q then v else At(g, r)
  {
    g[q.x := g[q.x][q.y := v]]
  }

  predicate AllInBounds(g: Grid, ps: seq<Position>)
  {
    forall k :: 0 <= k < |ps| ==> InBounds(g, ps[k])
  }

  predicate Distinct(ps: seq<Position>)
  {
    forall a, b :: 0 <= a < b < |ps| ==> ps[a] != ps[b]
  }

  /** The grid with a disk of colour c on every position of ps, in order;
      positions off the board are skipped. */
  function Paint(g: Grid, ps: seq<Position>, c: Color): (h: Grid)
    requires IsSquare(g)
    ensures |h| == |g| && IsSquare(h)
    decreases |ps|
  {
    if ps == [] then g
    else if InBounds(g, ps[0]) then Paint(Put(g, ps[0], Some(c)), ps[1..], c)
    else Paint(g, ps[1..], c)
  }

  /** Painting sets exactly the listed cells and leaves all others alone. */
  lemma {:induction false} PaintAt(g: Grid, ps: seq<Position>, c: Color, q: Position)
    requires IsSquare(g) && InBounds(g, q)
    ensures At(Paint(g, ps, c), q) == if q in ps then Some(c) else At(g, q)
    decreases |ps|
  {
    if ps != [] {
      if InBounds(g, ps[0]) {
        PaintAt(Put(g, ps[0], Some(c)), ps[1..], c, q);
      } else {
        PaintAt(g, ps[1..], c, q);
      }
      assert q in ps <==> q == ps[0] || q in ps[1..] by {
        assert ps == [ps[0]] + ps[1..];
      }
    }
  }

  // ---------------------------------------------------------------------
  // Counting disks

  /** The number of cells among row[..j] that hold v. */
  function CountRow(row: seq<Cell>, v: Cell, j: nat): (k: nat)
    requires j <= |row|
    ensures k <= j
  {
    if j == 0 then 0 else CountRow(row, v, j - 1) + (if row[j - 1] == v then 1 else 0)
  }

  /** The number of cells in rows 0 .. i-1 that hold v. */
  function CountRows(g: Grid, v: Cell, i: nat): (k: nat)
    requires IsSquare(g) && i <= |g|
    ensures k <= i * |g|
  {
    if i == 0 then 0 else CountRows(g, v, i - 1) + CountRow(g[i - 1], v, |g|)
  }

  /** The number of cells of the whole grid that hold v. */
  function Count(g: Grid, v: Cell): nat
    requires IsSquare(g)
  {
    CountRows(g, v, |g|)
  }

  /** A player's score: the number of disks of their colour on the board. */
  function Score(g: Grid, c: Color): nat
    requires IsSquare(g)
  {
    Count(g, Some(c))
  }

  lemma {:induction false} RowPartition(row: seq<Cell>, j: nat)
    requires j <= |row|
    ensures CountRow(row, Some(Black), j) + CountRow(row, Some(White), j) + CountRow(row, None, j) == j
  {
    if j > 0 {
      RowPartition(row, j - 1);
      match row[j - 1]
      case None =>
      case Some(c) => assert c == Black || c == White;
    }
  }

  lemma {:induction false} RowsPartition(g: Grid, i: nat)
    requires IsSquare(g) && i <= |g|
    ensures CountRows(g, Some(Black), i) + CountRows(g, Some(White), i) + CountRows(g, None, i) == i * |g|
  {
    if i > 0 {
      RowsPartition(g, i - 1);
      RowPartition(g[i - 1], |g|);
    }
  }

  /** Every cell is black, white or empty: the two scores and the number of
      empty cells add up to the number of cells. */
  lemma ScorePartition(g: Grid)
    requires IsSquare(g)
    ensures Score(g, Black) + Score(g, White) + Count(g, None) == |g| * |g|
    ensures Score(g, Black) + Score(g, White) <= |g| * |g|
  {
    RowsPartition(g, |g|);
  }

  lemma {:induction false} CountRowUpdate(row: seq<Cell>, y: int, v: Cell, w: Cell, j: nat)
    requires 0 <= y < |row| && j <= |row|
    ensures CountRow(row[y := v], w, j) + (if y < j && row[y] == w then 1 else 0)
         == CountRow(row, w, j) + (if y < j && v == w then 1 else 0)
  {
    if j > 0 {
      CountRowUpdate(row, y, v, w, j - 1);
    }
  }

  lemma {:induction false} CountRowsUpdate(g: Grid, q: Position, v: Cell, w: Cell, i: nat)
    requires IsSquare(g) && InBounds(g, q) && i <= |g|
    ensures CountRows(Put(g, q, v), w, i) + (if q.x < i && At(g, q) == w then 1 else 0)
         == CountRows(g, w, i) + (if q.x < i && v == w then 1 else 0)
  {
    if i > 0 {
      CountRowsUpdate(g, q, v, w, i - 1);
      if i - 1 == q.x {
        CountRowUpdate(g[q.x], q.y, v, w, |g|);
      } else {
        assert Put(g, q, v)[i - 1] == g[i - 1];
      }
    }
  }

  /** Overwriting one cell moves that cell from the count of its old
      content to the count of its new content. */
  lemma CountPut(g: Grid, q: Position, v: Cell, w: Cell)
    requires IsSquare(g) && InBounds(g, q)
    ensures Count(Put(g, q, v), w) + (if At(g, q) == w then 1 else 0)
         == Count(g, w) + (if v == w then 1 else 0)
  {
    CountRowsUpdate(g, q, v, w, |g|);
  }

  lemma {:induction false} CountRowAbsent(row: seq<Cell>, v: Cell, j: nat)
    requires j <= |row|
    requires forall k :: 0 <= k < j ==> row[k] != v
    ensures CountRow(row, v, j) == 0
  {
    if j > 0 {
      CountRowAbsent(row, v, j - 1);
    }
  }

  lemma {:induction false} CountRowsAbsent(g: Grid, v: Cell, i: nat)
    requires IsSquare(g) && i <= |g|
    requires forall q :: InBounds(g, q) ==> At(g, q) != v
    ensures CountRows(g, v, i) == 0
  {
    if i > 0 {
      CountRowsAbsent(g, v, i - 1);
      var row := g[i - 1];
      forall k | 0 <= k < |g| ensures row[k] != v {
        assert At(g, Position(i - 1, k)) != v;
      }
      CountRowAbsent(row, v, |g|);
    }
  }

  /** No cell holds v, so v is counted zero times. */
  lemma CountAbsent(g: Grid, v: Cell)
    requires IsSquare(g)
    requires forall q :: InBounds(g, q) ==> At(g, q) != v
    ensures Count(g, v) == 0
  {
    CountRowsAbsent(g, v, |g|);
  }

  /** Painting distinct cells that all hold o with c (another colour) moves
      exactly |ps| disks from o's score to c's score. */
  lemma {:induction false} PaintScore(g: Grid, ps: seq<Position>, c: Color, o: Color)
    requires IsSquare(g) && AllInBounds(g, ps) && Distinct(ps) && o != c
    requires forall k :: 0 <= k < |ps| ==> At(g, ps[k]) == Some(o)
    ensures Score(Paint(g, ps, c), c) == Score(g, c) + |ps|
    ensures Score(Paint(g, ps, c), o) + |ps| == Score(g, o)
    decreases |ps|
  {
    if ps != [] {
      var h := Put(g, ps[0], Some(c));
      CountPut(g, ps[0], Some(c), Some(c));
      CountPut(g, ps[0], Some(c), Some(o));
      forall k | 0 <= k < |ps[1..]| ensures InBounds(h, ps[1..][k]) && At(h, ps[1..][k]) == Some(o) {
        assert ps[1..][k] == ps[k + 1] != ps[0];
      }
      PaintScore(h, ps[1..], c, o);
    }
  }
}
