/** The rules of Othello over grid values: the eight directions, the outward
    walk shared by the legality test and by flipping, legal moves and their
    row-major listing, the effect of a move and the opening position. */
module Rules {
  import opened Board

  /** The eight king-move directions, in the order the game is set up with. */
  const Directions: seq<Position> := [
    Position(-1, -1), Position(-1, 0), Position(-1, 1),
    Position(0, -1),                   Position(0, 1),
    Position(1, -1),  Position(1, 0),  Position(1, 1)
  ]

  predicate IsUnit(d: Position)
  {
    -1 <= d.x <= 1 && -1 <= d.y <= 1 && d != Position(0, 0)
  }

  lemma DirectionsFacts()
    ensures |Directions| == 8
    ensures forall i :: 0 <= i < |Directions| ==> IsUnit(Directions[i])
    ensures forall i, j :: 0 <= i < j < |Directions| ==> Directions[i] != Directions[j]
  {
  }

  function Next(q: Position, d: Position): Position
  {
    Position(q.x + d.x, q.y + d.y)
  }

  function Sign(v: int): int
  {
    if v > 0 then 1 else if v < 0 then -1 else 0
  }

  function Abs(v: int): nat
  {
    if v < 0 then -v else v
  }

  /** q lies on the ray that leaves p (p itself excluded) in direction d. */
  predicate OnRay(p: Position, d: Position, q: Position)
  {
    Sign(q.x - p.x) == d.x && Sign(q.y - p.y) == d.y &&
    (d.x != 0 && d.y != 0 ==> Abs(q.x - p.x) == Abs(q.y - p.y))
  }

  /** How many steps along d are left before the walk from q leaves the board. */
  function StepsLeft(g: Grid, q: Position, d: Position): int
  {
    (if d.x > 0 then |g| - q.x else if d.x < 0 then q.x + 1 else 0) +
    (if d.y > 0 then |g| - q.y else if d.y < 0 then q.y + 1 else 0)
  }

  // ---------------------------------------------------------------------
  // The directional walk

  /** The consecutive in-bounds disks of colour opp met when walking from q
      (q included) in direction d. */
  function Run(g: Grid, q: Position, d: Position, opp: Color): (run: seq<Position>)
    requires IsSquare(g) && IsUnit(d)
    ensures forall k :: 0 <= k < |run| ==> InBounds(g, run[k]) && At(g, run[k]) == Some(opp)
    decreases StepsLeft(g, q, d)
  {
    if InBounds(g, q) && At(g, q) == Some(opp) then [q] + Run(g, Next(q, d), d, opp) else []
  }

  /** Where that walk stops: the first cell that is off the board or does
      not hold a disk of colour opp. */
  function RunEnd(g: Grid, q: Position, d: Position, opp: Color): (stop: Position)
    requires IsSquare(g) && IsUnit(d)
    ensures !(InBounds(g, stop) && At(g, stop) == Some(opp))
    decreases StepsLeft(g, q, d)
  {
    if InBounds(g, q) && At(g, q) == Some(opp) then RunEnd(g, Next(q, d), d, opp) else q
  }

  /** The disks that a disk of colour c at p brackets in direction d: the run
      of opponent disks next to p when a disk of colour c stops it, and
      nothing when the walk stops at the edge or at an empty cell. This one
      walk decides both legality and flipping. */
  function RayFlips(g: Grid, p: Position, d: Position, c: Color): seq<Position>
    requires IsSquare(g) && IsUnit(d)
  {
    var start := Next(p, d);
    var stop := RunEnd(g, start, d, Opponent(c));
    if InBounds(g, stop) && At(g, stop) == Some(c) then Run(g, start, d, Opponent(c)) else []
  }

  /** Direction d qualifies for a disk of colour c at p. */
  predicate Flanks(g: Grid, p: Position, d: Position, c: Color)
    requires IsSquare(g) && IsUnit(d)
  {
    RayFlips(g, p, d, c) != []
  }

  /** p is a legal move for colour c: on the board, empty, and at least one
      direction qualifies. */
  predicate IsLegal(g: Grid, p: Position, c: Color)
    requires IsSquare(g)
  {
    InBounds(g, p) && At(g, p) == None &&
    exists i :: 0 <= i < |Directions| && Flanks(g, p, Directions[i], c)
  }

  ghost predicate CanMove(g: Grid, c: Color)
    requires IsSquare(g)
  {
    exists q :: IsLegal(g, q, c)
  }

  // ---------------------------------------------------------------------
  // Shape of the walk: the sandwich rule stated without recursion

  /** s starts at start and each element is one step along d from the one before. */
  predicate IsChain(s: seq<Position>, start: Position, d: Position)
  {
    |s| > 0 ==> s[0] == start && forall k :: 0 <= k < |s| - 1 ==> s[k + 1] == Next(s[k], d)
  }

  /** The cell one step past the chain s (start itself when s is empty). */
  function After(s: seq<Position>, start: Position, d: Position): Position
  {
    if s == [] then start else Next(s[|s| - 1], d)
  }

  /** s is a line of one or more opponent disks starting next to p in
      direction d, followed directly by a disk of colour c. */
  predicate Sandwich(g: Grid, p: Position, d: Position, c: Color, s: seq<Position>)
    requires IsSquare(g)
  {
    && s != []
    && IsChain(s, Next(p, d), d)
    && AllInBounds(g, s)
    && (forall k :: 0 <= k < |s| ==> At(g, s[k]) == Some(Opponent(c)))
    && InBounds(g, After(s, Next(p, d), d))
    && At(g, After(s, Next(p, d), d)) == Some(c)
  }

  lemma {:induction false} RunShape(g: Grid, q: Position, d: Position, opp: Color)
    requires IsSquare(g) && IsUnit(d)
    ensures IsChain(Run(g, q, d, opp), q, d)
    ensures RunEnd(g, q, d, opp) == After(Run(g, q, d, opp), q, d)
    decreases StepsLeft(g, q, d)
  {
    if InBounds(g, q) && At(g, q) == Some(opp) {
      RunShape(g, Next(q, d), d, opp);
    }
  }

  lemma {:induction false} RunUnique(g: Grid, q: Position, d: Position, opp: Color, s: seq<Position>)
    requires IsSquare(g) && IsUnit(d) && IsChain(s, q, d) && AllInBounds(g, s)
    requires forall k :: 0 <= k < |s| ==> At(g, s[k]) == Some(opp)
    requires !(InBounds(g, After(s, q, d)) && At(g, After(s, q, d)) == Some(opp))
    ensures Run(g, q, d, opp) == s
    ensures RunEnd(g, q, d, opp) == After(s, q, d)
    decreases |s|
  {
    if s != [] {
      var rest := s[1..];
      assert IsChain(rest, Next(q, d), d);
      assert After(rest, Next(q, d), d) == After(s, q, d);
      RunUnique(g, Next(q, d), d, opp, rest);
      assert s == [q] + rest;
    }
  }

  /** A walk from start along d that has crossed the opponent disks in
      crossed, one step at a time, and now stands at here. */
  predicate WalkedTo(g: Grid, start: Position, d: Position, opp: Color, crossed: seq<Position>, here: Position)
    requires IsSquare(g)
  {
    && IsChain(crossed, start, d)
    && (forall k :: 0 <= k < |crossed| ==> InBounds(g, crossed[k]) && At(g, crossed[k]) == Some(opp))
    && here == After(crossed, start, d)
  }

  /** Crossing one more disk of colour opp keeps the walk on track. */
  lemma WalkStep(g: Grid, start: Position, d: Position, opp: Color, crossed: seq<Position>, here: Position)
    requires IsSquare(g) && WalkedTo(g, start, d, opp, crossed, here)
    requires InBounds(g, here) && At(g, here) == Some(opp)
    ensures WalkedTo(g, start, d, opp, crossed + [here], Next(here, d))
  {
    var s := crossed + [here];
    assert s[|s| - 1] == here;
    forall k | 0 <= k < |s| - 1 ensures s[k + 1] == Next(s[k], d) {
      if k + 1 < |crossed| {
        assert s[k + 1] == crossed[k + 1];
      }
    }
  }

  /** Where the walk stops, it has crossed the whole run, and the direction
      brackets that run iff the stopping cell holds a disk of colour c. */
  lemma WalkStop(g: Grid, p: Position, d: Position, c: Color, crossed: seq<Position>, here: Position)
    requires IsSquare(g) && IsUnit(d) && WalkedTo(g, Next(p, d), d, Opponent(c), crossed, here)
    requires !(InBounds(g, here) && At(g, here) == Some(Opponent(c)))
    ensures RayFlips(g, p, d, c) == if InBounds(g, here) && At(g, here) == Some(c) then crossed else []
  {
    RunUnique(g, Next(p, d), d, Opponent(c), crossed);
  }

  /** The sandwich rule: whatever RayFlips returns is a line of opponent disks
      capped by an own disk, and any such line is exactly what it returns;
      so a direction qualifies iff such a line exists. */
  lemma SandwichRule(g: Grid, p: Position, d: Position, c: Color)
    requires IsSquare(g) && IsUnit(d)
    ensures RayFlips(g, p, d, c) != [] ==> Sandwich(g, p, d, c, RayFlips(g, p, d, c))
    ensures forall s :: Sandwich(g, p, d, c, s) ==> RayFlips(g, p, d, c) == s
  {
    RunShape(g, Next(p, d), d, Opponent(c));
    forall s | Sandwich(g, p, d, c, s) ensures RayFlips(g, p, d, c) == s {
      RunUnique(g, Next(p, d), d, Opponent(c), s);
    }
  }

  // ---------------------------------------------------------------------
  // Rays: where a walk can go

  lemma {:induction false} WalkOnRay(g: Grid, p: Position, d: Position, q: Position, opp: Color)
    requires IsSquare(g) && IsUnit(d) && OnRay(p, d, q)
    ensures forall r :: r in Run(g, q, d, opp) ==> OnRay(p, d, r)
    ensures OnRay(p, d, RunEnd(g, q, d, opp))
    decreases StepsLeft(g, q, d)
  {
    if InBounds(g, q) && At(g, q) == Some(opp) {
      WalkOnRay(g, p, d, Next(q, d), opp);
    }
  }

  /** Everything a direction can flip lies on its ray. */
  lemma RayFlipsOnRay(g: Grid, p: Position, d: Position, c: Color)
    requires IsSquare(g) && IsUnit(d)
    ensures forall r :: r in RayFlips(g, p, d, c) ==> OnRay(p, d, r)
  {
    WalkOnRay(g, p, d, Next(p, d), Opponent(c));
  }

  /** Two grids that agree on the ray of (p, d) walk it alike. */
  lemma {:induction false} WalkFrame(g: Grid, h: Grid, p: Position, d: Position, q: Position, opp: Color)
    requires IsSquare(g) && IsSquare(h) && |g| == |h| && IsUnit(d) && OnRay(p, d, q)
    requires forall r :: InBounds(g, r) && OnRay(p, d, r) ==> At(g, r) == At(h, r)
    ensures Run(g, q, d, opp) == Run(h, q, d, opp)
    ensures RunEnd(g, q, d, opp) == RunEnd(h, q, d, opp)
    decreases StepsLeft(g, q, d)
  {
    if InBounds(g, q) {
      WalkFrame(g, h, p, d, Next(q, d), opp);
    }
  }

  /** What direction d flips depends only on the cells of its ray. */
  lemma RayFlipsFrame(g: Grid, h: Grid, p: Position, d: Position, c: Color)
    requires IsSquare(g) && IsSquare(h) && |g| == |h| && IsUnit(d)
    requires forall r :: InBounds(g, r) && OnRay(p, d, r) ==> At(g, r) == At(h, r)
    ensures RayFlips(g, p, d, c) == RayFlips(h, p, d, c)
  {
    WalkFrame(g, h, p, d, Next(p, d), Opponent(c));
    WalkOnRay(g, p, d, Next(p, d), Opponent(c));
  }

  /** The disks of a run are all different cells. */
  lemma {:induction false} RunDistinct(g: Grid, q: Position, d: Position, opp: Color)
    requires IsSquare(g) && IsUnit(d)
    ensures Distinct(Run(g, q, d, opp))
    decreases StepsLeft(g, q, d)
  {
    if InBounds(g, q) && At(g, q) == Some(opp) {
      var rest := Run(g, Next(q, d), d, opp);
      RunDistinct(g, Next(q, d), d, opp);
      WalkOnRay(g, q, d, Next(q, d), opp);
      assert !OnRay(q, d, q);
      assert Run(g, q, d, opp) == [q] + rest;
    }
  }

  // ---------------------------------------------------------------------
  // Legal moves in row-major order

  /** The cells of an n-column grid that satisfy keep, in row-major order,
      among rows 0 .. i-1 and the first j columns of row i. */
  function Scan(keep: Position -> bool, n: nat, i: nat, j: nat): seq<Position>
    decreases i, j
  {
    if j == 0 then (if i == 0 then [] else Scan(keep, n, i - 1, n))
    else Scan(keep, n, i, j - 1) + (if keep(Position(i, j - 1)) then [Position(i, j - 1)] else [])
  }

  /** Legality of colour c on g, as a test on cells. */
  function LegalFor(g: Grid, c: Color): Position -> bool
    requires IsSquare(g)
  {
    q => IsLegal(g, q, c)
  }

  /** All legal moves of colour c, in row-major order. */
  function LegalMoves(g: Grid, c: Color): seq<Position>
    requires IsSquare(g)
  {
    Scan(LegalFor(g, c), |g|, |g|, 0)
  }

  predicate RowMajorBefore(a: Position, b: Position)
  {
    a.x < b.x || (a.x == b.x && a.y < b.y)
  }

  predicate RowMajorSorted(ms: seq<Position>)
  {
    forall a, b :: 0 <= a < b < |ms| ==> RowMajorBefore(ms[a], ms[b])
  }

  /** q comes before column j of row i in an n-column grid. */
  predicate ScannedBy(q: Position, n: nat, i: nat, j: nat)
  {
    0 <= q.x && 0 <= q.y < n && (q.x < i || (q.x == i && q.y < j))
  }

  lemma InAppend(a: seq<Position>, b: seq<Position>, q: Position)
    ensures q in a + b <==> q in a || q in b
  {
  }

  /** The scan holds exactly the cells before (i, j) that satisfy keep. */
  lemma {:induction false} ScanMember(keep: Position -> bool, n: nat, i: nat, j: nat, q: Position)
    requires j <= n
    ensures q in Scan(keep, n, i, j) <==> ScannedBy(q, n, i, j) && keep(q)
    decreases i, j
  {
    if j == 0 {
      if i > 0 {
        ScanMember(keep, n, i - 1, n, q);
      }
    } else {
      ScanMember(keep, n, i, j - 1, q);
      var here := Position(i, j - 1);
      InAppend(Scan(keep, n, i, j - 1), if keep(here) then [here] else [], q);
      if q.x == i && q.y == j - 1 {
        assert q == here;
      }
    }
  }

  /** The scan only lists cells before (i, j), in row-major order. */
  lemma {:induction false} ScanSorted(keep: Position -> bool, n: nat, i: nat, j: nat)
    requires j <= n
    ensures forall k :: 0 <= k < |Scan(keep, n, i, j)| ==> ScannedBy(Scan(keep, n, i, j)[k], n, i, j)
    ensures RowMajorSorted(Scan(keep, n, i, j))
    decreases i, j
  {
    if j == 0 {
      if i > 0 {
        ScanSorted(keep, n, i - 1, n);
      }
    } else {
      ScanSorted(keep, n, i, j - 1);
      var prev := Scan(keep, n, i, j - 1);
      var here := Position(i, j - 1);
      var extra: seq<Position> := if keep(here) then [here] else [];
      var all := prev + extra;
      forall k: nat | k < |all| ensures ScannedBy(all[k], n, i, j) {
        if k < |prev| {
          assert all[k] == prev[k];
        }
      }
      forall a, b | 0 <= a < b < |all| ensures RowMajorBefore(all[a], all[b]) {
        if b < |prev| {
          assert all[a] == prev[a] && all[b] == prev[b];
        } else {
          assert all[a] == prev[a] && all[b] == here;
        }
      }
    }
  }

  /** The scan lists exactly the legal moves, each once, in row-major order;
      it is empty iff the colour has no legal move at all. */
  lemma LegalMovesSpec(g: Grid, c: Color)
    requires IsSquare(g)
    ensures forall q :: q in LegalMoves(g, c) <==> IsLegal(g, q, c)
    ensures RowMajorSorted(LegalMoves(g, c))
    ensures Distinct(LegalMoves(g, c))
    ensures LegalMoves(g, c) != [] <==> CanMove(g, c)
  {
    ScanSorted(LegalFor(g, c), |g|, |g|, 0);
    var ms := LegalMoves(g, c);
    forall q ensures q in ms <==> IsLegal(g, q, c) {
      ScanMember(LegalFor(g, c), |g|, |g|, 0, q);
      assert LegalFor(g, c)(q) == IsLegal(g, q, c);
    }
    if ms != [] {
      assert ms[0] in ms;
    }
  }

  // ---------------------------------------------------------------------
  // The effect of a move

  /** The grid after the disks that direction d brackets have turned to c. */
  function FlipRay(g: Grid, p: Position, d: Position, c: Color): (h: Grid)
    requires IsSquare(g) && IsUnit(d)
    ensures |h| == |g| && IsSquare(h)
  {
    Paint(g, RayFlips(g, p, d, c), c)
  }

  /** The grid after the first k directions have been flipped, one after
      the other, each walking the grid the previous ones left. */
  function FlipUpTo(g: Grid, p: Position, c: Color, k: nat): (h: Grid)
    requires IsSquare(g) && k <= |Directions|
    ensures |h| == |g| && IsSquare(h)
  {
    if k == 0 then g else FlipRay(FlipUpTo(g, p, c, k - 1), p, Directions[k - 1], c)
  }

  /** The grid after a disk of colour c is placed at p and all eight
      directions are flipped. */
  function ApplyMove(g: Grid, p: Position, c: Color): (h: Grid)
    requires IsSquare(g) && InBounds(g, p)
    ensures |h| == |g| && IsSquare(h)
  {
    FlipUpTo(Put(g, p, Some(c)), p, c, |Directions|)
  }

  /** q is bracketed, in g, by a disk of colour c at p along one of the first k directions. */
  predicate FlippedBy(g: Grid, p: Position, c: Color, k: nat, q: Position)
    requires IsSquare(g) && k <= |Directions|
  {
    exists i :: 0 <= i < k && q in RayFlips(g, p, Directions[i], c)
  }

  /** The number of disks the first k directions bracket in g. */
  function NumFlips(g: Grid, p: Position, c: Color, k: nat): nat
    requires IsSquare(g) && k <= |Directions|
  {
    if k == 0 then 0 else NumFlips(g, p, c, k - 1) + |RayFlips(g, p, Directions[k - 1], c)|
  }

  /** A cell on the ray of direction j is not bracketed by any other direction. */
  lemma RaysDisjoint(g: Grid, p: Position, c: Color, j: nat, r: Position)
    requires IsSquare(g) && j < |Directions|
    requires OnRay(p, Directions[j], r)
    ensures forall i :: 0 <= i < |Directions| && i != j ==> r !in RayFlips(g, p, Directions[i], c)
  {
    DirectionsFacts();
    forall i | 0 <= i < |Directions| && i != j ensures r !in RayFlips(g, p, Directions[i], c) {
      RayFlipsOnRay(g, p, Directions[i], c);
    }
  }

  /** In particular, none of the directions before j brackets it. */
  lemma EarlierRaysDisjoint(g: Grid, p: Position, c: Color, j: nat, r: Position)
    requires IsSquare(g) && j < |Directions|
    requires OnRay(p, Directions[j], r)
    ensures !FlippedBy(g, p, c, j, r)
  {
    RaysDisjoint(g, p, c, j, r);
  }

  /** After the first k directions, the ray of direction k is as it was,
      so direction k brackets the same disks it would have in g. */
  lemma {:induction false} FlipUpToFrame(g: Grid, p: Position, c: Color, k: nat)
    requires IsSquare(g) && k < |Directions|
    ensures (forall r :: InBounds(g, r) && OnRay(p, Directions[k], r) ==> At(FlipUpTo(g, p, c, k), r) == At(g, r))
    ensures RayFlips(FlipUpTo(g, p, c, k), p, Directions[k], c) == RayFlips(g, p, Directions[k], c)
    decreases k, 1
  {
    DirectionsFacts();
    var h := FlipUpTo(g, p, c, k);
    forall r | InBounds(g, r) && OnRay(p, Directions[k], r) ensures At(h, r) == At(g, r) {
      FlipUpToAt(g, p, c, k, r);
      EarlierRaysDisjoint(g, p, c, k, r);
    }
    RayFlipsFrame(g, h, p, Directions[k], c);
  }

  lemma FlippedByStep(g: Grid, p: Position, c: Color, k: nat, q: Position)
    requires IsSquare(g) && 0 < k <= |Directions|
    ensures FlippedBy(g, p, c, k, q) <==>
            FlippedBy(g, p, c, k - 1, q) || q in RayFlips(g, p, Directions[k - 1], c)
  {
    if q in RayFlips(g, p, Directions[k - 1], c) {
      assert FlippedBy(g, p, c, k, q);
    }
  }

  /** Flipping the directions one after the other sets to c exactly the
      cells that some direction brackets in the grid it started from. */
  lemma {:induction false} FlipUpToAt(g: Grid, p: Position, c: Color, k: nat, q: Position)
    requires IsSquare(g) && k <= |Directions| && InBounds(g, q)
    ensures At(FlipUpTo(g, p, c, k), q) == if FlippedBy(g, p, c, k, q) then Some(c) else At(g, q)
    decreases k, 0
  {
    if k > 0 {
      DirectionsFacts();
      var h := FlipUpTo(g, p, c, k - 1);
      var d := Directions[k - 1];
      assert IsUnit(d) && |h| == |g|;
      var f := RayFlips(h, p, d, c);
      assert FlipUpTo(g, p, c, k) == Paint(h, f, c);
      FlipUpToFrame(g, p, c, k - 1);
      PaintAt(h, f, c, q);
      FlipUpToAt(g, p, c, k - 1, q);
      FlippedByStep(g, p, c, k, q);
    }
  }

  /** Placing the disk at p changes no ray that leaves p. */
  lemma PutKeepsRays(g: Grid, p: Position, c: Color)
    requires IsSquare(g) && InBounds(g, p)
    ensures (forall i :: 0 <= i < |Directions| ==>
               RayFlips(Put(g, p, Some(c)), p, Directions[i], c) == RayFlips(g, p, Directions[i], c))
  {
    DirectionsFacts();
    forall i | 0 <= i < |Directions|
      ensures RayFlips(Put(g, p, Some(c)), p, Directions[i], c) == RayFlips(g, p, Directions[i], c)
    {
      RayFlipsFrame(Put(g, p, Some(c)), g, p, Directions[i], c);
    }
  }

  /** The effect of a move, cell by cell, in terms of the grid before it:
      the target holds c, every cell some direction brackets holds c, and
      every other cell is unchanged. */
  lemma ApplyMoveAt(g: Grid, p: Position, c: Color, q: Position)
    requires IsSquare(g) && InBounds(g, p) && InBounds(g, q)
    ensures At(ApplyMove(g, p, c), q) ==
            if q == p || FlippedBy(g, p, c, |Directions|, q) then Some(c) else At(g, q)
  {
    var g0 := Put(g, p, Some(c));
    PutKeepsRays(g, p, c);
    FlipUpToAt(g0, p, c, |Directions|, q);
    assert FlippedBy(g0, p, c, |Directions|, q) == FlippedBy(g, p, c, |Directions|, q);
  }

  /** A move changes exactly the target and the cells that lie on a line of
      opponent disks capped by a disk of the mover's colour; each of those
      now holds the mover's colour. */
  lemma MoveChangesBracketed(g: Grid, p: Position, c: Color, q: Position)
    requires IsSquare(g) && InBounds(g, p) && InBounds(g, q) && q != p
    ensures At(ApplyMove(g, p, c), q) ==
            if exists i, s :: 0 <= i < |Directions| && Sandwich(g, p, Directions[i], c, s) && q in s
            then Some(c) else At(g, q)
  {
    ApplyMoveAt(g, p, c, q);
    DirectionsFacts();
    if FlippedBy(g, p, c, |Directions|, q) {
      var i :| 0 <= i < |Directions| && q in RayFlips(g, p, Directions[i], c);
      SandwichRule(g, p, Directions[i], c);
      assert Sandwich(g, p, Directions[i], c, RayFlips(g, p, Directions[i], c));
    } else {
      forall i, s | 0 <= i < |Directions| && Sandwich(g, p, Directions[i], c, s)
        ensures q !in s
      {
        SandwichRule(g, p, Directions[i], c);
      }
    }
  }

  lemma {:induction false} NumFlipsAgree(g: Grid, h: Grid, p: Position, c: Color, k: nat)
    requires IsSquare(g) && IsSquare(h) && k <= |Directions|
    requires (forall i :: 0 <= i < |Directions| ==> RayFlips(g, p, Directions[i], c) == RayFlips(h, p, Directions[i], c))
    ensures NumFlips(g, p, c, k) == NumFlips(h, p, c, k)
  {
    if k > 0 {
      NumFlipsAgree(g, h, p, c, k - 1);
    }
  }

  /** The cells direction k brackets in g still hold opponent disks after
      the first k directions have been flipped. */
  lemma RayStillOpponent(g: Grid, p: Position, c: Color, k: nat)
    requires IsSquare(g) && k < |Directions|
    ensures forall n :: 0 <= n < |RayFlips(g, p, Directions[k], c)| ==>
              var r := RayFlips(g, p, Directions[k], c)[n];
              InBounds(FlipUpTo(g, p, c, k), r) && At(FlipUpTo(g, p, c, k), r) == Some(Opponent(c))
  {
    DirectionsFacts();
    var h := FlipUpTo(g, p, c, k);
    var d := Directions[k];
    var f := RayFlips(g, p, d, c);
    forall n | 0 <= n < |f| ensures InBounds(h, f[n]) && At(h, f[n]) == Some(Opponent(c)) {
      var r := f[n];
      assert InBounds(g, r) && At(g, r) == Some(Opponent(c));
      assert OnRay(p, d, r) by {
        RayFlipsOnRay(g, p, d, c);
        assert r in f;
      }
      FlipUpToAt(g, p, c, k, r);
      EarlierRaysDisjoint(g, p, c, k, r);
    }
  }

  /** Flipping direction k - 1 moves the disks it brackets in g from the
      opponent's score to c's. */
  lemma FlipStepScore(g: Grid, p: Position, c: Color, k: nat)
    requires IsSquare(g) && 0 < k <= |Directions|
    ensures Score(FlipUpTo(g, p, c, k), c)
         == Score(FlipUpTo(g, p, c, k - 1), c) + |RayFlips(g, p, Directions[k - 1], c)|
    ensures Score(FlipUpTo(g, p, c, k), Opponent(c)) + |RayFlips(g, p, Directions[k - 1], c)|
         == Score(FlipUpTo(g, p, c, k - 1), Opponent(c))
  {
    DirectionsFacts();
    var h := FlipUpTo(g, p, c, k - 1);
    var d := Directions[k - 1];
    var f := RayFlips(g, p, d, c);
    assert RayFlips(h, p, d, c) == f by {
      FlipUpToFrame(g, p, c, k - 1);
    }
    assert FlipUpTo(g, p, c, k) == Paint(h, f, c);
    RunDistinct(g, Next(p, d), d, Opponent(c));
    RayStillOpponent(g, p, c, k - 1);
    PaintScore(h, f, c, Opponent(c));
  }

  lemma {:induction false} FlipUpToScore(g: Grid, p: Position, c: Color, k: nat)
    requires IsSquare(g) && k <= |Directions|
    ensures Score(FlipUpTo(g, p, c, k), c) == Score(g, c) + NumFlips(g, p, c, k)
    ensures Score(FlipUpTo(g, p, c, k), Opponent(c)) + NumFlips(g, p, c, k) == Score(g, Opponent(c))
  {
    if k > 0 {
      FlipUpToScore(g, p, c, k - 1);
      FlipStepScore(g, p, c, k);
    }
  }

  /** A move adds the placed disk and every bracketed disk to the mover's
      score and takes the bracketed disks from the opponent's. */
  lemma ApplyMoveScore(g: Grid, p: Position, c: Color)
    requires IsSquare(g) && InBounds(g, p) && At(g, p) == None
    ensures Score(ApplyMove(g, p, c), c) == Score(g, c) + 1 + NumFlips(g, p, c, |Directions|)
    ensures Score(ApplyMove(g, p, c), Opponent(c)) + NumFlips(g, p, c, |Directions|) == Score(g, Opponent(c))
  {
    var g0 := Put(g, p, Some(c));
    CountPut(g, p, Some(c), Some(c));
    CountPut(g, p, Some(c), Some(Opponent(c)));
    PutKeepsRays(g, p, c);
    NumFlipsAgree(g0, g, p, c, |Directions|);
    FlipUpToScore(g0, p, c, |Directions|);
  }

  /** Some disk is flipped iff some direction qualifies. */
  lemma {:induction false} NumFlipsPositive(g: Grid, p: Position, c: Color, k: nat)
    requires IsSquare(g) && k <= |Directions|
    ensures (NumFlips(g, p, c, k) > 0 <==> exists i :: 0 <= i < k && Flanks(g, p, Directions[i], c))
  {
    if k > 0 {
      DirectionsFacts();
      NumFlipsPositive(g, p, c, k - 1);
      var d := Directions[k - 1];
      assert NumFlips(g, p, c, k) == NumFlips(g, p, c, k - 1) + |RayFlips(g, p, d, c)|;
      if Flanks(g, p, d, c) {
        assert 0 <= k - 1 < k && Flanks(g, p, Directions[k - 1], c);
      }
    }
  }

  /** A legal move flips at least one disk. */
  lemma LegalMoveFlips(g: Grid, p: Position, c: Color)
    requires IsSquare(g) && IsLegal(g, p, c)
    ensures NumFlips(g, p, c, |Directions|) >= 1
  {
    NumFlipsPositive(g, p, c, |Directions|);
  }

  // ---------------------------------------------------------------------
  // The opening position

  /** g with the four opening disks: White on (3,3) and (4,4), Black on (3,4) and (4,3). */
  function WithOpeningDisks(g: Grid): (h: Grid)
    requires IsSquare(g) && |g| >= 5
    ensures |h| == |g| && IsSquare(h)
  {
    var g1 := Put(g, Position(3, 3), Some(White));
    var g2 := Put(g1, Position(3, 4), Some(Black));
    var g3 := Put(g2, Position(4, 3), Some(Black));
    Put(g3, Position(4, 4), Some(White))
  }

  function Opening(n: nat): (g: Grid)
    requires n >= 5
    ensures |g| == n && IsSquare(g)
  {
    WithOpeningDisks(Empty(n))
  }

  /** Exactly the four centre cells are occupied in the opening position. */
  lemma OpeningAt(n: nat, q: Position)
    requires n >= 5 && 0 <= q.x < n && 0 <= q.y < n
    ensures At(Opening(n), q) ==
      if q == Position(3, 3) || q == Position(4, 4) then Some(White)
      else if q == Position(3, 4) || q == Position(4, 3) then Some(Black)
      else None
  {
  }

  /** Two disks each, and n*n - 4 empty cells, at the opening. */
  lemma OpeningScores(n: nat)
    requires n >= 5
    ensures Score(Opening(n), Black) == 2 && Score(Opening(n), White) == 2
    ensures Count(Opening(n), None) == n * n - 4
  {
    var e := Empty(n);
    var g1 := Put(e, Position(3, 3), Some(White));
    var g2 := Put(g1, Position(3, 4), Some(Black));
    var g3 := Put(g2, Position(4, 3), Some(Black));
    CountAbsent(e, Some(Black));
    CountAbsent(e, Some(White));
    ScorePartition(e);
    CountPut(e, Position(3, 3), Some(White), Some(Black));
    CountPut(e, Position(3, 3), Some(White), Some(White));
    CountPut(e, Position(3, 3), Some(White), None);
    CountPut(g1, Position(3, 4), Some(Black), Some(Black));
    CountPut(g1, Position(3, 4), Some(Black), Some(White));
    CountPut(g1, Position(3, 4), Some(Black), None);
    CountPut(g2, Position(4, 3), Some(Black), Some(Black));
    CountPut(g2, Position(4, 3), Some(Black), Some(White));
    CountPut(g2, Position(4, 3), Some(Black), None);
    CountPut(g3, Position(4, 4), Some(White), Some(Black));
    CountPut(g3, Position(4, 4), Some(White), Some(White));
    CountPut(g3, Position(4, 4), Some(White), None);
  }
}
