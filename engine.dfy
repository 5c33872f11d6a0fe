/** The game engine: the OthelloGame class owns the board array, the two
    players, whose turn it is and the game status, and updates them in
    place. Each method is proved against the grid functions of Rules, read
    off a ghost copy of the board that Valid() ties to the array. */
module Engine {
  import opened Board
  import opened Rules

  datatype Status = NotStart | Play | Win | Draw

  datatype Player = Player(name: string, color: Color)

  /** What one pass of the game loop did. */
  datatype Turn =
    | Moved     // the current player had a move and the chosen one was played
    | Rejected  // the current player had a move but the chosen one is illegal
    | Passed    // the current player had no move; the other player has one
    | GameOver  // neither player has a move; the game has been finished

  /** The index of the other of the two players. */
  function Other(i: nat): (j: nat)
    requires i < 2
    ensures j < 2 && j != i
  {
    if i == 0 then 1 else 0
  }

  /** Passing the turn twice gives it back. */
  lemma OtherTwice(i: nat)
    requires i < 2
    ensures Other(Other(i)) == i
  {
  }

  class OthelloGame {
    const players: seq<Player>
    const size: nat
    var squares: array2<Cell>
    var current: nat
    var status: Status

    /** The board as a grid value. */
    ghost var cells: Grid

    ghost predicate Valid()
      reads this, squares
    {
      && |players| == 2 && players[0].color != players[1].color
      && current < 2
      && squares.Length0 == size && squares.Length1 == size
      && IsSquare(cells) && |cells| == size
      && forall q :: InBounds(cells, q) ==> squares[q.x, q.y] == At(cells, q)
    }

    /** The colour of the player whose turn it is. */
    ghost function Mover(): Color
      reads this
      requires |players| == 2 && current < 2
    {
      players[current].color
    }

    /** The board handed in by the caller has the configured size and no disk. */
    constructor (players: seq<Player>, size: nat, status: Status, currentPlayer: nat)
      requires |players| == 2 && players[0].color != players[1].color && currentPlayer < 2
      ensures Valid() && fresh(squares)
      ensures this.players == players && this.size == size
      ensures this.status == status && current == currentPlayer
      ensures cells == Empty(size)
    {
      this.players := players;
      this.size := size;
      this.status := status;
      current := currentPlayer;
      squares := new Cell[size, size]((i, j) => None);
      cells := Empty(size);
    }

    /** A fresh size x size grid of empty cells. */
    method InitializeBoard()
      requires Valid()
      modifies this`squares, this`cells
      ensures Valid() && fresh(squares)
      ensures cells == Empty(size)
    {
      var a := new Cell[size, size];
      for i := 0 to size
        invariant forall r, s :: 0 <= r < i && 0 <= s < size ==> a[r, s] == None
      {
        for j := 0 to size
          invariant forall r, s :: 0 <= r < i && 0 <= s < size ==> a[r, s] == None
          invariant forall s :: 0 <= s < j ==> a[i, s] == None
        {
          a[i, j] := None;
        }
      }
      squares := a;
      cells := Empty(size);
    }

    /** Puts a disk of colour c on p, whatever was there. */
    method PlaceDisk(p: Position, c: Color)
      requires Valid() && InBounds(cells, p)
      modifies squares, this`cells
      ensures Valid()
      ensures cells == Put(old(cells), p, Some(c))
    {
      squares[p.x, p.y] := Some(c);
      cells := Put(cells, p, Some(c));
    }

    /** The four opening disks. */
    method InitializeBoardDisks()
      requires Valid() && size >= 5
      modifies squares, this`cells
      ensures Valid()
      ensures cells == WithOpeningDisks(old(cells))
    {
      PlaceDisk(Position(3, 3), White);
      PlaceDisk(Position(3, 4), Black);
      PlaceDisk(Position(4, 3), Black);
      PlaceDisk(Position(4, 4), White);
    }

    /** Sets the game going on a new board in the opening position. The
        turn loop that follows is TakeTurn. */
    method StartGame()
      requires Valid() && size >= 5
      modifies this`status, this`squares, this`cells
      ensures Valid() && fresh(squares)
      ensures status == Play && cells == Opening(size)
    {
      status := Play;
      InitializeBoard();
      InitializeBoardDisks();
    }

    /** The player holding colour c (there is exactly one). */
    function PlayerByColor(c: Color): (p: Player)
      requires |players| == 2 && players[0].color != players[1].color
      ensures p in players && p.color == c
    {
      if players[0].color == c then players[0]
      else assert players[1].color == Opponent(players[0].color) == c; players[1]
    }

    /** Walks from the neighbour of p in direction d over the opponent's
        disks; d qualifies when at least one was crossed and the walk stops
        on a disk of the mover's colour. */
    method CheckDirection(p: Position, d: Position, playerColor: Color, opponentColor: Color)
      returns (flanks: bool)
      requires Valid() && IsUnit(d) && opponentColor == Opponent(playerColor)
      ensures flanks == Flanks(cells, p, d, playerColor)
    {
      var x, y := p.x + d.x, p.y + d.y;
      var foundOpponent := false;
      ghost var crossed: seq<Position> := [];
      while 0 <= x < size && 0 <= y < size && squares[x, y].Some? && squares[x, y].value == opponentColor
        invariant WalkedTo(cells, Next(p, d), d, opponentColor, crossed, Position(x, y))
        invariant foundOpponent <==> crossed != []
        decreases StepsLeft(cells, Position(x, y), d)
      {
        assert At(cells, Position(x, y)) == squares[x, y];
        WalkStep(cells, Next(p, d), d, opponentColor, crossed, Position(x, y));
        foundOpponent := true;
        crossed := crossed + [Position(x, y)];
        x, y := x + d.x, y + d.y;
      }
      assert InBounds(cells, Position(x, y)) ==> At(cells, Position(x, y)) == squares[x, y];
      WalkStop(cells, p, d, playerColor, crossed, Position(x, y));
      if foundOpponent && 0 <= x < size && 0 <= y < size && squares[x, y].Some? && squares[x, y].value == playerColor {
        return true;
      }
      return false;
    }

    /** p is a legal move for player: on the board, empty, and some
        direction qualifies. */
    method IsValidMove(p: Position, player: Player) returns (valid: bool)
      requires Valid()
      ensures valid == IsLegal(cells, p, player.color)
      ensures valid ==> InBounds(cells, p) && At(cells, p) == None
    {
      if p.x < 0 || p.x >= size || p.y < 0 || p.y >= size || squares[p.x, p.y].Some? {
        return false;
      }
      assert squares[p.x, p.y] == At(cells, p);
      var opponentColor := if player.color == Black then White else Black;
      DirectionsFacts();
      for i := 0 to |Directions|
        invariant forall k :: 0 <= k < i ==> !Flanks(cells, p, Directions[k], player.color)
      {
        var found := CheckDirection(p, Directions[i], player.color, opponentColor);
        if found {
          assert Flanks(cells, p, Directions[i], player.color);
          return true;
        }
      }
      return false;
    }

    /** Every cell, row by row, at which player may move. */
    method GetPossibleMovesForPlayer(player: Player) returns (moves: seq<Position>)
      requires Valid()
      ensures moves == LegalMoves(cells, player.color)
      ensures forall q :: q in moves <==> IsLegal(cells, q, player.color)
      ensures RowMajorSorted(moves) && Distinct(moves)
    {
      ghost var legal := LegalFor(cells, player.color);
      moves := [];
      for i := 0 to size
        invariant moves == Scan(legal, size, i, 0)
      {
        for j := 0 to size
          invariant moves == Scan(legal, size, i, j)
        {
          var valid := IsValidMove(Position(i, j), player);
          assert valid == legal(Position(i, j));
          if valid {
            moves := moves + [Position(i, j)];
          }
        }
      }
      LegalMovesSpec(cells, player.color);
    }

    method HasValidMove(player: Player) returns (has: bool)
      requires Valid()
      ensures has <==> CanMove(cells, player.color)
    {
      var moves := GetPossibleMovesForPlayer(player);
      LegalMovesSpec(cells, player.color);
      has := |moves| > 0;
    }

    /** The legal moves of the player whose turn it is. */
    method GetValidMoves() returns (moves: seq<Position>)
      requires Valid()
      ensures moves == LegalMoves(cells, Mover())
      ensures forall q :: q in moves <==> IsLegal(cells, q, Mover())
    {
      moves := GetPossibleMovesForPlayer(players[current]);
    }

    /** The first half of FlipDirection: walks from the neighbour of p in
        direction d over the disks of colour opponentColor, collecting their
        positions, and reports the cell where the walk stopped. */
    method CollectRun(p: Position, d: Position, opponentColor: Color)
      returns (disksToFlip: seq<Position>, stop: Position)
      requires Valid() && IsUnit(d)
      ensures disksToFlip == Run(cells, Next(p, d), d, opponentColor)
      ensures stop == RunEnd(cells, Next(p, d), d, opponentColor)
    {
      var x, y := p.x + d.x, p.y + d.y;
      disksToFlip := [];
      while 0 <= x < size && 0 <= y < size && squares[x, y].Some? && squares[x, y].value == opponentColor
        invariant WalkedTo(cells, Next(p, d), d, opponentColor, disksToFlip, Position(x, y))
        decreases StepsLeft(cells, Position(x, y), d)
      {
        assert At(cells, Position(x, y)) == squares[x, y];
        WalkStep(cells, Next(p, d), d, opponentColor, disksToFlip, Position(x, y));
        disksToFlip := disksToFlip + [Position(x, y)];
        x, y := x + d.x, y + d.y;
      }
      assert InBounds(cells, Position(x, y)) ==> At(cells, Position(x, y)) == squares[x, y];
      RunUnique(cells, Next(p, d), d, opponentColor, disksToFlip);
      stop := Position(x, y);
    }

    /** Turns to playerColor every disk that direction d brackets from p. */
    method FlipDirection(p: Position, d: Position, playerColor: Color, opponentColor: Color)
      requires Valid() && IsUnit(d) && opponentColor == Opponent(playerColor)
      modifies squares, this`cells
      ensures Valid()
      ensures cells == FlipRay(old(cells), p, d, playerColor)
    {
      var disksToFlip, stop := CollectRun(p, d, opponentColor);
      var x, y := stop.x, stop.y;
      assert InBounds(cells, stop) ==> At(cells, stop) == squares[x, y];
      if 0 <= x < size && 0 <= y < size && squares[x, y].Some? && squares[x, y].value == playerColor {
        ghost var before := cells;
        ghost var target := Paint(cells, disksToFlip, playerColor);
        for k := 0 to |disksToFlip|
          invariant Valid()
          invariant Paint(cells, disksToFlip[k..], playerColor) == target
        {
          var q := disksToFlip[k];
          assert InBounds(before, q);
          assert disksToFlip[k..][0] == q && disksToFlip[k..][1..] == disksToFlip[k + 1..];
          PlaceDisk(q, playerColor);
        }
      }
    }

    /** Flips the bracketed disks of all eight directions, one after the other. */
    method FlipDisks(p: Position, playerColor: Color)
      requires Valid()
      modifies squares, this`cells
      ensures Valid()
      ensures cells == FlipUpTo(old(cells), p, playerColor, |Directions|)
    {
      var opponentColor := if playerColor == Black then White else Black;
      DirectionsFacts();
      for i := 0 to |Directions|
        invariant Valid()
        invariant cells == FlipUpTo(old(cells), p, playerColor, i)
      {
        FlipDirection(p, Directions[i], playerColor, opponentColor);
      }
    }

    /** Hands the turn to the other player. */
    method SwitchPlayer()
      requires Valid()
      modifies this`current
      ensures Valid()
      ensures current == Other(old(current))
    {
      current := Other(current);
    }

    /** Plays p for the current player. An illegal p is refused (ok is
        false) and nothing changes; a legal one places the disk, flips the
        bracketed disks and passes the turn. */
    method MakeMove(p: Position) returns (ok: bool)
      requires Valid()
      modifies squares, this`cells, this`current
      ensures Valid()
      ensures ok == IsLegal(old(cells), p, old(Mover()))
      ensures ok ==> cells == ApplyMove(old(cells), p, old(Mover())) && current == Other(old(current))
      ensures !ok ==> cells == old(cells) && current == old(current)
    {
      ok := IsValidMove(p, players[current]);
      if !ok {
        return;
      }
      var c := players[current].color;
      PlaceDisk(p, c);
      FlipDisks(p, c);
      SwitchPlayer();
    }

    /** The number of disks of player's colour on the board. */
    method GetPlayerScore(player: Player) returns (count: nat)
      requires Valid()
      ensures count == Score(cells, player.color)
    {
      count := 0;
      for i := 0 to size
        invariant count == CountRows(cells, Some(player.color), i)
      {
        for j := 0 to size
          invariant count == CountRows(cells, Some(player.color), i) + CountRow(cells[i], Some(player.color), j)
        {
          var disk := squares[i, j];
          assert disk == At(cells, Position(i, j));
          if disk.Some? && disk.value == player.color {
            count := count + 1;
          }
        }
      }
    }

    predicate IsGameOver()
      reads this
    {
      status == Win || status == Draw
    }

    /** Ends the game: won when the scores differ, drawn when they are equal. */
    method FinishGame()
      requires Valid()
      modifies this`status
      ensures Valid() && IsGameOver()
      ensures status == if Score(cells, Black) != Score(cells, White) then Win else Draw
    {
      var blackScore := GetPlayerScore(PlayerByColor(Black));
      var whiteScore := GetPlayerScore(PlayerByColor(White));
      if blackScore > whiteScore {
        status := Win;
      } else if whiteScore > blackScore {
        status := Win;
      } else {
        status := Draw;
      }
    }

    /** No winner unless the game is won; then the player with more disks. */
    method GetWinner() returns (winner: Option<Player>)
      requires Valid()
      ensures status != Win ==> winner == None
      ensures status == Win ==> (winner != None <==> Score(cells, Black) != Score(cells, White))
      ensures winner != None ==>
        winner.value in players && Score(cells, winner.value.color) > Score(cells, Opponent(winner.value.color))
    {
      if status != Win {
        return None;
      }
      var blackScore := GetPlayerScore(PlayerByColor(Black));
      var whiteScore := GetPlayerScore(PlayerByColor(White));
      if blackScore > whiteScore {
        return Some(PlayerByColor(Black));
      } else if whiteScore > blackScore {
        return Some(PlayerByColor(White));
      } else {
        return None;
      }
    }

    /** One pass of the game loop, with move standing for what the current
        player chose. A player with a move plays it when it is legal and is
        asked again otherwise; a player without one passes, and when the
        other player has no move either the game is finished. */
    method TakeTurn(move: Position) returns (outcome: Turn)
      requires Valid() && status == Play
      modifies squares, this`cells, this`current, this`status
      ensures Valid()
      ensures (outcome == Moved || outcome == Rejected) <==> old(CanMove(cells, Mover()))
      ensures outcome == Moved <==> old(CanMove(cells, Mover())) && IsLegal(old(cells), move, old(Mover()))
      ensures outcome == Moved ==>
        cells == ApplyMove(old(cells), move, old(Mover())) && current == Other(old(current)) && status == Play
      ensures outcome == Rejected ==>
        cells == old(cells) && current == old(current) && status == Play
      ensures outcome == Passed || outcome == GameOver ==>
        cells == old(cells) && current == Other(old(current))
      ensures outcome == Passed ==> CanMove(cells, Mover()) && status == Play
      ensures outcome == GameOver ==>
        !old(CanMove(cells, Mover())) && !CanMove(cells, Mover()) && IsGameOver() &&
        status == (if Score(cells, Black) != Score(cells, White) then Win else Draw)
    {
      var has := HasValidMove(players[current]);
      if has {
        var valid := IsValidMove(move, players[current]);
        if valid {
          var ok := MakeMove(move);
          outcome := Moved;
        } else {
          outcome := Rejected;
        }
      } else {
        SwitchPlayer();
        has := HasValidMove(players[current]);
        if !has {
          FinishGame();
          outcome := GameOver;
        } else {
          outcome := Passed;
        }
      }
    }
  }
}
