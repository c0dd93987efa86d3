/** Legal moves of the Reversi kata, as this implementation decides them:
    a move at a field is legal when, in one of the four orthogonal
    directions, the adjacent field holds the opponent's token and the
    field right behind it holds the current player's token. Fields are
    read with Python's list indexing, so an index of -1 or -2 reads the
    last or the last but one row or column. */
module Reversi {
  import opened Decimal

  /** The tokens of a field, plus `NoPlayer` for the empty player string ""
      a new board starts with. No field of the grid ever holds `NoPlayer`. */
  datatype Token = Empty | Black | White | NoPlayer

  type CellState = t: Token | t != NoPlayer witness Empty

  /** `get_opponent`: White for Black, Black for anything else. */
  function GetOpponent(player: Token): (opponent: Token)
    ensures opponent == White <==> player == Black
    ensures opponent == Black || opponent == White
  {
    if player == Black then White else Black
  }

  lemma OpponentSwapsColours()
    ensures GetOpponent(Black) == White && GetOpponent(White) == Black
    ensures GetOpponent(GetOpponent(Black)) == Black && GetOpponent(GetOpponent(White)) == White
    ensures GetOpponent(Empty) == Black && GetOpponent(NoPlayer) == Black
  {
  }

  /** Any value a `Field` may be compared with. */
  datatype Value = FieldValue(field: Field) | OtherValue

  /** A (row, column) coordinate with structural equality. */
  datatype Field = Field(row: int, column: int) {

    /** `equals(row, column)`. */
    function Equals(row: int, column: int): (r: bool)
      ensures r <==> this == Field(row, column)
    {
      this.row == row && this.column == column
    }

    /** `__eq__`: a Field equals another Field with the same coordinates
        and differs from every other kind of value. */
    function Eq(rhs: Value): (r: bool)
      ensures r <==> rhs == FieldValue(this)
    {
      match rhs
      case FieldValue(other) => Equals(other.row, other.column)
      case OtherValue => false
    }

    /** `__hash__`: the row alone. */
    function Hash(): int {
      row
    }

    /** `__str__`: "[row,column]". */
    function ToString(): (s: string)
      ensures |s| >= 5 && s[0] == '[' && s[|s| - 1] == ']'
    {
      "[" + IntToString(row) + "," + IntToString(column) + "]"
    }
  }

  /** Equal fields hash equally, so fields behave as set elements. */
  lemma HashAgreesWithEquality(a: Field, b: Value)
    ensures a.Eq(b) ==> b.FieldValue? && a.Hash() == b.field.Hash()
  {
  }

  lemma EqualityIsEquivalence(a: Field, b: Field, c: Field)
    ensures a.Eq(FieldValue(a))
    ensures a.Eq(FieldValue(b)) ==> b.Eq(FieldValue(a))
    ensures a.Eq(FieldValue(b)) && b.Eq(FieldValue(c)) ==> a.Eq(FieldValue(c))
  {
  }

  /** Position of the first occurrence of `ch` in `s`. */
  function IndexOf(s: string, ch: char): (k: nat)
    requires ch in s
    ensures k < |s| && s[k] == ch && ch !in s[..k]
  {
    if s[0] == ch then 0 else 1 + IndexOf(s[1..], ch)
  }

  lemma {:induction false} IndexOfAfter(a: string, b: string)
    requires ',' !in a
    ensures IndexOf(a + [','] + b, ',') == |a|
  {
    if a != [] {
      assert (a + [','] + b)[1..] == a[1..] + [','] + b;
      IndexOfAfter(a[1..], b);
    }
  }

  /** Splitting at the first ',' is unique when neither left part holds one. */
  lemma SplitAtComma(a: string, b: string, c: string, d: string)
    requires ',' !in a && ',' !in c
    requires a + [','] + b == c + [','] + d
    ensures a == c && b == d
  {
    var s := a + [','] + b;
    IndexOfAfter(a, b);
    IndexOfAfter(c, d);
    assert a == s[..|a|] == c;
    assert b == s[|a| + 1..] == d;
  }

  /** Different fields print differently. */
  lemma ToStringInjective(f: Field, g: Field)
    requires f.ToString() == g.ToString()
    ensures f == g
  {
    var s, t := f.ToString(), g.ToString();
    var ft := IntToString(f.row);
    var gt := IntToString(g.row);
    var fc := IntToString(f.column) + "]";
    var gc := IntToString(g.column) + "]";
    assert s == "[" + (ft + [','] + fc);
    assert t == "[" + (gt + [','] + gc);
    assert ft + [','] + fc == s[1..] == t[1..] == gt + [','] + gc;
    assert ',' !in ft && ',' !in gt by {
      assert IsIntText(ft) && IsIntText(gt);
    }
    SplitAtComma(ft, fc, gt, gc);
    assert IntToString(f.column) == fc[..|fc| - 1] == gc[..|gc| - 1] == IntToString(g.column);
    IntToStringInjective(f.row, g.row);
    IntToStringInjective(f.column, g.column);
  }

  /** Python's index into a list of length `n`: a negative index counts
      from the end. */
  function PyIndex(i: int, n: nat): (k: nat)
    requires -(n as int) <= i < n
    ensures k < n && (k == i || k == i + n)
  {
    if i < 0 then i + n else i
  }

  predicate OnBoard(field: Field) {
    0 <= field.row < 8 && 0 <= field.column < 8
  }

  /** The start position as the tests describe it: Black on (3,3) and (4,4),
      White on (3,4) and (4,3), every other field empty. */
  function StartCell(row: int, column: int): CellState {
    if (row == 3 && column == 3) || (row == 4 && column == 4) then Black
    else if (row == 3 && column == 4) || (row == 4 && column == 3) then White
    else Empty
  }

  function InitialGrid(): seq<seq<CellState>> {
    [
      [Empty, Empty, Empty, Empty, Empty, Empty, Empty, Empty],
      [Empty, Empty, Empty, Empty, Empty, Empty, Empty, Empty],
      [Empty, Empty, Empty, Empty, Empty, Empty, Empty, Empty],
      [Empty, Empty, Empty, Black, White, Empty, Empty, Empty],
      [Empty, Empty, Empty, White, Black, Empty, Empty, Empty],
      [Empty, Empty, Empty, Empty, Empty, Empty, Empty, Empty],
      [Empty, Empty, Empty, Empty, Empty, Empty, Empty, Empty],
      [Empty, Empty, Empty, Empty, Empty, Empty, Empty, Empty]
    ]
  }

  /** The initial grid is 8 by 8 and holds exactly the start position. */
  lemma InitialLayout()
    ensures |InitialGrid()| == 8
    ensures forall r :: 0 <= r < 8 ==> |InitialGrid()[r]| == 8
    ensures forall r, c :: 0 <= r < 8 && 0 <= c < 8 ==> InitialGrid()[r][c] == StartCell(r, c)
  {
    var g := InitialGrid();
    forall r, c | 0 <= r < 8 && 0 <= c < 8
      ensures g[r][c] == StartCell(r, c)
    {
      if r == 3 || r == 4 {
        assert g[r][c] == StartCell(r, c);
      } else {
        assert g[r][c] == Empty;
      }
    }
  }

  predicate SquareGrid(g: seq<seq<CellState>>) {
    |g| == 8 && forall r :: 0 <= r < |g| ==> |g[r]| == 8
  }

  /** Reference reading of one direction, with indices taken modulo 8:
      within the upper bounds, the opponent adjacent and the player behind. */
  ghost predicate Brackets(g: seq<seq<CellState>>, player: Token, field: Field, vert: int, hor: int)
    requires SquareGrid(g)
  {
    && field.row + 2 * vert < 8 && field.column + 2 * hor < 8
    && g[(field.row + vert) % 8][(field.column + hor) % 8] == GetOpponent(player)
    && g[(field.row + 2 * vert) % 8][(field.column + 2 * hor) % 8] == player
  }

  /** The four directions `is_legal_move` looks in: above, below, left, right. */
  const Directions: seq<(int, int)> := [(-1, 0), (1, 0), (0, -1), (0, 1)]

  class Board {
    var board: seq<seq<CellState>>
    var currentPlayer: Token

    ghost predicate Valid()
      reads this
    {
      SquareGrid(board)
    }

    /** A new board: the start position, and no current player yet. */
    constructor ()
      ensures Valid()
      ensures board == InitialGrid() && currentPlayer == NoPlayer
    {
      board := InitialGrid();
      currentPlayer := NoPlayer;
    }

    function Rows(): (n: int)
      reads this
      requires Valid()
      ensures n == 8
    {
      |board|
    }

    function Columns(): (n: int)
      reads this
      requires Valid()
      ensures n == 8
    {
      |board[0]|
    }

    /** `get(row, column)`: Python indexing, defined from -8 to 7. */
    function Get(row: int, column: int): (t: CellState)
      reads this
      requires Valid()
      requires -Rows() <= row < Rows() && -Columns() <= column < Columns()
      ensures t == board[row % 8][column % 8]
    {
      var line := board[PyIndex(row, |board|)];
      line[PyIndex(column, |line|)]
    }

    function GetField(field: Field): (t: CellState)
      reads this
      requires Valid()
      requires -Rows() <= field.row < Rows() && -Columns() <= field.column < Columns()
      ensures t == board[field.row % 8][field.column % 8]
    {
      Get(field.row, field.column)
    }

    /** Only the upper limits are checked. */
    predicate WithinBoardBounds(field: Field, vert: int, hor: int)
      reads this
      requires Valid()
      ensures WithinBoardBounds(field, vert, hor) <==> field.row + 2 * vert < 8 && field.column + 2 * hor < 8
    {
      field.row + 2 * vert < Rows() && field.column + 2 * hor < Columns()
    }

    predicate AdjacentFieldCoveredByOpponent(field: Field, vert: int, hor: int)
      reads this
      requires Valid()
      requires -Rows() <= field.row + vert < Rows() && -Columns() <= field.column + hor < Columns()
      ensures AdjacentFieldCoveredByOpponent(field, vert, hor) <==>
        board[(field.row + vert) % 8][(field.column + hor) % 8] == GetOpponent(currentPlayer)
    {
      Get(field.row + 1 * vert, field.column + 1 * hor) == GetOpponent(currentPlayer)
    }

    predicate FieldBehindCoveredByPlayer(field: Field, vert: int, hor: int)
      reads this
      requires Valid()
      requires -Rows() <= field.row + 2 * vert < Rows() && -Columns() <= field.column + 2 * hor < Columns()
      ensures FieldBehindCoveredByPlayer(field, vert, hor) <==>
        board[(field.row + 2 * vert) % 8][(field.column + 2 * hor) % 8] == currentPlayer
    {
      Get(field.row + 2 * vert, field.column + 2 * hor) == currentPlayer
    }

    /** `_legal_move_`: opponent adjacent and player right behind. */
    predicate LegalPattern(field: Field, vert: int, hor: int)
      reads this
      requires Valid()
      requires -Rows() <= field.row + vert < Rows() && -Columns() <= field.column + hor < Columns()
      requires -Rows() <= field.row + 2 * vert < Rows() && -Columns() <= field.column + 2 * hor < Columns()
      ensures LegalPattern(field, vert, hor) <==>
        && board[(field.row + vert) % 8][(field.column + hor) % 8] == GetOpponent(currentPlayer)
        && board[(field.row + 2 * vert) % 8][(field.column + 2 * hor) % 8] == currentPlayer
    {
      AdjacentFieldCoveredByOpponent(field, vert, hor) && FieldBehindCoveredByPlayer(field, vert, hor)
    }

    /** `check_for_legal_constellation`: the bounds test guards the reads,
        and for a field on the board and unit steps every index read lies
        between -2 and 7, which Python's indexing accepts. */
    predicate CheckForLegalConstellation(field: Field, vert: int, hor: int)
      reads this
      requires Valid() && OnBoard(field)
      requires -1 <= vert <= 1 && -1 <= hor <= 1
      ensures CheckForLegalConstellation(field, vert, hor) <==> Brackets(board, currentPlayer, field, vert, hor)
    {
      WithinBoardBounds(field, vert, hor) && LegalPattern(field, vert, hor)
    }

    /** `is_legal_move`: some orthogonal direction brackets one opponent
        token; the content of `field` itself is not looked at. */
    predicate IsLegalMove(field: Field)
      reads this
      requires Valid() && OnBoard(field)
      ensures IsLegalMove(field) <==>
        exists k :: 0 <= k < |Directions| && Brackets(board, currentPlayer, field, Directions[k].0, Directions[k].1)
    {
      var above := CheckForLegalConstellation(field, -1, 0);
      var below := CheckForLegalConstellation(field, 1, 0);
      var onTheLeft := CheckForLegalConstellation(field, 0, -1);
      var onTheRight := CheckForLegalConstellation(field, 0, 1);
      assert above ==> Brackets(board, currentPlayer, field, Directions[0].0, Directions[0].1);
      assert below ==> Brackets(board, currentPlayer, field, Directions[1].0, Directions[1].1);
      assert onTheLeft ==> Brackets(board, currentPlayer, field, Directions[2].0, Directions[2].1);
      assert onTheRight ==> Brackets(board, currentPlayer, field, Directions[3].0, Directions[3].1);
      above || below || onTheLeft || onTheRight
    }

    /** `get_legal_moves(player)`: makes `player` the current player and
        collects, row by row, every field of the board that is a legal move. */
    method GetLegalMoves(player: Token) returns (legalMoves: set<Field>)
      requires Valid()
      modifies this
      ensures Valid() && board == old(board) && currentPlayer == player
      ensures forall f :: f in legalMoves <==> OnBoard(f) && IsLegalMove(f)
    {
      currentPlayer := player;
      legalMoves := {};
      var row := 0;
      while row < Rows()
        invariant 0 <= row <= 8
        invariant Valid() && board == old(board) && currentPlayer == player
        invariant forall f :: f in legalMoves <==> OnBoard(f) && f.row < row && IsLegalMove(f)
      {
        var column := 0;
        while column < Rows()
          invariant 0 <= column <= 8
          invariant forall f :: f in legalMoves <==>
            OnBoard(f) && (f.row < row || (f.row == row && f.column < column)) && IsLegalMove(f)
        {
          var field := Field(row, column);
          if IsLegalMove(field) {
            legalMoves := legalMoves + {field};
          }
          column := column + 1;
        }
        row := row + 1;
      }
    }
  }

  /** While the current player is "", no field is a legal move: no field
      holds that value. */
  lemma NoLegalMoveWithoutPlayer(b: Board, field: Field)
    requires b.Valid() && OnBoard(field) && b.currentPlayer == NoPlayer
    ensures !b.IsLegalMove(field)
  {
  }

  /** Whether a field is a legal move does not depend on what the field
      holds: two boards that differ at most in that field agree. */
  lemma LegalityIgnoresTarget(b: Board, c: Board, field: Field)
    requires b.Valid() && c.Valid() && OnBoard(field)
    requires b.currentPlayer == c.currentPlayer
    requires forall r, k :: 0 <= r < 8 && 0 <= k < 8 && (r != field.row || k != field.column) ==>
      b.board[r][k] == c.board[r][k]
    ensures b.IsLegalMove(field) <==> c.IsLegalMove(field)
  {
    var p := b.currentPlayer;
    forall k | 0 <= k < 4
      ensures Brackets(b.board, p, field, Directions[k].0, Directions[k].1)
          <==> Brackets(c.board, p, field, Directions[k].0, Directions[k].1)
    {
    }
  }

  /** Only the upper limits are checked, so "above" a field of row 0 reads
      rows -1 and -2, that is rows 7 and 6. */
  lemma WrapAroundAbove(b: Board)
    requires b.Valid() && b.currentPlayer == Black
    requires b.board[7][0] == White && b.board[6][0] == Black
    ensures b.IsLegalMove(Field(0, 0))
  {
    assert b.CheckForLegalConstellation(Field(0, 0), -1, 0);
  }

  /** An occupied field can be a legal move. */
  lemma OccupiedFieldCanBeLegal(b: Board)
    requires b.Valid() && b.currentPlayer == Black
    requires b.board[0][0] == Black && b.board[1][0] == White && b.board[2][0] == Black
    ensures b.IsLegalMove(Field(0, 0))
  {
    assert b.CheckForLegalConstellation(Field(0, 0), 1, 0);
  }

  function ExpectedMoves(player: Token): set<Field> {
    if player == Black then {Field(2, 4), Field(3, 5), Field(4, 2), Field(5, 3)}
    else {Field(2, 3), Field(3, 2), Field(4, 5), Field(5, 4)}
  }

  lemma InitialBrackets(player: Token, field: Field, k: nat)
    requires player == Black || player == White
    requires OnBoard(field) && k < 4
    requires Brackets(InitialGrid(), player, field, Directions[k].0, Directions[k].1)
    ensures field in ExpectedMoves(player)
  {
    InitialLayout();
  }

  lemma ExpectedBrackets(player: Token, field: Field)
    requires player == Black || player == White
    requires field in ExpectedMoves(player)
    ensures exists k :: 0 <= k < |Directions| && Brackets(InitialGrid(), player, field, Directions[k].0, Directions[k].1)
  {
    InitialLayout();
    var g := InitialGrid();
    if player == Black {
      if field == Field(5, 3) { assert Brackets(g, player, field, Directions[0].0, Directions[0].1); }
      else if field == Field(2, 4) { assert Brackets(g, player, field, Directions[1].0, Directions[1].1); }
      else if field == Field(3, 5) { assert Brackets(g, player, field, Directions[2].0, Directions[2].1); }
      else { assert Brackets(g, player, field, Directions[3].0, Directions[3].1); }
    } else {
      if field == Field(5, 4) { assert Brackets(g, player, field, Directions[0].0, Directions[0].1); }
      else if field == Field(2, 3) { assert Brackets(g, player, field, Directions[1].0, Directions[1].1); }
      else if field == Field(4, 5) { assert Brackets(g, player, field, Directions[2].0, Directions[2].1); }
      else { assert Brackets(g, player, field, Directions[3].0, Directions[3].1); }
    }
  }

  /** On the start position the legal moves are the four the tests list,
      for Black and for White. */
  lemma InitialLegalMoves(b: Board, field: Field)
    requires b.Valid() && b.board == InitialGrid() && OnBoard(field)
    requires b.currentPlayer == Black || b.currentPlayer == White
    ensures b.IsLegalMove(field) <==> field in ExpectedMoves(b.currentPlayer)
  {
    var p := b.currentPlayer;
    if b.IsLegalMove(field) {
      var k :| 0 <= k < |Directions| && Brackets(b.board, p, field, Directions[k].0, Directions[k].1);
      InitialBrackets(p, field, k);
    }
    if field in ExpectedMoves(p) {
      ExpectedBrackets(p, field);
    }
  }

  /** `Board().get_legal_moves(player)` for either colour. */
  method LegalMovesOfNewBoard(player: Token) returns (legalMoves: set<Field>)
    requires player == Black || player == White
    ensures legalMoves == ExpectedMoves(player)
  {
    var board := new Board();
    legalMoves := board.GetLegalMoves(player);
    forall f
      ensures f in legalMoves <==> f in ExpectedMoves(player)
    {
      if OnBoard(f) {
        InitialLegalMoves(board, f);
      }
    }
  }
}
