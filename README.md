# CodingDojos katas in Dafny

This project models three small kata solutions of the CodingDojos repository
and proves properties of the models.

- **Reversi** (`reversi.dfy`, module `Reversi`): the legal-move finder of the
  Reversi kata. A `Field` is a (row, column) value with structural equality; a
  `Board` object holds an 8×8 grid of `Empty`, `Black` and `White` tokens and a
  `currentPlayer` that starts out as the empty player string, modelled as the
  token `NoPlayer` that no field ever holds. A move at a field is legal when,
  in one of the four orthogonal directions, the adjacent field holds the
  opponent's token and the field right behind it holds the current player's
  token. The code checks only the upper limits of the board, so reading
  "above" or "left of" a field near the edge uses Python's negative list
  indices, which count from the end of the row or column; the model reads the
  grid the same way (`PyIndex`) and proves that this is indexing modulo 8.
  `get_legal_moves` is a method that overwrites `currentPlayer` and collects
  the legal fields in two nested loops; as in the code, the column loop also
  runs up to the number of rows, which covers every column of the square grid.
  `Field(row, column)` itself is the datatype constructor.
- **FizzBuzz with the digit rule** (`fizz.dfy`, module `Fizz`): "Fizz" when the
  number is divisible by 3 or its decimal text holds a '3', "Buzz" likewise for
  5, "FizzBuzz" for both, otherwise the decimal text. Java's truncating `%` is
  modelled explicitly (`JavaRem`) and proved to agree with divisibility.
  `getFizzBuzzArray` is a method that fills a new array in a loop.
- **Angry Professor** (`angry_professor.dfy`, module `AngryProfessor`): the
  class is cancelled when fewer students than the threshold arrive on time
  (arrival time ≤ 0). `class_size` is a method whose loop keeps the count over
  the processed prefix; the wrapper works on the integers of the two input
  lines, and `strip()` followed by `split(" ")` is modelled as text functions.
- `decimal.dfy` (module `Decimal`) gives the decimal text of an integer, which is
  both Python's `str(int)` and Java's `String.valueOf(int)`, with its inverse.

The model follows this code, not the usual game. The usual Reversi rules look
in eight directions, let a line bracket any number of opponent tokens and
require an empty target; this code looks in four directions at distance
exactly two and never checks the target. `get_opponent` maps every value other
than Black (the empty field and "" included) to Black instead of rejecting it;
the hash of a field is its row alone; and the board's current player starts as
"". The tests call `perform_move`, `count`, `predict_flips` and
`find_best_legal_move`, which reversi.py does not define.

## Model

| member | source | states |
|---|---|---|
| `Reversi.GetOpponent` | Reversi/main/reversi.py:12-16 | the opponent is White exactly for Black, and is always Black or White |
| `Reversi.OpponentSwapsColours` | Reversi/main/reversi.py:12-16 | Black and White swap and swapping twice gives back the colour; the empty field and "" get Black |
| `Reversi.Field.Equals` | Reversi/main/reversi.py:24-25 | true exactly when the field is at the given row and column |
| `Reversi.Field.Eq` | Reversi/main/reversi.py:33-37 | a field equals exactly the field with the same coordinates and no value of another kind |
| `Reversi.EqualityIsEquivalence` | Reversi/main/reversi.py:24-37 | field equality is reflexive, symmetric and transitive |
| `Reversi.HashAgreesWithEquality` | Reversi/main/reversi.py:27-28 | `Field.Hash` (`__hash__`) is the row alone, and equal fields have equal hashes, so fields behave as set elements |
| `Reversi.Field.ToString` | Reversi/main/reversi.py:39-40 | the text is bracketed by '[' and ']' |
| `Reversi.ToStringInjective` | Reversi/main/reversi.py:39-40 | two fields with the same text are the same field |
| `Reversi.Board.constructor` | Reversi/main/reversi.py:44-55 | a new board has the start grid and "" as current player |
| `Reversi.InitialLayout` | Reversi/main/reversi_test.py:42-54 | the start grid is 8×8 with Black on (3,3), (4,4), White on (3,4), (4,3) and every other field empty |
| `Reversi.Board.Rows` | Reversi/main/reversi.py:64-65 | a valid board has 8 rows |
| `Reversi.Board.Columns` | Reversi/main/reversi.py:67-68 | a valid board has 8 columns |
| `Reversi.Board.Get` | Reversi/main/reversi.py:73-74 | reading with Python indices from -8 to 7 reads the grid at the indices modulo 8 |
| `Reversi.Board.GetField` | Reversi/main/reversi.py:70-71 | reading a field reads the grid at its coordinates modulo 8 |
| `Reversi.Board.WithinBoardBounds` | Reversi/main/reversi.py:111-112 | only the two upper limits, row + 2·vert < 8 and column + 2·hor < 8, are checked |
| `Reversi.Board.AdjacentFieldCoveredByOpponent` | Reversi/main/reversi.py:108-109 | the field one step away (modulo 8) holds the current player's opponent |
| `Reversi.Board.FieldBehindCoveredByPlayer` | Reversi/main/reversi.py:105-106 | the field two steps away (modulo 8) holds the current player |
| `Reversi.Board.LegalPattern` | Reversi/main/reversi.py:101-103 | opponent one step away and current player two steps away |
| `Reversi.Board.CheckForLegalConstellation` | Reversi/main/reversi.py:97-99 | equals the reference reading of one direction; for a field on the board and unit steps every index read is within Python's range, so no index error occurs |
| `Reversi.Board.IsLegalMove` | Reversi/main/reversi.py:86-95 | legal exactly when one of the four directions above, below, left, right brackets one opponent token |
| `Reversi.Board.GetLegalMoves` | Reversi/main/reversi.py:76-84 | sets the current player, leaves the grid alone, and returns exactly the fields of the board that are legal moves |
| `Reversi.NoLegalMoveWithoutPlayer` | Reversi/main/reversi.py:105-106 | while the current player is "", no field is a legal move |
| `Reversi.LegalityIgnoresTarget` | Reversi/main/reversi.py:86-95 | boards that differ only at the field agree on whether it is a legal move |
| `Reversi.OccupiedFieldCanBeLegal` | Reversi/main/reversi.py:86-95 | an occupied field can be a legal move |
| `Reversi.WrapAroundAbove` | Reversi/main/reversi.py:111-112 | a field in row 0 is legal for Black when rows 7 and 6 hold White and Black above it |
| `Reversi.InitialLegalMoves` | Reversi/main/reversi_test.py:56-88 | on the start grid the legal moves are (2,4), (3,5), (4,2), (5,3) for Black and (2,3), (3,2), (4,5), (5,4) for White |
| `Reversi.LegalMovesOfNewBoard` | Reversi/main/reversi_test.py:80-88 | `Board().get_legal_moves(player)` returns those four fields for either colour |
| `Decimal.IntToString` | KataFizzBuzz/src/de/pardertec/codingdojo/Fizz.java:24 | the text is well formed, starts with '-' exactly for negative numbers, has no leading zero, and is "0" for zero |
| `Decimal.IntRoundTrip` | KataFizzBuzz/src/de/pardertec/codingdojo/Fizz.java:24 | reading back the decimal text gives the number |
| `Fizz.JavaRem` | KataFizzBuzz/src/de/pardertec/codingdojo/Fizz.java:36 | the truncated remainder is smaller than the divisor in magnitude, has the sign of the dividend, and differs from the dividend by a multiple of the divisor, which fixes it uniquely |
| `Fizz.JavaRemZero` | KataFizzBuzz/src/de/pardertec/codingdojo/Fizz.java:35-37 | the truncated remainder is zero exactly when the Euclidean one is |
| `Fizz.IsDividableBy` | KataFizzBuzz/src/de/pardertec/codingdojo/Fizz.java:35-37 | true exactly when the number is a multiple of the divisor, negative numbers included |
| `Fizz.IsFizz` | KataFizzBuzz/src/de/pardertec/codingdojo/Fizz.java:31-33 | divisible by 3 or a '3' in the decimal text |
| `Fizz.IsBuzz` | KataFizzBuzz/src/de/pardertec/codingdojo/Fizz.java:27-29 | divisible by 5 or a '5' in the decimal text |
| `Fizz.Buzz` | KataFizzBuzz/src/de/pardertec/codingdojo/Fizz.java:14-25 | "FizzBuzz", "Fizz", "Buzz" and the decimal text are each returned exactly in their case |
| `Fizz.BuzzNumberRoundTrip` | KataFizzBuzz/src/de/pardertec/codingdojo/Fizz.java:24 | an answer that is not a word reads back as the number |
| `Fizz.GetFizzBuzzArray` | KataFizzBuzz/src/de/pardertec/codingdojo/Fizz.java:39-45 | a new array of the given length whose element k is `buzz(k + 1)` |
| `Fizz.SmallNumbers` | KataFizzBuzz/test/de/pardertec/codingdojo/FizzTest.java:17-56 | 1, 2, 3, 5 and 15 give "1", "2", "Fizz", "Buzz", "FizzBuzz" |
| `Fizz.DigitRule` | KataFizzBuzz/test/de/pardertec/codingdojo/FizzTest.java:32-45 | 13 gives "Fizz", 52 gives "Buzz", 51 gives "FizzBuzz" |
| `Fizz.ArrayOfTen` | KataFizzBuzz/test/de/pardertec/codingdojo/FizzTest.java:58-68 | the array for 10 is the expected list |
| `Fizz.ArrayOfTwo` | KataFizzBuzz/test/de/pardertec/codingdojo/FizzTest.java:70-80 | the array for 2 is "1", "2" |
| `AngryProfessor.CancelledMonotone` | AngryProfessor/main/angry_professor.py:5-6 | `IsCancelled` is the comparison `threshold > present` itself; proved about it: fewer students or a higher threshold keep a cancelled class cancelled |
| `AngryProfessor.ThresholdExamples` | AngryProfessor/main/angry_professor_test.py:7-13 | (0, 0) is held and (0, 1) is cancelled |
| `AngryProfessor.CountPresent` | AngryProfessor/main/angry_professor.py:9-14 | the count of arrivals ≤ 0 never exceeds the number of arrivals |
| `AngryProfessor.CountIsCardinality` | AngryProfessor/main/angry_professor.py:9-14 | the count is the number of positions whose arrival is ≤ 0 |
| `AngryProfessor.CountAppend` | AngryProfessor/main/angry_professor.py:9-14 | the count over two lists joined is the sum of their counts |
| `AngryProfessor.CountExtremes` | AngryProfessor/main/angry_professor.py:9-14 | the count is the length exactly when all are on time and zero exactly when none is |
| `AngryProfessor.ClassSize` | AngryProfessor/main/angry_professor.py:9-14 | the loop returns the count of arrivals ≤ 0 |
| `AngryProfessor.ClassSizeExamples` | AngryProfessor/main/angry_professor_test.py:15-21 | [-2,-1,0,1,2] gives 3, [-2,1,0,2] gives 2, and an arrival at 0 is present |
| `AngryProfessor.CheckIfClassIsCancelled` | AngryProfessor/main/angry_professor.py:17-22 | fails exactly when the first line does not hold two values; otherwise cancelled exactly when the threshold exceeds the count, whatever the total number of students |
| `AngryProfessor.SpecifiedInputFormat` | AngryProfessor/main/angry_professor_test.py:23-25 | "4 3" with "0 -3 -4 2": three present, threshold three, not cancelled |
| `AngryProfessor.SpecifiedInputIsHeld` | AngryProfessor/main/angry_professor_test.py:23-25 | the wrapper on the lines "4 3" and "0 -3 -4 2" succeeds with "not cancelled" |
| `AngryProfessor.Strip` | AngryProfessor/main/angry_professor.py:19 | a middle part of the line, everything removed around it is whitespace, and it neither starts nor ends with whitespace |
| `AngryProfessor.Split` | AngryProfessor/main/angry_professor.py:19-20 | joining the parts with the delimiter gives back the text, and no part holds the delimiter |
| `AngryProfessor.Tokens` | AngryProfessor/main/angry_professor.py:19-20 | the tokens joined by spaces give back the stripped line, and no token holds a space |
| `AngryProfessor.TokensExample` | AngryProfessor/main/angry_professor.py:19 | " 4 3" followed by a newline gives the tokens "4" and "3" |
| `AngryProfessor.FileSeparatorIsKept` | AngryProfessor/main/angry_professor.py:19 | a leading file-separator character is not stripped and stays in the first token |

## Left out

- `Board.pretty_print` (console output) and `Field.__cmp__` (a Python 2 hook that is never called).
- `perform_move`, `count`, `predict_flips` and `find_best_legal_move`: the tests call them but the Reversi source does not define them.
- The tests that expect diagonal moves to be legal: the code looks in four directions only, and those tests never set the current player.
- The board's grid is a sequence field: the code never changes it, and the tests that assign single fields of it directly are not modelled.
- `Reversi.Board.IsLegalMove`: requires a field on the board, the domain its docstring states; Python would also evaluate some fields off the board: in row 8 only "above" passes the bound check and reads rows 7 and 6, so the field can be legal; in row 9 "above" reads row 8 and raises IndexError; rows of 10 or more give False without reading; columns 8 and 9 behave the same through "on the left"; small negative rows and columns wrap.
- `Reversi.NoLegalMoveWithoutPlayer`: `current_player` may be any Python string; the model's players are the three tokens and "".
- `Fizz.GetFizzBuzzArray`: takes a natural number, because Java throws `NegativeArraySizeException` for a negative size.
- Java's 32-bit `int`: the model uses unbounded integers. No operation in `Fizz` overflows for values in the 32-bit range (`i + 1` is at most the array size).
- Python's `int()` conversion of the tokens, and therefore a text-level wrapper: `CheckIfClassIsCancelled` takes the integers of the two lines.
- `AngryProfessor.Strip`: the source is Python 2 and strips byte strings, removing exactly ' ', '\t', '\n', '\v', '\f' and '\r'; the model removes the same six characters and treats every other character, including the control characters 0x1C to 0x1F, as text.
- The `__main__` loop of `angry_professor.py` (reading test cases and printing YES or NO) and the test harnesses.
