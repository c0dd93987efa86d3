/** The angry professor cancels the class when fewer students than the
    threshold are present; a student is present when the arrival time is
    not positive (on time or early). */
module AngryProfessor {

  const DELIMITER: char := ' '

  datatype Error = WrongNumberOfValues(count: nat)
  datatype Result<T> = Success(value: T) | Failure(error: Error)

  /** `is_cancelled`: cancelled exactly when the threshold exceeds the
      number of students present. */
  function IsCancelled(numberOfStudentsPresent: int, threshold: int): bool {
    threshold > numberOfStudentsPresent
  }

  /** More students present never turns a held class into a cancelled one,
      and a higher threshold never turns a cancelled class into a held one. */
  lemma CancelledMonotone(present: int, present': int, threshold: int, threshold': int)
    requires present' <= present && threshold <= threshold'
    ensures IsCancelled(present, threshold) ==> IsCancelled(present', threshold')
  {
  }

  predicate Present(arrival: int) {
    arrival <= 0
  }

  /** Number of students present, counted from the front of the list. */
  function CountPresent(xs: seq<int>): (n: nat)
    ensures n <= |xs|
  {
    if xs == [] then 0
    else CountPresent(xs[..|xs| - 1]) + (if Present(xs[|xs| - 1]) then 1 else 0)
  }

  /** The positions of present students. */
  ghost function PresentPositions(xs: seq<int>): set<nat> {
    set k: nat | k < |xs| && Present(xs[k])
  }

  /** Counting agrees with the size of the set of present positions. */
  lemma {:induction false} CountIsCardinality(xs: seq<int>)
    ensures CountPresent(xs) == |PresentPositions(xs)|
  {
    if xs != [] {
      var n := |xs| - 1;
      var init := xs[..n];
      CountIsCardinality(init);
      if Present(xs[n]) {
        assert PresentPositions(xs) == PresentPositions(init) + {n};
      } else {
        assert PresentPositions(xs) == PresentPositions(init);
      }
    }
  }

  lemma {:induction false} CountAppend(xs: seq<int>, ys: seq<int>)
    ensures CountPresent(xs + ys) == CountPresent(xs) + CountPresent(ys)
    decreases |ys|
  {
    if ys != [] {
      var n := |ys| - 1;
      assert (xs + ys)[..|xs + ys| - 1] == xs + ys[..n];
      CountAppend(xs, ys[..n]);
    } else {
      assert xs + ys == xs;
    }
  }

  /** Everybody is present exactly when the count is the length, and nobody
      is present exactly when the count is zero. */
  lemma {:induction false} CountExtremes(xs: seq<int>)
    ensures CountPresent(xs) == |xs| <==> forall k :: 0 <= k < |xs| ==> Present(xs[k])
    ensures CountPresent(xs) == 0 <==> forall k :: 0 <= k < |xs| ==> !Present(xs[k])
  {
    if xs != [] {
      var n := |xs| - 1;
      var init := xs[..n];
      CountExtremes(init);
      assert forall k :: 0 <= k < n ==> init[k] == xs[k];
    }
  }

  /** `class_size`: the loop keeps `result` equal to the count over the
      arrivals processed so far. */
  method ClassSize(param: seq<int>) returns (result: nat)
    ensures result == CountPresent(param)
  {
    result := 0;
    for i := 0 to |param|
      invariant result == CountPresent(param[..i])
    {
      assert param[..i + 1][..i] == param[..i];
      if param[i] <= 0 {
        result := result + 1;
      }
    }
    assert param[..|param|] == param;
  }

  /** `check_if_class_is_cancelled` over the integers of the two input lines.
      The first line must hold exactly two values (unpacking fails otherwise);
      the first of them, the total number of students, is never used. */
  method CheckIfClassIsCancelled(firstInput: seq<int>, secondInput: seq<int>) returns (r: Result<bool>)
    ensures |firstInput| != 2 <==> r == Failure(WrongNumberOfValues(|firstInput|))
    ensures |firstInput| == 2 ==> r == Success(IsCancelled(CountPresent(secondInput), firstInput[1]))
  {
    if |firstInput| != 2 {
      return Failure(WrongNumberOfValues(|firstInput|));
    }
    var totalStudents, threshold := firstInput[0], firstInput[1];
    var numberOfPresentStudents := ClassSize(secondInput);
    r := Success(IsCancelled(numberOfPresentStudents, threshold));
  }

  lemma ThresholdExamples()
    ensures !IsCancelled(0, 0) && IsCancelled(0, 1)
  {
  }

  /** An arrival time of exactly zero counts as present. */
  lemma ClassSizeExamples()
    ensures CountPresent([-2, -1, 0, 1, 2]) == 3
    ensures CountPresent([-2, 1, 0, 2]) == 2
    ensures CountPresent([0]) == 1
  {
    assert [-2, -1][..1] == [-2] && [-2, -1, 0][..2] == [-2, -1];
    assert CountPresent([-2, -1, 0]) == 3;
    assert [-2, -1, 0, 1][..3] == [-2, -1, 0];
    assert CountPresent([-2, -1, 0, 1]) == 3;
    assert [-2, -1, 0, 1, 2][..4] == [-2, -1, 0, 1];
    var ys := [-2, 1, 0, 2];
    assert ys[..3] == [-2, 1, 0] && ys[..3][..2] == [-2, 1] && [-2, 1][..1] == [-2];
  }

  /** Lines "4 3" and "0 -3 -4 2": three present, threshold three, held. */
  lemma SpecifiedInputFormat()
    ensures CountPresent([0, -3, -4, 2]) == 3
    ensures !IsCancelled(CountPresent([0, -3, -4, 2]), 3)
  {
    var xs := [0, -3, -4, 2];
    assert xs[..3] == [0, -3, -4] && xs[..3][..2] == [0, -3] && [0, -3][..1] == [0];
  }

  /** `check_if_class_is_cancelled("4 3", "0 -3 -4 2")` holds the class. */
  method SpecifiedInputIsHeld() returns (r: Result<bool>)
    ensures r == Success(false)
  {
    r := CheckIfClassIsCancelled([4, 3], [0, -3, -4, 2]);
    SpecifiedInputFormat();
  }

  // Text form of the input lines: `strip()` then `split(" ")`.

  /** The characters Python 2's `str.strip()` removes from a byte string. */
  predicate IsWhitespace(c: char) {
    c == ' ' || c == '\t' || c == '\n' || c == '\r' || c == '\U{000B}' || c == '\U{000C}'
  }

  function StripLeft(s: string): (r: string)
    ensures |r| <= |s| && r == s[|s| - |r|..]
    ensures r != [] ==> !IsWhitespace(r[0])
    ensures forall k :: 0 <= k < |s| - |r| ==> IsWhitespace(s[k])
  {
    if s != [] && IsWhitespace(s[0]) then
      var r := StripLeft(s[1..]);
      assert s[1..][|s| - 1 - |r|..] == s[|s| - |r|..];
      assert forall k :: 1 <= k < |s| - |r| ==> s[k] == s[1..][k - 1];
      r
    else s
  }

  function StripRight(s: string): (r: string)
    ensures |r| <= |s| && r == s[..|r|]
    ensures r != [] ==> !IsWhitespace(r[|r| - 1])
    ensures forall k :: |r| <= k < |s| ==> IsWhitespace(s[k])
  {
    if s != [] && IsWhitespace(s[|s| - 1]) then
      var r := StripRight(s[..|s| - 1]);
      assert s[..|s| - 1][..|r|] == s[..|r|];
      assert forall k :: |r| <= k < |s| - 1 ==> s[k] == s[..|s| - 1][k];
      r
    else s
  }

  /** `r` is the slice `s[i..j]` and everything outside it is whitespace. */
  predicate StrippedSlice(s: string, r: string, i: int, j: int) {
    && 0 <= i <= j <= |s| && r == s[i..j]
    && forall k :: 0 <= k < |s| && (k < i || j <= k) ==> IsWhitespace(s[k])
  }

  /** `s.strip()`: a middle part of `s` with whitespace only around it. */
  function Strip(s: string): (r: string)
    ensures exists i, j :: StrippedSlice(s, r, i, j)
    ensures r != [] ==> !IsWhitespace(r[0]) && !IsWhitespace(r[|r| - 1])
  {
    var left := StripLeft(s);
    var r := StripRight(left);
    StripLeavesSlice(s, left, r);
    r
  }

  /** Cutting whitespace off the front and then off the back leaves a slice
      of the original with whitespace only around it. */
  lemma StripLeavesSlice(s: string, left: string, r: string)
    requires |left| <= |s| && left == s[|s| - |left|..]
    requires forall k :: 0 <= k < |s| - |left| ==> IsWhitespace(s[k])
    requires |r| <= |left| && r == left[..|r|]
    requires forall k :: |r| <= k < |left| ==> IsWhitespace(left[k])
    ensures StrippedSlice(s, r, |s| - |left|, |s| - |left| + |r|)
  {
    var i := |s| - |left|;
    assert left == s[i..];
    assert r == left[..|r|] == s[i..i + |r|];
    forall k | 0 <= k < |s| && (k < i || i + |r| <= k)
      ensures IsWhitespace(s[k])
    {
      if i + |r| <= k {
        assert s[k] == left[k - i];
      }
    }
  }

  /** The inverse of splitting: the parts joined by the delimiter. */
  function Join(parts: seq<string>, d: char): string
    requires |parts| > 0
  {
    if |parts| == 1 then parts[0] else parts[0] + [d] + Join(parts[1..], d)
  }

  /** `s.split(d)` with an explicit delimiter: adjacent delimiters give empty
      parts and the empty string gives one empty part. Joining the parts
      gives back `s`, and no part contains the delimiter. */
  function Split(s: string, d: char): (parts: seq<string>)
    ensures |parts| > 0
    ensures Join(parts, d) == s
    ensures forall k :: 0 <= k < |parts| ==> d !in parts[k]
  {
    if s == [] then [[]]
    else if s[0] == d then [[]] + Split(s[1..], d)
    else
      var rest := Split(s[1..], d);
      [[s[0]] + rest[0]] + rest[1..]
  }

  /** The tokens of one input line. */
  function Tokens(line: string): (tokens: seq<string>)
    ensures |tokens| > 0
    ensures Join(tokens, DELIMITER) == Strip(line)
    ensures forall k :: 0 <= k < |tokens| ==> DELIMITER !in tokens[k]
  {
    Split(Strip(line), DELIMITER)
  }

  lemma StripExample()
    ensures Strip(" 4 3\n") == "4 3"
  {
    StripLeftExample();
    StripRightExample();
  }

  lemma StripLeftExample()
    ensures StripLeft(" 4 3\n") == "4 3\n"
  {
    assert !IsWhitespace('4');
    assert StripLeft("4 3\n") == "4 3\n";
    assert " 4 3\n"[1..] == "4 3\n";
  }

  lemma StripRightExample()
    ensures StripRight("4 3\n") == "4 3"
  {
    assert !IsWhitespace('3');
    assert StripRight("4 3") == "4 3";
    assert "4 3\n"[..3] == "4 3";
  }

  /** Control characters such as the file separator are not whitespace to
      Python 2's `strip()`, so they stay part of the first token. */
  lemma FileSeparatorIsKept()
    ensures Tokens("\U{001C}4 3") == ["\U{001C}4", "3"]
  {
    var line := "\U{001C}4 3";
    assert !IsWhitespace(line[0]) && !IsWhitespace(line[3]);
    assert StripLeft(line) == line;
    assert StripRight(line) == line;
    assert line[1..] == "4 3";
    SplitExample();
    assert [line[0]] + "4" == "\U{001C}4";
  }

  lemma SplitExample()
    ensures Split("4 3", ' ') == ["4", "3"]
  {
    assert "3"[1..] == [];
    assert Split("3", ' ') == ["3"];
    assert " 3"[1..] == "3";
    assert Split(" 3", ' ') == ["", "3"];
    assert "4 3"[1..] == " 3";
    assert ['4'] + "" == "4";
  }

  lemma TokensExample()
    ensures Tokens(" 4 3\n") == ["4", "3"]
  {
    StripExample();
    SplitExample();
  }
}
