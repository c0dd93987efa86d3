/** FizzBuzz with the digit rule: a number is "Fizz" when it is divisible
    by 3 or its decimal text contains a '3', "Buzz" likewise for 5. */
module Fizz {
  import opened Decimal

  const FIZZ: string := "Fizz"
  const BUZZ: string := "Buzz"
  const FIZZBUZZ: string := "FizzBuzz"

  function Abs(x: int): nat {
    if x < 0 then -x else x
  }

  /** Java's `%` on `int`: truncating division, so the remainder carries
      the sign of the dividend and its magnitude is `|a| % |b|`. */
  function JavaRem(a: int, b: int): (r: int)
    requires b != 0
    ensures Abs(r) < Abs(b)
    ensures a >= 0 ==> r >= 0
    ensures a <= 0 ==> r <= 0
    ensures (a - r) % b == 0
  {
    JavaRemCongruent(a, b);
    if a < 0 then -(Abs(a) % Abs(b)) else a % Abs(b)
  }

  /** The dividend minus the truncated remainder is a multiple of the divisor. */
  lemma JavaRemCongruent(a: int, b: int)
    requires b != 0
    ensures (a - (if a < 0 then -(Abs(a) % Abs(b)) else a % Abs(b))) % b == 0
  {
    var x: int, y: int := Abs(a), Abs(b);
    var q: int := x / y;
    assert x - x % y == y * q;
    var m := if (a < 0) == (b < 0) then q else -q;
    var r: int := if a < 0 then -(x % y) else x % y;
    assert a - r == b * m by {
      if a < 0 && b < 0 { assert -(a - r) == (-b) * q; }
      else if a < 0 { assert -(a - r) == b * q; }
      else if b < 0 { assert a - r == (-b) * q; }
    }
    ModUnique(a - r, b, m, 0);
  }

  lemma {:induction false} MulAtLeast(d: nat, m: nat)
    requires m >= 1
    ensures d * m >= d
  {
    if m > 1 {
      MulAtLeast(d, m - 1);
      assert d * m == d * (m - 1) + d;
    }
  }

  /** A nonzero multiple of `d` is at least `|d|` away from zero. */
  lemma MultipleBound(d: int, m: int)
    requires d != 0 && m != 0
    ensures Abs(d * m) >= Abs(d)
  {
    assert Abs(d * m) == Abs(d) * Abs(m) by {
      if d < 0 && m < 0 { assert d * m == (-d) * (-m); }
      else if d < 0 { assert -(d * m) == (-d) * m; }
      else if m < 0 { assert -(d * m) == d * (-m); }
    }
    MulAtLeast(Abs(d), Abs(m));
  }

  /** Euclidean division is unique: any such `q`, `r` are `x / d`, `x % d`. */
  lemma ModUnique(x: int, d: int, q: int, r: int)
    requires d != 0 && 0 <= r < Abs(d) && x == d * q + r
    ensures x % d == r
  {
    var m := q - x / d;
    assert d * m == x % d - r by {
      assert x == d * (x / d) + x % d;
      assert d * q - d * (x / d) == d * m;
    }
    if m != 0 {
      MultipleBound(d, m);
    }
  }

  /** `a` is a multiple of `b` exactly when the truncated remainder is zero;
      Dafny's Euclidean remainder is used as the independent reference. */
  lemma JavaRemZero(a: int, b: int)
    requires b != 0
    ensures JavaRem(a, b) == 0 <==> a % b == 0
  {
    if Abs(a) % Abs(b) == 0 {
      RemZeroOfAbs(a, b);
    }
    if a % b == 0 {
      AbsRemZero(a, b);
    }
  }

  lemma RemZeroOfAbs(a: int, b: int)
    requires b != 0 && Abs(a) % Abs(b) == 0
    ensures a % b == 0
  {
    var x: int, y: int := Abs(a), Abs(b);
    var q: int := x / y;
    assert x == y * q;
    var m := if (a < 0) == (b < 0) then q else -q;
    assert a == b * m by {
      if a < 0 && b < 0 { assert -a == (-b) * q; }
      else if a < 0 { assert -a == b * q; }
      else if b < 0 { assert a == (-b) * q; }
    }
    ModUnique(a, b, m, 0);
  }

  lemma AbsRemZero(a: int, b: int)
    requires b != 0 && a % b == 0
    ensures Abs(a) % Abs(b) == 0
  {
    var p: int := a / b;
    assert a == b * p;
    var x: int, y: int := Abs(a), Abs(b);
    var m := if (a < 0) == (b < 0) then p else -p;
    assert x == y * m by {
      if a < 0 && b < 0 { assert -a == (-b) * p; }
      else if a < 0 { assert -a == b * (-p); }
      else if b < 0 { assert a == (-b) * (-p); }
    }
    ModUnique(x, y, m, 0);
  }

  /** `isDividableBy`: `i % divisor == 0` with Java's remainder. */
  function IsDividableBy(i: int, divisor: int): (r: bool)
    requires divisor != 0
    ensures r <==> i % divisor == 0
  {
    JavaRemZero(i, divisor);
    JavaRem(i, divisor) == 0
  }

  /** `String.valueOf(i).contains("3")`: containing a one-character string
      is membership of that character. */
  function IsFizz(i: int): (r: bool)
    ensures r <==> i % 3 == 0 || '3' in IntToString(i)
  {
    IsDividableBy(i, 3) || '3' in IntToString(i)
  }

  function IsBuzz(i: int): (r: bool)
    ensures r <==> i % 5 == 0 || '5' in IntToString(i)
  {
    IsDividableBy(i, 5) || '5' in IntToString(i)
  }

  /** The decimal text of a number is never one of the three words. */
  lemma TextIsNotAWord(i: int)
    ensures IntToString(i) != FIZZ && IntToString(i) != BUZZ && IntToString(i) != FIZZBUZZ
  {
    var s := IntToString(i);
    assert s[0] == '-' || IsDigit(s[0]);
  }

  /** `buzz(i)`: each of the four answers is given exactly in its case. */
  function Buzz(i: int): (r: string)
    ensures r == FIZZBUZZ <==> IsFizz(i) && IsBuzz(i)
    ensures r == FIZZ <==> IsFizz(i) && !IsBuzz(i)
    ensures r == BUZZ <==> !IsFizz(i) && IsBuzz(i)
    ensures r == IntToString(i) <==> !IsFizz(i) && !IsBuzz(i)
  {
    TextIsNotAWord(i);
    if IsBuzz(i) && IsFizz(i) then FIZZBUZZ
    else if IsFizz(i) then FIZZ
    else if IsBuzz(i) then BUZZ
    else IntToString(i)
  }

  /** An answer that is not one of the words reads back as the number. */
  lemma BuzzNumberRoundTrip(i: int)
    requires Buzz(i) != FIZZ && Buzz(i) != BUZZ && Buzz(i) != FIZZBUZZ
    ensures IsIntText(Buzz(i)) && ParseInt(Buzz(i)) == i
  {
    IntRoundTrip(i);
  }

  /** `getFizzBuzzArray(arraySize)`: element k holds `buzz(k + 1)`. */
  method GetFizzBuzzArray(arraySize: nat) returns (stringArray: array<string>)
    ensures fresh(stringArray)
    ensures stringArray.Length == arraySize
    ensures forall k :: 0 <= k < arraySize ==> stringArray[k] == Buzz(k + 1)
  {
    stringArray := new string[arraySize];
    for i := 0 to stringArray.Length
      invariant forall k :: 0 <= k < i ==> stringArray[k] == Buzz(k + 1)
    {
      stringArray[i] := Buzz(i + 1);
    }
  }

  lemma SmallNumbers()
    ensures Buzz(1) == "1" && Buzz(2) == "2" && Buzz(3) == FIZZ
    ensures Buzz(5) == BUZZ && Buzz(15) == FIZZBUZZ
  {
    assert IntToString(1) == "1";
    assert IntToString(2) == "2";
  }

  /** The digit rule alone decides 13, 52 and 51. */
  lemma DigitRule()
    ensures Buzz(13) == FIZZ && Buzz(52) == BUZZ && Buzz(51) == FIZZBUZZ
  {
    assert IntToString(13) == "13";
    assert IntToString(52) == "52";
    assert IntToString(51) == "51";
  }

  /** Whatever `getFizzBuzzArray(10)` returns matches the expected list. */
  lemma ArrayOfTen(s: seq<string>)
    requires |s| == 10 && forall k :: 0 <= k < 10 ==> s[k] == Buzz(k + 1)
    ensures s == ["1", "2", FIZZ, "4", BUZZ, FIZZ, "7", "8", FIZZ, BUZZ]
  {
    SmallNumbers();
    assert IntToString(4) == "4";
    assert IntToString(7) == "7";
    assert IntToString(8) == "8";
    assert s[3] == Buzz(4) && s[6] == Buzz(7) && s[7] == Buzz(8);
    assert s[5] == Buzz(6) && s[8] == Buzz(9) && s[9] == Buzz(10);
  }

  lemma ArrayOfTwo(s: seq<string>)
    requires |s| == 2 && forall k :: 0 <= k < 2 ==> s[k] == Buzz(k + 1)
    ensures s == ["1", "2"]
  {
    SmallNumbers();
    assert s[0] == Buzz(1) && s[1] == Buzz(2);
  }
}
