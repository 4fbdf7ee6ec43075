/**
 * ValueSamples (namespace TestingTechniques): sample data initialised once
 * for assertion exercises, and a guarded integer division with C#'s
 * truncating semantics.
 */
module TestingTechniques {

  import opened Wrappers

  /** System.DateOnly as a calendar date. */
  datatype DateOnly = DateOnly(year: int, month: int, day: int)

  /** Chronological order of dates. */
  predicate IsBefore(a: DateOnly, b: DateOnly)
  {
    a.year < b.year
    || (a.year == b.year && (a.month < b.month || (a.month == b.month && a.day < b.day)))
  }

  /** The sample user record. */
  datatype User = User(fullName: string, age: int, dateOfBirth: DateOnly)

  /** A C# `int`. */
  newtype Int32 = x: int | -0x8000_0000 <= x < 0x8000_0000

  /** The arithmetic exceptions integer division can throw. */
  datatype ArithmeticError =
    | DivideByZero  // System.DivideByZeroException
    | Overflow      // System.OverflowException, from int.MinValue / -1
  {
    function Message(): string
    {
      match this
      case DivideByZero => "Attempted to divide by zero."
      case Overflow => "Arithmetic operation resulted in an overflow."
    }
  }

  /** A call that returns a value or throws an arithmetic exception. */
  datatype Result<+T> = Success(value: T) | Failure(error: ArithmeticError)

  function Abs(x: int): int
  {
    if x < 0 then -x else x
  }

  /** C#'s integer `/`: the quotient rounded toward zero (Dafny's own `/` is Euclidean). */
  function TruncatedQuotient(a: int, b: int): (q: int)
    requires b != 0
    ensures Abs(q) == Abs(a) / Abs(b)
    ensures q == 0 || ((q < 0) <==> ((a < 0) != (b < 0)))
  {
    var q := Abs(a) / Abs(b);
    FloorMultiple(Abs(a), Abs(b));
    if (a < 0) == (b < 0) then q else -q
  }

  /** The defining property of truncating division: the remainder is smaller than the divisor and has the sign of the dividend. */
  predicate IsTruncatedQuotient(a: int, b: int, q: int)
    requires b != 0
  {
    var rem := a - q * b;
    Abs(rem) < Abs(b) && (rem == 0 || (rem < 0) == (a < 0))
  }

  /** Negation moves out of a product. */
  lemma MulNegation(x: int, y: int)
    ensures (-x) * y == -(x * y) && x * (-y) == -(x * y) && (-x) * (-y) == x * y
  {
  }

  /** The magnitude of a product is the product of the magnitudes. */
  lemma AbsMul(x: int, y: int)
    ensures Abs(x * y) == Abs(x) * Abs(y)
  {
    MulNegation(x, y);
    MulNegation(Abs(x), Abs(y));
    if x < 0 && y < 0 {
      assert x * y == (-x) * (-y);
    } else if x < 0 {
      assert x * y == -((-x) * y);
    } else if y < 0 {
      assert x * y == -(x * (-y));
    }
  }

  /** The truncated quotient times the divisor is the dividend's sign applied to |a| rounded down to a multiple of |b|. */
  lemma QuotientTimesDivisor(a: int, b: int)
    requires b != 0
    ensures TruncatedQuotient(a, b) * b
         == if a < 0 then -((Abs(a) / Abs(b)) * Abs(b)) else (Abs(a) / Abs(b)) * Abs(b)
  {
    var q0 := Abs(a) / Abs(b);
    MulNegation(q0, Abs(b));
    if b < 0 {
      assert b == -Abs(b);
    } else {
      assert b == Abs(b);
    }
  }

  /** Rounding down to a multiple of a positive divisor never grows past the dividend, nor does the quotient. */
  lemma FloorMultiple(n: int, d: int)
    requires n >= 0 && d > 0
    ensures 0 <= n - (n / d) * d < d
    ensures 0 <= n / d <= (n / d) * d
  {
    QuotientBounds(n, d, n / d, n % d);
  }

  /** The same bounds for any q and r with n == q * d + r and 0 <= r < d, stated without division. */
  lemma QuotientBounds(n: int, d: int, q: int, r: int)
    requires n >= 0 && d > 0 && n == q * d + r && 0 <= r < d
    ensures 0 <= q <= q * d
  {
    MulNonNegative(q, d - 1);
    assert q * d == q * (d - 1) + q;
  }

  /** A product of two non-negative numbers is non-negative. */
  lemma MulNonNegative(x: int, y: int)
    requires x >= 0 && y >= 0
    ensures x * y >= 0
  {
  }

  /** TruncatedQuotient is truncating division, and its magnitude never exceeds the dividend's. */
  lemma TruncatedQuotientCorrect(a: int, b: int)
    requires b != 0
    ensures IsTruncatedQuotient(a, b, TruncatedQuotient(a, b))
    ensures Abs(TruncatedQuotient(a, b)) <= Abs(a)
  {
    QuotientTimesDivisor(a, b);
    FloorMultiple(Abs(a), Abs(b));
  }

  /** A non-zero multiple of b is at least |b| away from zero. */
  lemma NonZeroMultiple(d: int, b: int)
    requires d != 0 && b != 0
    ensures Abs(d * b) >= Abs(b)
  {
    AbsMul(d, b);
    ProductAtLeast(Abs(d), Abs(b));
  }

  /** A factor of at least one does not shrink a non-negative number. */
  lemma {:induction false} ProductAtLeast(x: int, y: int)
    requires x >= 1 && y >= 0
    ensures x * y >= y
  {
    if x > 1 {
      ProductAtLeast(x - 1, y);
      assert x * y == (x - 1) * y + y;
    }
  }

  /** Products distribute over a difference. */
  lemma MulSubtract(q: int, p: int, b: int)
    ensures q * b - p * b == (q - p) * b
  {
  }

  /** Two remainders on the dividend's side of zero, each closer to it than |b|, differ by less than |b|. */
  lemma RemaindersClose(a: int, b: int, rq: int, rp: int)
    requires b != 0
    requires Abs(rq) < Abs(b) && (rq == 0 || (rq < 0) == (a < 0))
    requires Abs(rp) < Abs(b) && (rp == 0 || (rp < 0) == (a < 0))
    ensures Abs(rp - rq) < Abs(b)
  {
  }

  /** There is only one truncated quotient, so TruncatedQuotient is the only correct answer. */
  lemma TruncatedQuotientUnique(a: int, b: int, q: int)
    requires b != 0
    requires IsTruncatedQuotient(a, b, q)
    ensures q == TruncatedQuotient(a, b)
  {
    TruncatedQuotientCorrect(a, b);
    var p := TruncatedQuotient(a, b);
    RemaindersClose(a, b, a - q * b, a - p * b);
    MulSubtract(q, p, b);
    if q != p {
      NonZeroMultiple(q - p, b);
    }
  }

  /** Truncation and Euclidean division part ways on a negative dividend. */
  lemma TruncationIsNotEuclidean()
    ensures TruncatedQuotient(-7, 2) == -3
    ensures -7 / 2 == -4
  {
  }

  class ValueSamples {
    var fullName: string
    var age: int
    var dateOfBirth: DateOnly
    var appUser: User
    var users: seq<User>
    var numbers: seq<int>

    constructor ()
      ensures fullName == SampleFullName() && age == SampleAge() && dateOfBirth == SampleDateOfBirth()
      ensures appUser == SampleAppUser()
      ensures users == SampleUsers() && numbers == SampleNumbers()
    {
      fullName := SampleFullName();
      age := SampleAge();
      dateOfBirth := SampleDateOfBirth();
      appUser := SampleAppUser();
      users := SampleUsers();
      numbers := SampleNumbers();
    }

    /** The sample full name. */
    static function SampleFullName(): string { "Emir TARTAR" }

    /** The sample age. */
    static function SampleAge(): int { 33 }

    /** The sample date of birth. */
    static function SampleDateOfBirth(): DateOnly { DateOnly(1993, 4, 29) }

    /** The sample user, built from the three sample values. */
    static function SampleAppUser(): User { User(SampleFullName(), SampleAge(), SampleDateOfBirth()) }

    /** The three sample users. */
    static function SampleUsers(): seq<User>
    {
      [ User("Emir TARTAR", 31, DateOnly(1993, 4, 29)),
        User("Emirov TARTAROV", 33, DateOnly(1991, 4, 29)),
        User("Emirov TARTAROVIC", 35, DateOnly(1989, 4, 29)) ]
    }

    /** The sample numbers. */
    static function SampleNumbers(): seq<int>
    {
      [5, 10, 25, 50]
    }

    /** `EnsureThatDivisorIsNotZero`: throws exactly when its argument is zero, otherwise has no effect. */
    static function EnsureThatDivisorIsNotZero(b: Int32): (r: Option<ArithmeticError>)
      ensures r.None? <==> b != 0
      ensures r.Some? ==> r.value == DivideByZero
    {
      if b == 0 then Some(DivideByZero) else None
    }

    /**
     * `Divide`: both operands are guarded, the dividend first, then C#'s
     * truncating `a / b`, which overflows only for int.MinValue / -1.
     */
    static function Divide(a: Int32, b: Int32): (r: Result<int>)
      ensures r == Failure(DivideByZero) <==> a == 0 || b == 0
      ensures r == Failure(Overflow) <==> a == -0x8000_0000 && b == -1
      ensures r.Success? ==> b != 0 && IsTruncatedQuotient(a as int, b as int, r.value)
      ensures r.Success? ==> -0x8000_0000 <= r.value < 0x8000_0000
    {
      var guardA := EnsureThatDivisorIsNotZero(a);
      if guardA.Some? then Failure(guardA.value)
      else
        var guardB := EnsureThatDivisorIsNotZero(b);
        if guardB.Some? then Failure(guardB.value)
        else if a == -0x8000_0000 && b == -1 then Failure(Overflow)
        else
          TruncatedQuotientCorrect(a as int, b as int);
          Success(TruncatedQuotient(a as int, b as int))
    }
  }

  /** The division test: dividing by zero throws DivideByZeroException with .NET's message; so does a zero dividend. */
  lemma DivideByZeroCases()
    ensures ValueSamples.Divide(1, 0) == Failure(DivideByZero)
    ensures ValueSamples.Divide(1, 0).error.Message() == "Attempted to divide by zero."
    ensures ValueSamples.Divide(0, 5) == Failure(DivideByZero)
    ensures ValueSamples.Divide(-7, 2) == Success(-3)
  {
    TruncatedQuotientCorrect(-7, 2);
  }

  /** What the assertion exercises check of the sample values. */
  lemma SampleValuesMatchAssertions()
    ensures "Emir" <= ValueSamples.SampleFullName()
    ensures ValueSamples.SampleFullName()[|ValueSamples.SampleFullName()| - |"TARTAR"|..] == "TARTAR"
    ensures 20 < ValueSamples.SampleAge() <= 33
    ensures IsBefore(DateOnly(1990, 1, 1), ValueSamples.SampleDateOfBirth())
         && IsBefore(ValueSamples.SampleDateOfBirth(), DateOnly(1995, 1, 1))
    ensures ValueSamples.SampleAppUser() == User("Emir TARTAR", 33, DateOnly(1993, 4, 29))
    ensures |ValueSamples.SampleUsers()| == 3
    ensures User("Emir TARTAR", 31, DateOnly(1993, 4, 29)) in ValueSamples.SampleUsers()
    ensures exists k :: 0 <= k < |ValueSamples.SampleUsers()|
                        && "Emirov" <= ValueSamples.SampleUsers()[k].fullName
                        && ValueSamples.SampleUsers()[k].age > 31
    ensures 5 in ValueSamples.SampleNumbers()
  {
    assert "Emirov" <= ValueSamples.SampleUsers()[1].fullName;
  }
}
