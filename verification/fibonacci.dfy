/** The Fibonacci numbers and their encoding in the powers of the base matrix
    | 1 1 | / | 1 0 |, the identity the whole algorithm rests on. */
module Fibonacci {
  import opened Matrix

  /** F(0) = 0, F(1) = 1, F(k) = F(k - 1) + F(k - 2). */
  function Fib(n: nat): nat
    decreases n
  {
    if n < 2 then n else Fib(n - 1) + Fib(n - 2)
  }

  // Values along the sequence, each stage computed from the two values the
  // stage before it provides.
  lemma FibAt10()
    ensures Fib(10) == 55 && Fib(11) == 89
  {
  }

  lemma FibAt20()
    ensures Fib(20) == 6765 && Fib(21) == 10946
  {
    FibAt10();
  }

  lemma FibAt30()
    ensures Fib(30) == 832040 && Fib(31) == 1346269
  {
    FibAt20();
  }

  lemma FibAt40()
    ensures Fib(40) == 102334155 && Fib(41) == 165580141
  {
    FibAt30();
  }

  lemma FibAt46()
    ensures Fib(46) == 1836311903 && Fib(47) == 2971215073
  {
    FibAt40();
  }

  /** The sequence from index 0 to 9, and the value at 50, which needs more than
      32 bits. */
  lemma FibTable()
    ensures Fib(0) == 0 && Fib(1) == 1 && Fib(2) == 1 && Fib(3) == 2 && Fib(4) == 3
    ensures Fib(5) == 5 && Fib(6) == 8 && Fib(7) == 13 && Fib(8) == 21 && Fib(9) == 34
    ensures Fib(50) == 12586269025
  {
    FibAt46();
  }

  /** Moves the window of three consecutive Fibonacci numbers one step along the
      sequence, from | b a | to | b+a a+c |, which is multiplying by the base matrix.
                     | a c |    | b   a   | */
  function Slide(w: Mat): Mat {
    Mat(w.m00 + w.m10, w.m01 + w.m11, w.m00, w.m01)
  }

  /** The window after k slides from the identity: the k-th power of the base
      matrix, computed with additions only. */
  function Window(k: nat): Mat
    decreases k
  {
    if k == 0 then Identity else Slide(Window(k - 1))
  }

  lemma {:induction false} WindowIsPower(k: nat)
    ensures Window(k) == Power(Base, k)
    decreases k
  {
    if k > 0 {
      WindowIsPower(k - 1);
      ProductBase(Window(k - 1));
    }
  }

  /** The first window: | F(2) F(1) |
                         | F(1) F(0) |. */
  lemma WindowOne()
    ensures Window(1) == Mat(Fib(2), Fib(1), Fib(1), Fib(0))
  {
    assert Window(1) == Slide(Window(0));
  }

  /** Sliding a window of consecutive Fibonacci numbers gives the next window. */
  lemma SlideFib(j: nat)
    requires j >= 1
    ensures Slide(Mat(Fib(j + 1), Fib(j), Fib(j), Fib(j - 1)))
            == Mat(Fib(j + 2), Fib(j + 1), Fib(j + 1), Fib(j))
  {
  }

  lemma {:induction false} WindowIsFib(k: nat)
    requires k >= 1
    ensures Window(k) == Mat(Fib(k + 1), Fib(k), Fib(k), Fib(k - 1))
    decreases k
  {
    if k == 1 {
      WindowOne();
    } else {
      WindowIsFib(k - 1);
      SlideFib(k - 1);
    }
  }

  /** The k-th power of the base matrix holds three consecutive Fibonacci numbers:
      | F(k+1) F(k)   |
      | F(k)   F(k-1) |. */
  lemma BasePower(k: nat)
    requires k >= 1
    ensures Power(Base, k) == Mat(Fib(k + 1), Fib(k), Fib(k), Fib(k - 1))
  {
    WindowIsPower(k);
    WindowIsFib(k);
  }

  /** Every power of the base matrix is symmetric, so `MultMatrix` behaves as the
      textbook product on all the matrices the driver touches. */
  lemma BasePowerSymmetric(k: nat)
    ensures Symmetric(Power(Base, k))
  {
    WindowIsPower(k);
    if k >= 1 {
      WindowIsFib(k);
    }
  }

  /** Multiplying powers of the base matrix with `MultMatrix` adds exponents and
      keeps the result symmetric. */
  lemma MultMatrixBasePowers(a: nat, b: nat)
    ensures MultMatrix(Power(Base, a), Power(Base, b)) == Power(Base, a + b)
    ensures Symmetric(MultMatrix(Power(Base, a), Power(Base, b)))
  {
    BasePowerSymmetric(b);
    BasePowerSymmetric(a + b);
    PowerAdd(Base, a, b);
  }

  /** Every window is symmetric. */
  lemma WindowSymmetric(k: nat)
    ensures Symmetric(Window(k))
  {
    if k >= 1 {
      WindowIsFib(k);
    }
  }

  /** `MultMatrix` on two windows adds their exponents; this is the form in which
      the driver's loop uses `MultMatrixBasePowers`. */
  lemma MultMatrixWindows(a: nat, b: nat)
    ensures MultMatrix(Window(a), Window(b)) == Window(a + b)
  {
    WindowIsPower(a);
    WindowIsPower(b);
    WindowIsPower(a + b);
    MultMatrixBasePowers(a, b);
  }
}
