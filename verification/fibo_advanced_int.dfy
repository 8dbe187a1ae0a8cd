/** `FiboAdvanced.getNthfibo` with Java's 32-bit `int` arithmetic: every product
    and sum in `multMatrix` wraps around. Because wrapping commutes with addition
    and multiplication, the result is the exact Fibonacci number wrapped to 32
    bits: exact up to index 46, wrong from index 47 on. */
module FiboAdvancedInt {
  import opened Matrix
  import opened Fibonacci
  import opened Bits
  import opened JavaInt
  import opened FiboAdvanced

  function WrapMat(m: Mat): Mat {
    Mat(Wrap(m.m00), Wrap(m.m01), Wrap(m.m10), Wrap(m.m11))
  }

  /** One entry of `multMatrix` in `int` arithmetic: both products and their sum
      wrap. The outcome is the exact dot product, wrapped once. */
  function IntDot(p: int, s: int, q: int, t: int): (r: int)
    ensures r == Wrap(Dot(p, s, q, t))
  {
    WrapAdd(p * s, q * t);
    Wrap(Wrap(p * s) + Wrap(q * t))
  }

  /** `multMatrix(m, n)` on `int[][]` arrays: the same four temporaries as
      `MultMatrix`, each computed in `int` arithmetic. */
  function MultMatrixInt(m: Mat, n: Mat): (r: Mat)
    ensures r == WrapMat(MultMatrix(m, n))
  {
    var a := IntDot(m.m00, n.m00, m.m01, n.m10);
    var b := IntDot(m.m00, n.m01, m.m01, n.m11);
    var c := IntDot(m.m10, n.m00, m.m11, n.m01);
    var d := IntDot(m.m10, n.m01, m.m11, n.m11);
    m.(m00 := a).(m01 := b).(m10 := c).(m11 := d)
  }

  /** Wrapping the operands first does not change the wrapped dot product. */
  lemma IntDotOfWrapped(p: int, s: int, q: int, t: int)
    ensures IntDot(Wrap(p), Wrap(s), Wrap(q), Wrap(t)) == Wrap(Dot(p, s, q, t))
  {
    WrapMul(p, s);
    WrapMul(q, t);
    WrapAdd(Wrap(p) * Wrap(s), Wrap(q) * Wrap(t));
    WrapAdd(p * s, q * t);
  }

  /** Multiplying the wrapped images of two exact matrices gives the wrapped image
      of their exact `MultMatrix`: the `int` computation shadows the exact one. */
  lemma MultMatrixIntTracksExact(x: Mat, y: Mat)
    ensures MultMatrixInt(WrapMat(x), WrapMat(y)) == WrapMat(MultMatrix(x, y))
  {
    IntDotOfWrapped(x.m00, y.m00, x.m01, y.m10);
    IntDotOfWrapped(x.m00, y.m01, x.m01, y.m11);
    IntDotOfWrapped(x.m10, y.m00, x.m11, y.m01);
    IntDotOfWrapped(x.m10, y.m01, x.m11, y.m11);
  }

  /** In `int` arithmetic too, `multMatrix` on two wrapped powers of the base
      matrix adds their exponents. */
  lemma MultMatrixIntWindows(a: nat, b: nat)
    ensures MultMatrixInt(WrapMat(Window(a)), WrapMat(Window(b))) == WrapMat(Window(a + b))
  {
    MultMatrixWindows(a, b);
    MultMatrixIntTracksExact(Window(a), Window(b));
  }

  /** One call of `multMatrix` in the loop, on the wrapped powers a and b of the
      base matrix. */
  method MultiplyWindowsInt(m: Mat, n: Mat, ghost a: nat, ghost b: nat) returns (r: Mat)
    requires m == WrapMat(Window(a)) && n == WrapMat(Window(b))
    ensures r == WrapMat(Window(a + b))
  {
    MultMatrixIntWindows(a, b);
    r := MultMatrixInt(m, n);
  }

  lemma {:induction false} FibMonotone(a: nat, b: nat)
    requires a <= b
    ensures Fib(a) <= Fib(b)
    decreases b - a
  {
    if a < b {
      FibMonotone(a, b - 1);
    }
  }

  /** F(46) is the last Fibonacci number that fits in an `int`; F(47) wraps to a
      negative value. */
  lemma IntRange()
    ensures IsInt(Fib(46))
    ensures !IsInt(Fib(47))
    ensures Wrap(Fib(47)) == -1323752223
  {
    FibAt46();
    WrapUnique(Fib(47), -1323752223);
  }

  lemma FitsInt(n: nat)
    requires n <= 46
    ensures IsInt(Fib(n))
  {
    FibMonotone(n, 46);
    IntRange();
  }

  /** Entry (1, 0) of the wrapped n-th power of the base matrix is F(n) wrapped,
      which is F(n) itself while it fits and -1323752223 at n = 47. */
  lemma WrappedAnswer(n: nat, m: Mat)
    requires n >= 1 && m == WrapMat(Window(n))
    ensures m.m10 == Wrap(Fib(n))
    ensures n <= 46 ==> m.m10 == Fib(n)
    ensures n == 47 ==> m.m10 == -1323752223
  {
    WindowIsFib(n);
    if n <= 46 {
      FitsInt(n);
    } else if n == 47 {
      IntRange();
    }
  }

  /** `getNthfibo(fiboArrayIndex)` with `int` arithmetic throughout. The index is
      a Java `int`. A negative index fails as in `GetNthFibo`; otherwise the
      result is F(index) wrapped to 32 bits, which is F(index) itself up to
      index 46 and -1323752223 at index 47. */
  method GetNthFiboInt(fiboArrayIndex: int) returns (r: Result<int>)
    requires IsInt(fiboArrayIndex)
    ensures fiboArrayIndex < 0 <==> r.Failure?
    ensures fiboArrayIndex < 0 ==> r.error == IllegalArgument(NegativeIndexMessage)
    ensures fiboArrayIndex >= 0 ==> r == Success(Wrap(Fib(fiboArrayIndex)))
    ensures 0 <= fiboArrayIndex <= 46 ==> r == Success(Fib(fiboArrayIndex))
    ensures fiboArrayIndex == 47 ==> r == Success(-1323752223)
  {
    if fiboArrayIndex < 0 {
      return Failure(IllegalArgument(NegativeIndexMessage));
    }
    if fiboArrayIndex == 0 {
      return Success(0);
    }

    var n := fiboArrayIndex;
    var result := Identity;
    var fiboM := Base;
    ghost var e: nat := 0;  // result is the e-th power of the base matrix, wrapped
    ghost var p: nat := 1;  // fiboM is the p-th power, wrapped, while digits remain
    FinalExponentIsOwed(e, p, n);
    while n > 0
      invariant n >= 0
      invariant result == WrapMat(Window(e))
      invariant n > 0 ==> fiboM == WrapMat(Window(p))
      invariant FinalExponent(e, p, n) == fiboArrayIndex
      decreases n
    {
      if n % 2 == 1 {
        result := MultiplyWindowsInt(result, fiboM, e, p);
        e := e + p;
      }
      n := n / 2;
      if n > 0 {
        fiboM := MultiplyWindowsInt(fiboM, fiboM, p, p);
      }
      p := 2 * p;
    }
    WrappedAnswer(fiboArrayIndex, result);
    return Success(result.m10);
  }
}
