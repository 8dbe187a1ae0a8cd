/** `FiboAdvanced.getNthfibo` over unbounded integers: the n-th Fibonacci number
    by exponentiation by squaring of the base matrix | 1 1 | / | 1 0 |. */
module FiboAdvanced {
  import opened Matrix
  import opened Fibonacci
  import opened Bits

  /** The exception the source throws for a negative index. */
  datatype Error = IllegalArgument(message: string)

  datatype Result<T> = Success(value: T) | Failure(error: Error)

  const NegativeIndexMessage := "The fibo value cannot be negative"

  /** Splitting off the lowest binary digit of n: the exponent still owed,
      p * n, equals what is paid now, p * (n % 2), plus what is owed for the
      halved index with the doubled step, (2 * p) * (n / 2). */
  lemma HalveExponent(p: nat, n: nat)
    ensures p * n == p * (n % 2) + (2 * p) * (n / 2)
  {
    assert n == 2 * (n / 2) + n % 2;
    calc {
      p * n;
      p * (2 * (n / 2) + n % 2);
      p * (2 * (n / 2)) + p * (n % 2);
      (2 * p) * (n / 2) + p * (n % 2);
    }
  }

  /** The exponent the accumulator holds when the loop ends, started with the
      accumulator at exponent e, the step at exponent p and n still to halve:
      each pass adds p when the lowest digit of n is one, then doubles p and
      halves n. */
  function FinalExponent(e: nat, p: nat, n: nat): nat
    decreases n
  {
    if n == 0 then e
    else FinalExponent(if n % 2 == 1 then e + p else e, 2 * p, n / 2)
  }

  /** The loop pays off the exponent still owed, p * n, exactly. */
  lemma {:induction false} FinalExponentIsOwed(e: nat, p: nat, n: nat)
    ensures FinalExponent(e, p, n) == e + p * n
    decreases n
  {
    if n > 0 {
      HalveExponent(p, n);
      FinalExponentIsOwed(if n % 2 == 1 then e + p else e, 2 * p, n / 2);
    }
  }

  /** The loop invariant in matrix form: when the exponents add up, the
      accumulator m^e times the step m^p raised to the remaining index n is m
      raised to the original index. With m the base matrix this is the loop
      invariant of `GetNthFibo`, which the loop tracks exponent by exponent. */
  lemma Accumulated(m: Mat, e: nat, p: nat, n: nat, target: nat)
    requires e + p * n == target
    ensures Product(Power(m, e), Power(Power(m, p), n)) == Power(m, target)
  {
    var pn := p * n;
    PowerOfPower(m, p, n);
    PowerAdd(m, e, pn);
  }

  /** How many times the loop calls `multMatrix` with n still to halve: once for
      every one digit, and once more to square the step whenever digits remain
      after halving. */
  function MultMatrixCalls(n: nat): nat
    decreases n
  {
    if n == 0 then 0
    else n % 2 + (if n / 2 > 0 then 1 else 0) + MultMatrixCalls(n / 2)
  }

  /** One call per one digit plus one per digit but the last. */
  lemma {:induction false} MultMatrixCallsCount(n: nat)
    requires n >= 1
    ensures MultMatrixCalls(n) == PopCount(n) + BitLength(n) - 1
    decreases n
  {
    if n > 1 {
      MultMatrixCallsCount(n / 2);
    }
  }

  /** One call of `multMatrix` in the loop, on the powers a and b of the base
      matrix: the product is the power a + b, again symmetric. */
  method MultiplyWindows(m: Mat, n: Mat, ghost a: nat, ghost b: nat) returns (r: Mat)
    requires m == Window(a) && n == Window(b)
    ensures r == Window(a + b)
    ensures Symmetric(r)
  {
    MultMatrixWindows(a, b);
    WindowSymmetric(a + b);
    r := MultMatrix(m, n);
  }

  /** `getNthfibo(fiboArrayIndex)`. A negative index fails with the source's
      IllegalArgumentException; index 0 returns 0 before any matrix is built;
      otherwise the loop runs once per binary digit of the index, multiplying
      the step into the accumulator for every one digit and squaring the step
      while digits remain, and the answer is entry (1, 0) of the accumulator.
      The ghost outputs count loop iterations and calls to `multMatrix`. */
  method GetNthFibo(fiboArrayIndex: int)
    returns (r: Result<int>, ghost iterations: nat, ghost multiplications: nat)
    ensures fiboArrayIndex < 0 <==> r.Failure?
    ensures fiboArrayIndex < 0 ==> r.error == IllegalArgument(NegativeIndexMessage)
    ensures fiboArrayIndex >= 0 ==> r == Success(Fib(fiboArrayIndex))
    ensures fiboArrayIndex <= 0 ==> iterations == 0 && multiplications == 0
    ensures fiboArrayIndex > 0 ==> iterations == BitLength(fiboArrayIndex)
    ensures fiboArrayIndex > 0 ==>
              multiplications == PopCount(fiboArrayIndex) + BitLength(fiboArrayIndex) - 1
  {
    iterations, multiplications := 0, 0;
    if fiboArrayIndex < 0 {
      return Failure(IllegalArgument(NegativeIndexMessage)), iterations, multiplications;
    }
    if fiboArrayIndex == 0 {
      return Success(0), iterations, multiplications;
    }

    var n := fiboArrayIndex;
    var result := Identity;
    var fiboM := Base;
    ghost var e: nat := 0;  // result is the e-th power of the base matrix
    ghost var p: nat := 1;  // fiboM is the p-th power while digits remain
    FinalExponentIsOwed(e, p, n);
    while n > 0
      invariant n >= 0
      invariant result == Window(e)
      invariant n > 0 ==> fiboM == Window(p)
      invariant Symmetric(result) && Symmetric(fiboM)
      invariant p == Pow2(iterations)
      invariant FinalExponent(e, p, n) == fiboArrayIndex
      invariant iterations + BitLength(n) == BitLength(fiboArrayIndex)
      invariant multiplications + MultMatrixCalls(n) == MultMatrixCalls(fiboArrayIndex)
      decreases n
    {
      if n % 2 == 1 {
        result := MultiplyWindows(result, fiboM, e, p);
        e := e + p;
        multiplications := multiplications + 1;
      }
      n := n / 2;
      if n > 0 {
        fiboM := MultiplyWindows(fiboM, fiboM, p, p);
        multiplications := multiplications + 1;
      }
      p := 2 * p;
      iterations := iterations + 1;
    }
    WindowIsFib(fiboArrayIndex);
    MultMatrixCallsCount(fiboArrayIndex);
    return Success(result.m10), iterations, multiplications;
  }
}
