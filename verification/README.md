# FiboAdvanced in Dafny

`FiboAdvanced.getNthfibo(n)` returns the n-th Fibonacci number. It raises the
2×2 matrix M = | 1 1 | / | 1 0 | to the n-th power by exponentiation by
squaring and reads entry (1, 0) of the result. `multMatrix(m, n)` overwrites
`m` with a product of `m` and `n`. It first computes all four new entries into
temporaries, then stores them.

This project models both routines and proves what they compute.

- `matrix.dfy` (module `Matrix`):
  - a 2×2 matrix value type `Mat`;
  - the textbook product `Product`, used as the reference;
  - `MultMatrix`, which follows `multMatrix` line by line;
  - matrix powers, with the algebra the loop relies on.
- `fibonacci.dfy` (module `Fibonacci`):
  - the Fibonacci numbers;
  - the "window" view of the powers of M from the class comment: Mᵏ holds
    F(k+1), F(k) and F(k-1).
- `bits.dfy` (module `Bits`): bit length and number of one digits. These count
  the loop's iterations and its calls to `multMatrix`.
- `fibo_advanced.dfy` (module `FiboAdvanced`): `getNthfibo` over unbounded
  integers, as an imperative loop with its invariants.
- `java_int.dfy` (module `JavaInt`) and `fibo_advanced_int.dfy` (module
  `FiboAdvancedInt`): the same routine in Java's 32-bit `int` arithmetic. The
  result is F(n) wrapped to 32 bits. That is exact up to n = 46 and negative at
  n = 47.

Line 121 of `multMatrix` computes entry c as `m[1][1] * n[0][1]`. The textbook
product uses `n[1][0]` there. The model keeps the code's formula:
- `MultMatrix` is stated entry by entry against `Product`. Entry (1, 0) is that
  of m × nᵀ.
- `MultMatrixIsProductIff` says exactly when this agrees with the textbook
  product: when n is symmetric, or when m's entry (1, 1) is 0.
- Every matrix `getNthfibo` passes to `multMatrix` is a power of the symmetric
  M, so the difference never shows in its results. This is why it is not
  listed as a finding.

Java arrays are mutable and `multMatrix` works in place. The model gives it
value semantics: `MultMatrix(m, n)` returns the new value of `m`. The aliased
call `multMatrix(fiboM, fiboM)` becomes `MultMatrix(fiboM, fiboM)`. That is
faithful because every entry is read into a temporary before the first store
(lines 119-127).

A negative index gives `Failure(IllegalArgument("The fibo value cannot be
negative"))`. This stands for the source's `IllegalArgumentException`.

## Model

| member | source | states |
|---|---|---|
| Matrix.MultMatrix | FiboAdvanced.java:118-128 | Entries (0,0), (0,1) and (1,1) are those of the textbook product m × n. Entry (1,0) is that of m × nᵀ, because line 121 reads n[0][1]. When n is symmetric the result is the textbook product. |
| Matrix.MultMatrixIsProductIff | FiboAdvanced.java:121 | `multMatrix` gives the textbook product if and only if n is symmetric or m[1][1] = 0. |
| Matrix.AliasedSquare | FiboAdvanced.java:111 | The aliased call `multMatrix(fiboM, fiboM)` on a symmetric matrix gives its true square, which is symmetric again. |
| Matrix.MultMatrixIdentity | FiboAdvanced.java:95-96 | The identity that `result` starts from is a right unit of `multMatrix` for every matrix. It is a left unit exactly for symmetric matrices. |
| Matrix.MultMatrixAssociative | FiboAdvanced.java:103-113 | Regrouping the loop's multiplications does not change the result, as long as the right-hand operands are symmetric. |
| Matrix.ProductAssociative | FiboAdvanced.java:103-113 | The textbook product is associative. Exponentiation by squaring depends on this. |
| Matrix.PowerAdd | FiboAdvanced.java:105 | Mᵃ × Mᵇ = Mᵃ⁺ᵇ: multiplying the accumulator by the step adds exponents. |
| Matrix.PowerOfPower | FiboAdvanced.java:111 | (Mᵖ)ⁿ = M^(p·n): squaring the step doubles its exponent. |
| Matrix.ProductBase | FiboAdvanced.java:67-68 | Multiplying by M slides the window one step: the new top row is the sum of the rows, and the old top row moves down. |
| Fibonacci.FibTable | FiboAdvanced.java:45 | The sequence starts 0 1 1 2 3 5 8 13 21 34, and F(50) = 12586269025. |
| Fibonacci.WindowIsPower | FiboAdvanced.java:47-68 | The window reached after k slides from the identity is Mᵏ. |
| Fibonacci.WindowIsFib | FiboAdvanced.java:47-65 | After k ≥ 1 slides the window is \| F(k+1) F(k) \| / \| F(k) F(k-1) \|. |
| Fibonacci.BasePower | FiboAdvanced.java:8-21 | For k ≥ 1, Mᵏ = \| F(k+1) F(k) \| / \| F(k) F(k-1) \|. This is the table in the class comment, for every k. |
| Fibonacci.BasePowerSymmetric | FiboAdvanced.java:98 | Every power of M is symmetric: its two off-diagonal entries store the same Fibonacci number. |
| Fibonacci.WindowSymmetric | FiboAdvanced.java:98 | Every window is symmetric. |
| Fibonacci.MultMatrixBasePowers | FiboAdvanced.java:105 | `multMatrix` on two powers of M adds their exponents and yields a symmetric matrix. |
| Fibonacci.MultMatrixWindows | FiboAdvanced.java:111 | `multMatrix` on two windows gives the window for the sum of their exponents. |
| Bits.BitLengthIsFloorLog2 | FiboAdvanced.java:103-113 | For n ≥ 1 the loop's iteration count, the bit length of n, is ⌊log₂ n⌋ + 1. |
| Bits.PopCountBounds | FiboAdvanced.java:104-106 | The number of accumulating multiplications is between 1 and the bit length for n ≥ 1. |
| FiboAdvanced.HalveExponent | FiboAdvanced.java:104-108 | Halving the index and doubling the step keeps the exponent still owed unchanged, after the odd digit is paid. |
| FiboAdvanced.FinalExponentIsOwed | FiboAdvanced.java:103-113 | Starting from accumulator exponent e, step exponent p and index n, the loop ends with exponent e + p·n. |
| FiboAdvanced.Accumulated | FiboAdvanced.java:103-113 | The classic invariant in matrix form: when e + p·n equals the original index, accumulator × stepⁿ = M^index. |
| FiboAdvanced.MultMatrixCallsCount | FiboAdvanced.java:103-113 | The loop calls `multMatrix` once per one digit of n plus once per digit but the last. |
| FiboAdvanced.MultiplyWindows | FiboAdvanced.java:103-113 | Each `multMatrix` call in the loop, on Mᵃ and Mᵇ, yields the symmetric Mᵃ⁺ᵇ. |
| FiboAdvanced.GetNthFibo | FiboAdvanced.java:81-116 | A negative index fails with the source's message, and only a negative index fails. Otherwise the result is F(index), with 0 and no iterations for index 0. For index ≥ 1 the loop runs bit-length-of-index times and calls `multMatrix` popcount + bit-length − 1 times. |
| JavaInt.Wrap | FiboAdvanced.java:119-122 | The wrapped value of an exact result is always an `int`. It is the value itself when that already fits. |
| JavaInt.WrapAdd | FiboAdvanced.java:119-122 | Wrapping after each addition gives the wrapped exact sum. |
| JavaInt.WrapMul | FiboAdvanced.java:119-122 | Wrapping after each multiplication gives the wrapped exact product. |
| FiboAdvancedInt.IntDot | FiboAdvanced.java:119-122 | One entry computed in `int` arithmetic is the exact dot product, wrapped once. |
| FiboAdvancedInt.MultMatrixInt | FiboAdvanced.java:118-128 | `multMatrix` in `int` arithmetic is the exact `MultMatrix`, wrapped entry by entry. |
| FiboAdvancedInt.MultMatrixIntTracksExact | FiboAdvanced.java:118-128 | Applied to the wrapped images of two exact matrices, the `int` computation gives the wrapped image of their exact `MultMatrix`. |
| FiboAdvancedInt.MultMatrixIntWindows | FiboAdvanced.java:103-113 | In `int` arithmetic too, `multMatrix` on two wrapped powers of M gives the wrapped power for the sum of the exponents. |
| FiboAdvancedInt.MultiplyWindowsInt | FiboAdvanced.java:103-113 | Each `multMatrix` call of the loop in `int` arithmetic, on the wrapped Mᵃ and Mᵇ, yields the wrapped Mᵃ⁺ᵇ. |
| FiboAdvancedInt.FibMonotone | FiboAdvanced.java:45 | The Fibonacci numbers never decrease along the sequence. |
| FiboAdvancedInt.FitsInt | FiboAdvanced.java:81 | F(n) fits in an `int` for every n ≤ 46. |
| FiboAdvancedInt.IntRange | FiboAdvanced.java:81 | F(46) is an `int`, F(47) is not, and F(47) wraps to -1323752223. |
| FiboAdvancedInt.WrappedAnswer | FiboAdvanced.java:115 | Entry (1, 0) of the wrapped Mⁿ is F(n) wrapped. That is F(n) itself for n ≤ 46 and -1323752223 for n = 47. |
| FiboAdvancedInt.GetNthFiboInt | FiboAdvanced.java:81-116 | With 32-bit `int` arithmetic, a negative index fails exactly as in the unbounded model. Otherwise the result is F(index) wrapped to 32 bits: exact up to index 46 and -1323752223 at index 47. |

## Left out

- `main` (FiboAdvanced.java:131-135) only prints the first ten values. The values it would print are stated by `Fibonacci.FibTable`.
- The `int[][]` representation: allocation, `null`, row lengths and in-place mutation. The model uses a four-field value type, and `multMatrix` returns the new value of its first argument.
- Java's `%` truncates toward zero, while Dafny's is Euclidean. The loop tests `% 2` only on positive values, where the two agree, so the model uses Dafny's operators directly.
- Idempotence and "nothing else changes" properties have no content here: every operation is a pure function of its arguments.
- The exception is modelled as a `Failure` value rather than a thrown exception. Unwinding and stack traces are not modelled.
