/** 2×2 integer matrices: the value type that FiboAdvanced.java keeps in
    `int[][]` arrays, its multiplication routine `multMatrix`, and matrix powers. */
module Matrix {

  /** The matrix | m00 m01 |
                 | m10 m11 |  (entries are unbounded integers). */
  datatype Mat = Mat(m00: int, m01: int, m10: int, m11: int)

  /** The identity matrix, the starting value of the accumulator. */
  const Identity := Mat(1, 0, 0, 1)

  /** The Fibonacci-generating matrix | 1 1 | / | 1 0 |. */
  const Base := Mat(1, 1, 1, 0)

  predicate Symmetric(m: Mat) {
    m.m01 == m.m10
  }

  function Transpose(m: Mat): Mat {
    Mat(m.m00, m.m10, m.m01, m.m11)
  }

  /** The textbook product x × y: entry (i, j) is row i of x dotted with column j of y.
      This is the reference against which `MultMatrix` is judged. */
  function Product(x: Mat, y: Mat): Mat {
    Mat(Dot(x.m00, y.m00, x.m01, y.m10),
        Dot(x.m00, y.m01, x.m01, y.m11),
        Dot(x.m10, y.m00, x.m11, y.m10),
        Dot(x.m10, y.m01, x.m11, y.m11))
  }

  /** The two-term dot product (p, q) · (s, t). */
  function Dot(p: int, s: int, q: int, t: int): int {
    p * s + q * t
  }

  /** `multMatrix(m, n)`: the four new entries are computed from the old values
      into temporaries, and only then stored into `m`, one entry at a time.
      The third temporary reads `n.m01` where the textbook product reads `n.m10`,
      so entry (1, 0) is that of m × nᵀ, while the other three entries are those
      of m × n. */
  function MultMatrix(m: Mat, n: Mat): (r: Mat)
    ensures r.m00 == Product(m, n).m00
    ensures r.m01 == Product(m, n).m01
    ensures r.m10 == Product(m, Transpose(n)).m10
    ensures r.m11 == Product(m, n).m11
    ensures Symmetric(n) ==> r == Product(m, n)
  {
    var a := Dot(m.m00, n.m00, m.m01, n.m10);
    var b := Dot(m.m00, n.m01, m.m01, n.m11);
    var c := Dot(m.m10, n.m00, m.m11, n.m01);
    var d := Dot(m.m10, n.m01, m.m11, n.m11);
    m.(m00 := a).(m01 := b).(m10 := c).(m11 := d)
  }

  /** `multMatrix` computes the textbook product exactly when the stray term in
      entry (1, 0) vanishes: when n is symmetric or m's entry (1, 1) is zero. */
  lemma MultMatrixIsProductIff(m: Mat, n: Mat)
    ensures MultMatrix(m, n) == Product(m, n) <==> m.m11 == 0 || Symmetric(n)
  {
  }

  /** The aliased call `multMatrix(f, f)` squares `f` when `f` is symmetric: every
      entry is read into a temporary before the first store, so no read sees a
      half-updated matrix. */
  lemma AliasedSquare(f: Mat)
    requires Symmetric(f)
    ensures MultMatrix(f, f) == Product(f, f)
    ensures Symmetric(MultMatrix(f, f))
  {
  }

  /** Right identity holds for every matrix; left identity only for symmetric ones. */
  lemma MultMatrixIdentity(m: Mat)
    ensures MultMatrix(m, Identity) == m
    ensures MultMatrix(Identity, m) == m <==> Symmetric(m)
  {
  }

  lemma ProductIdentity(m: Mat)
    ensures Product(Identity, m) == m
    ensures Product(m, Identity) == m
  {
  }

  lemma {:induction false} ProductAssociative(x: Mat, y: Mat, z: Mat)
    ensures Product(Product(x, y), z) == Product(x, Product(y, z))
  {
    var l := Product(Product(x, y), z);
    var r := Product(x, Product(y, z));
    assert l.m00 == r.m00 by { Distribute(x.m00, x.m01, y.m00, y.m01, y.m10, y.m11, z.m00, z.m10); }
    assert l.m01 == r.m01 by { Distribute(x.m00, x.m01, y.m00, y.m01, y.m10, y.m11, z.m01, z.m11); }
    assert l.m10 == r.m10 by { Distribute(x.m10, x.m11, y.m00, y.m01, y.m10, y.m11, z.m00, z.m10); }
    assert l.m11 == r.m11 by { Distribute(x.m10, x.m11, y.m00, y.m01, y.m10, y.m11, z.m01, z.m11); }
  }

  /** One entry of the associativity law: a row (p, q) times a 2×2 matrix times a
      column (s, t), bracketed either way. */
  lemma Distribute(p: int, q: int, a: int, b: int, c: int, d: int, s: int, t: int)
    ensures (p * a + q * c) * s + (p * b + q * d) * t == p * (a * s + b * t) + q * (c * s + d * t)
  {
    calc {
      (p * a + q * c) * s + (p * b + q * d) * t;
      p * a * s + q * c * s + p * b * t + q * d * t;
      p * (a * s + b * t) + q * (c * s + d * t);
    }
  }

  /** Multiplying by the base matrix on the left adds the rows and shifts the
      old top row down: the step that slides the Fibonacci window by one. */
  lemma ProductBase(p: Mat)
    ensures Product(Base, p) == Mat(p.m00 + p.m10, p.m01 + p.m11, p.m00, p.m01)
  {
  }

  /** `MultMatrix` is associative as long as every right-hand operand it is
      applied to is symmetric, as all the matrices of the driver are. */
  lemma MultMatrixAssociative(x: Mat, y: Mat, z: Mat)
    requires Symmetric(y) && Symmetric(z) && Symmetric(Product(y, z))
    ensures MultMatrix(MultMatrix(x, y), z) == MultMatrix(x, MultMatrix(y, z))
  {
    ProductAssociative(x, y, z);
  }

  /** The k-th power of m: the identity multiplied k times by m. */
  function Power(m: Mat, k: nat): Mat
    decreases k
  {
    if k == 0 then Identity else Product(m, Power(m, k - 1))
  }

  lemma PowerOne(m: Mat)
    ensures Power(m, 1) == m
  {
    ProductIdentity(m);
  }

  /** Powers of one matrix add their exponents when multiplied. */
  lemma {:induction false} PowerAdd(m: Mat, a: nat, b: nat)
    ensures Product(Power(m, a), Power(m, b)) == Power(m, a + b)
    decreases a
  {
    if a == 0 {
      ProductIdentity(Power(m, b));
    } else {
      calc {
        Product(Power(m, a), Power(m, b));
        Product(Product(m, Power(m, a - 1)), Power(m, b));
        { ProductAssociative(m, Power(m, a - 1), Power(m, b)); }
        Product(m, Product(Power(m, a - 1), Power(m, b)));
        { PowerAdd(m, a - 1, b); }
        Product(m, Power(m, a - 1 + b));
        Power(m, a + b);
      }
    }
  }

  /** Peeling one factor p off the product p * n. */
  lemma MulSucc(p: nat, n: nat)
    requires n > 0
    ensures p * n == p + p * (n - 1)
  {
  }

  /** A power of a power multiplies the exponents. */
  lemma {:induction false} PowerOfPower(m: Mat, p: nat, n: nat)
    ensures Power(Power(m, p), n) == Power(m, p * n)
    decreases n
  {
    if n > 0 {
      var q := p * (n - 1);
      MulSucc(p, n);
      calc {
        Power(Power(m, p), n);
        Product(Power(m, p), Power(Power(m, p), n - 1));
        { PowerOfPower(m, p, n - 1); }
        Product(Power(m, p), Power(m, q));
        { PowerAdd(m, p, q); }
        Power(m, p + q);
      }
    }
  }
}
