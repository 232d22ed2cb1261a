/** 17.14 fixed-point arithmetic on 32-bit C `int`s.

    A fixed-point value x stands for the real x / F. Signed overflow of an
    `int` operation is undefined behaviour in C, so the helpers that compute
    in `int` require that the result fits in 32 bits. MUL_II and DIV_II
    compute in `int64_t`, where nothing overflows, and then convert the
    quotient to `int`; that conversion is implementation-defined rather
    than undefined, and is modelled as GCC does it, keeping the low 32 bits
    (`Narrow`). C's `/` truncates toward zero and is modelled by `CDiv`
    (Dafny's own `/` is Euclidean). */
module FixedPoint {

  /** The scaling factor `1 << 14`. */
  const F: int := 16384

  const INT_MIN: int := -0x8000_0000
  const INT_MAX: int := 0x7fff_ffff

  predicate IsInt(x: int) { INT_MIN <= x <= INT_MAX }

  predicate IsInt64(x: int) { -0x8000_0000_0000_0000 <= x <= 0x7fff_ffff_ffff_ffff }

  /** 2^32, the modulus of a conversion to `int`. */
  const WORD: int := 0x1_0000_0000

  function Abs(x: int): (r: int) { if x < 0 then -x else x }

  /** Conversion of a wider integer to `int` (two's complement, low 32 bits
      kept): a value that fits is unchanged, any other is reduced modulo 2^32. */
  function Narrow(v: int): (r: int)
    ensures IsInt(r)
    ensures IsInt(v) ==> r == v
    ensures (v - r) % WORD == 0
  {
    var q := (v - INT_MIN) / WORD;
    assert v - ((v - INT_MIN) % WORD + INT_MIN) == q * WORD;
    (v - INT_MIN) % WORD + INT_MIN
  }

  /** C's integer division: the quotient rounded toward zero, so the
      remainder is smaller than the divisor and takes the dividend's sign. */
  function CDiv(a: int, b: int): (q: int)
    requires b != 0
    ensures Abs(a - q * b) < Abs(b)
    ensures a - q * b == 0 || (a - q * b > 0 <==> a > 0)
  {
    var n, d := Abs(a), Abs(b);
    var t := n / d;
    EuclidNat(n, d);
    NegMul(t, d);
    if a >= 0 && b > 0 then
      assert a - t * b == n - t * d;
      t
    else if a >= 0 then
      assert a - (-t) * b == n - t * d;
      -t
    else if b > 0 then
      assert a - (-t) * b == -(n - t * d);
      -t
    else
      assert a - t * b == -(n - t * d);
      t
  }

  /** For naturals, Euclidean and truncating division agree. */
  lemma EuclidNat(n: nat, d: nat)
    requires d > 0
    ensures 0 <= n - (n / d) * d < d
    ensures n - (n / d) * d <= n
  {
    assert n / d >= 0;
  }

  lemma NegMul(x: int, y: int)
    ensures (-x) * (-y) == x * y && (-x) * y == -(x * y) && x * (-y) == -(x * y)
  {
  }

  /** ITOF: the fixed-point representation of the integer n. */
  function Itof(n: int): (x: int)
    requires IsInt(n * F)
    ensures IsInt(x) && x % F == 0 && x / F == n
  {
    n * F
  }

  /** FTOI: the integer part of x, rounding toward zero. */
  function Ftoi(x: int): (n: int)
    requires IsInt(x)
    ensures IsInt(n)
    ensures 0 <= x ==> 0 <= x - n * F < F
    ensures x < 0 ==> -F < x - n * F <= 0
  {
    CDiv(x, F)
  }

  /** The source adds or subtracts F / 2 in `int` before dividing. */
  predicate RoundFits(x: int) {
    if x >= 0 then IsInt(x + F / 2) else IsInt(x - F / 2)
  }

  /** FTOI_ROUND: x rounded to the nearest integer, halves away from zero. */
  function FtoiRound(x: int): (n: int)
    requires RoundFits(x)
    ensures IsInt(n)
    ensures 0 <= x ==> -F / 2 <= x - n * F < F / 2
    ensures x < 0 ==> -F / 2 < x - n * F <= F / 2
  {
    if x >= 0 then CDiv(x + F / 2, F) else CDiv(x - F / 2, F)
  }

  /** ADD_II: the sum of two fixed-point values. */
  function AddII(x: int, y: int): (r: int)
    requires IsInt(x + y)
  {
    x + y
  }

  /** SUB_II: the difference of two fixed-point values. */
  function SubII(x: int, y: int): (r: int)
    requires IsInt(x - y)
  {
    x - y
  }

  /** ADD_IF: fixed-point x plus integer n. */
  function AddIF(x: int, n: int): (r: int)
    requires IsInt(n * F) && IsInt(x + n * F)
  {
    x + n * F
  }

  /** SUB_IF: fixed-point x minus integer n. */
  function SubIF(x: int, n: int): (r: int)
    requires IsInt(n * F) && IsInt(x - n * F)
  {
    x - n * F
  }

  /** MUL_II: the product is formed in 64 bits (where it always fits, see
      MulIIProductFits64), divided by F with truncation, and the quotient is
      narrowed back to `int`. When the quotient fits, r is within one unit
      of the exact product, on the product's side. */
  function MulII(x: int, y: int): (r: int)
    requires IsInt(x) && IsInt(y)
    ensures IsInt(r)
    ensures (CDiv(x * y, F) - r) % WORD == 0
    ensures IsInt(CDiv(x * y, F)) ==>
      && Abs(x * y - r * F) < F
      && (x * y - r * F == 0 || (x * y - r * F > 0 <==> x * y > 0))
  {
    Narrow(CDiv(x * y, F))
  }

  /** MUL_IF: fixed-point x times integer n. */
  function MulIF(x: int, n: int): (r: int)
    requires IsInt(x * n)
  {
    x * n
  }

  /** DIV_II: x is widened to 64 bits and scaled by F (at most 2^45 in size,
      so neither the product nor the quotient overflows `int64_t`), divided
      by y with truncation, and the quotient is narrowed back to `int`. */
  function DivII(x: int, y: int): (r: int)
    requires y != 0 && IsInt(x) && IsInt(y)
    ensures IsInt(r)
    ensures (CDiv(x * F, y) - r) % WORD == 0
    ensures IsInt(CDiv(x * F, y)) ==>
      && Abs(x * F - r * y) < Abs(y)
      && (x * F - r * y == 0 || (x * F - r * y > 0 <==> x > 0))
  {
    Narrow(CDiv(x * F, y))
  }

  /** DIV_IF: fixed-point x divided by integer n in `int`, truncating. */
  function DivIF(x: int, n: int): (r: int)
    requires n != 0 && IsInt(x) && IsInt(CDiv(x, n))
    ensures Abs(x - r * n) < Abs(n)
    ensures x - r * n == 0 || (x - r * n > 0 <==> x > 0)
  {
    CDiv(x, n)
  }

  /** Converting an integer to fixed point and back gives the integer. */
  lemma FtoiOfItof(n: int)
    requires IsInt(n * F)
    ensures Ftoi(Itof(n)) == n
  {
    assert CDiv(n * F, F) == n;
  }

  /** FTOI truncates toward zero, so it commutes with negation. */
  lemma FtoiIsOdd(x: int)
    requires IsInt(x) && IsInt(-x)
    ensures Ftoi(-x) == -Ftoi(x)
  {
    var n, m := Ftoi(x), Ftoi(-x);
    if x >= 0 {
      assert -x - m * F <= 0 && -x - m * F > -F;
      assert x - (-m) * F >= 0 && x - (-m) * F < F;
    } else {
      assert -x - m * F >= 0 && -x - m * F < F;
    }
  }

  lemma AddIfIsAddIiOfItof(x: int, n: int)
    requires IsInt(n * F) && IsInt(x + n * F)
    ensures AddIF(x, n) == AddII(x, Itof(n))
  {
  }

  lemma SubIfIsSubIiOfItof(x: int, n: int)
    requires IsInt(n * F) && IsInt(x - n * F)
    ensures SubIF(x, n) == SubII(x, Itof(n))
  {
  }

  /** Any product of two `int`s fits the 64-bit intermediate of MUL_II. */
  lemma MulIIProductFits64(x: int, y: int)
    requires IsInt(x) && IsInt(y)
    ensures IsInt64(x * y)
  {
    var a, b := Abs(x), Abs(y);
    MulMonotone(a, 0x8000_0000, b, 0x8000_0000);
    if x < 0 && y < 0 { assert x * y == a * b; }
    else if x < 0 { assert x * y == -(a * b); }
    else if y < 0 { assert x * y == -(a * b); }
    else { assert x * y == a * b; }
  }

  lemma MulMonotone(a: nat, a': nat, b: nat, b': nat)
    requires a <= a' && b <= b'
    ensures a * b <= a' * b'
  {
    assert a * b <= a' * b;
    assert a' * b <= a' * b';
  }

  /** ITOF(1) is the multiplicative unit of MUL_II: the quotient fits, so
      nothing wraps. */
  lemma MulIIByOne(x: int)
    requires IsInt(x)
    ensures IsInt(CDiv(x * Itof(1), F))
    ensures MulII(x, Itof(1)) == x
  {
    assert CDiv(x * F, F) == x;
  }

  /** ITOF(1) is the right unit of DIV_II: the quotient fits, so nothing
      wraps. */
  lemma DivIIByOne(x: int)
    requires IsInt(x)
    ensures IsInt(CDiv(x * F, Itof(1)))
    ensures DivII(x, Itof(1)) == x
  {
    assert CDiv(x * F, F) == x;
  }

  /** A MUL_II whose quotient does not fit in `int` wraps around: 2^16 * 2^16
      in 17.14 is 2^46, whose low 32 bits are 0. */
  lemma MulIIWrapsAround()
    ensures MulII(0x4000_0000, 0x4000_0000) == 0
  {
    assert CDiv(0x4000_0000 * 0x4000_0000, F) == 0x4000_0000_0000;
  }

  /** MUL_IF(x, n) is MUL_II(x, ITOF(n)) whenever the product fits. */
  lemma MulIfIsMulIiOfItof(x: int, n: int)
    requires IsInt(x) && IsInt(n * F) && IsInt(x * n)
    ensures MulII(x, Itof(n)) == MulIF(x, n)
  {
    assert x * (n * F) == (x * n) * F;
    assert CDiv((x * n) * F, F) == x * n;
  }

  /** ADD_II and SUB_II undo each other. */
  lemma AddIIThenSubII(x: int, y: int)
    requires IsInt(x) && IsInt(x + y)
    ensures SubII(AddII(x, y), y) == x
  {
  }

  lemma SubIIThenAddII(x: int, y: int)
    requires IsInt(x) && IsInt(x - y)
    ensures AddII(SubII(x, y), y) == x
  {
  }

  /** ADD_IF and SUB_IF undo each other. */
  lemma AddIfThenSubIf(x: int, n: int)
    requires IsInt(x) && IsInt(n * F) && IsInt(x + n * F)
    ensures SubIF(AddIF(x, n), n) == x
  {
  }

  lemma SubIfThenAddIf(x: int, n: int)
    requires IsInt(x) && IsInt(n * F) && IsInt(x - n * F)
    ensures AddIF(SubIF(x, n), n) == x
  {
  }

  /** Scaling a converted integer by an integer converts the product. */
  lemma MulIfOfItof(a: int, n: int)
    requires IsInt(a * F) && IsInt(a * n * F)
    ensures IsInt(Itof(a) * n)
    ensures MulIF(Itof(a), n) == Itof(a * n)
  {
    assert a * F * n == a * n * F;
  }
}
