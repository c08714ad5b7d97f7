/** Integer routines: the division algorithm with Python's floor semantics,
    prime factorisation, Euclid's gcd, the lcm, base-b expansion and the
    addition of two binary strings. */
module AlgoNumber {

  function Abs(x: int): int {
    if x < 0 then -x else x
  }

  function Max(x: int, y: int): int {
    if x >= y then x else y
  }

  // ----- Division with floor semantics -----

  /** Python's a // b: the quotient rounded towards minus infinity. */
  function FloorDiv(a: int, b: int): int
    requires b != 0
  {
    if b > 0 then a / b else (-a) / (-b)
  }

  /** Python's a % b: the remainder takes the sign of the divisor. */
  function FloorMod(a: int, b: int): (r: int)
    requires b != 0
    ensures a == b * FloorDiv(a, b) + r
    ensures b > 0 ==> 0 <= r < b
    ensures b < 0 ==> b < r <= 0
  {
    if b < 0 then
      var q := (-a) / (-b);
      assert -a == (-b) * q + (-a) % (-b);
      assert b * q == -((-b) * q);
      a - b * q
    else a - b * FloorDiv(a, b)
  }

  /** The quotient and remainder of a by b, as the pair Python returns. */
  function DivisionAlgorithm(a: int, b: int): (qr: (int, int))
    requires b != 0
    ensures a == b * qr.0 + qr.1
    ensures b > 0 ==> 0 <= qr.1 < b
    ensures b < 0 ==> b < qr.1 <= 0
  {
    (FloorDiv(a, b), FloorMod(a, b))
  }

  /** x * y <= x * z when x is non-negative and y <= z. */
  lemma MulMonotone(x: int, y: int, z: int)
    requires x >= 0 && y <= z
    ensures x * y <= x * z
  {
    assert x * z - x * y == x * (z - y);
  }

  lemma AbsProduct(b: int, t: int)
    ensures Abs(b * t) == Abs(b) * Abs(t)
  {
    if b < 0 && t < 0 {
      assert b * t == (-b) * (-t);
    } else if b < 0 {
      assert b * t == -((-b) * t);
    } else if t < 0 {
      assert b * t == -(b * (-t));
    }
  }

  /** A nonzero multiple of b is at least |b| in absolute value. */
  lemma MultipleBound(b: int, t: int)
    requires b != 0 && t != 0
    ensures Abs(b * t) >= Abs(b)
  {
    AbsProduct(b, t);
    MulMonotone(Abs(b), 1, Abs(t));
  }

  /** The quotient and remainder are the only pair with these properties. */
  lemma DivisionUnique(a: int, b: int, q: int, r: int)
    requires b != 0 && a == b * q + r
    requires b > 0 ==> 0 <= r < b
    requires b < 0 ==> b < r <= 0
    ensures (q, r) == DivisionAlgorithm(a, b)
  {
    var (q', r') := DivisionAlgorithm(a, b);
    assert b * (q - q') == r' - r by {
      assert b * (q - q') == b * q - b * q';
    }
    if q != q' {
      MultipleBound(b, q - q');
      assert false;
    }
  }

  // ----- Divisibility -----

  /** d divides x: x is d times some integer (only 0 is a multiple of 0). */
  predicate Divides(d: int, x: int) {
    if d == 0 then x == 0 else x % d == 0
  }

  lemma DividesWitness(d: int, x: int)
    requires d != 0 && Divides(d, x)
    ensures x == d * (x / d)
  {
  }

  /** d divides every multiple d * k. */
  lemma DividesMultiple(d: int, k: int)
    ensures Divides(d, d * k)
  {
    if d != 0 {
      var m := d * k;
      var t := k - m / d;
      assert m == d * (m / d) + m % d;
      assert d * t == m % d by {
        assert d * t == d * k - d * (m / d);
      }
      if t != 0 {
        MultipleBound(d, t);
        assert false;
      }
    }
  }

  /** A common divisor of x and y divides x + c * y. */
  lemma DividesCombination(d: int, x: int, y: int, c: int)
    requires Divides(d, x) && Divides(d, y)
    ensures Divides(d, x + c * y)
  {
    if d != 0 {
      var kx, ky := x / d, y / d;
      DividesWitness(d, x);
      DividesWitness(d, y);
      assert x + c * y == d * (kx + c * ky) by {
        assert c * y == c * (d * ky) == d * (c * ky);
      }
      DividesMultiple(d, kx + c * ky);
    }
  }

  lemma DividesTransitive(d: int, e: int, x: int)
    requires Divides(d, e) && Divides(e, x)
    ensures Divides(d, x)
  {
    if e == 0 {
      assert x == 0;
      DividesMultiple(d, 0);
    } else {
      DividesWitness(e, x);
      DividesCombination(d, 0, e, x / e);
      assert 0 + (x / e) * e == x;
    }
  }

  // ----- Prime factorisation -----

  predicate Prime(p: int) {
    p >= 2 && forall d :: 2 <= d < p ==> p % d != 0
  }

  function Product(s: seq<int>): int {
    if |s| == 0 then 1 else Product(s[..|s| - 1]) * s[|s| - 1]
  }

  predicate NonDecreasing(s: seq<int>) {
    forall k, l :: 0 <= k < l < |s| ==> s[k] <= s[l]
  }

  lemma ProductAppend(s: seq<int>, x: int)
    ensures Product(s + [x]) == Product(s) * x
  {
    assert (s + [x])[..|s|] == s;
  }

  /** If n has no divisor in [2, i) and i divides n, then i is prime. */
  lemma SmallestDivisorIsPrime(n: int, i: int)
    requires n >= 1 && i >= 2 && n % i == 0
    requires forall d :: 2 <= d < i ==> n % d != 0
    ensures Prime(i)
  {
    forall d | 2 <= d < i
      ensures i % d != 0
    {
      if i % d == 0 {
        DividesTransitive(d, i, n);
      }
    }
  }

  /** A divisor d >= i of n with i * i > n leaves a cofactor in [2, i). */
  lemma Cofactor(n: int, i: int, d: int)
    requires n > 1 && i >= 2 && i * i > n && i <= d < n && n % d == 0
    ensures 2 <= n / d < i && n % (n / d) == 0
  {
    var e := n / d;
    DividesWitness(d, n);
    assert n == d * e;
    if e <= 1 {
      MulMonotone(d, e, 1);
      assert false;
    }
    if e >= i {
      MulMonotone(e, i, d);
      MulMonotone(i, i, e);
      assert false;
    }
    DividesMultiple(e, d);
    assert e * d == n;
  }

  /** If n > 1 has no divisor in [2, i) and i * i > n, then n is prime. */
  lemma NoSmallDivisorIsPrime(n: int, i: int)
    requires n > 1 && i >= 2 && i * i > n
    requires forall d :: 2 <= d < i ==> n % d != 0
    ensures Prime(n)
  {
    forall d | 2 <= d < n
      ensures n % d != 0
    {
      if n % d == 0 && d >= i {
        Cofactor(n, i, d);
        assert false;
      }
    }
  }

  /** Dividing out by i keeps every divisor of the quotient a divisor of n. */
  lemma QuotientDivisors(n: int, i: int, d: int)
    requires n >= 1 && i >= 2 && d >= 2 && n % i == 0 && (n / i) % d == 0
    ensures n % d == 0
  {
    DividesMultiple(i, n / i);
    DividesWitness(i, n);
    DividesTransitive(d, n / i, n) by {
      assert n == (n / i) * i;
      DividesMultiple(n / i, i);
    }
  }

  /** One division of the inner loop: i is prime, the product is kept, and the
      quotient still has no divisor in [2, i). */
  lemma DivideOut(factors: seq<int>, n: int, i: int, n0: int)
    requires n >= 1 && i >= 2 && n % i == 0 && Product(factors) * n == n0
    requires forall d :: 2 <= d < i ==> n % d != 0
    ensures Prime(i)
    ensures 1 <= n / i < n && Product(factors + [i]) * (n / i) == n0
    ensures forall d :: 2 <= d < i ==> (n / i) % d != 0
  {
    SmallestDivisorIsPrime(n, i);
    ProductAppend(factors, i);
    DividesWitness(i, n);
    var m := n / i;
    assert n == i * m;
    if m < 1 {
      MulMonotone(i, m, 0);
      assert false;
    }
    MulMonotone(m, 2, i);
    assert Product(factors + [i]) * m == Product(factors) * (i * m);
    forall d | 2 <= d < i
      ensures m % d != 0
    {
      if m % d == 0 {
        QuotientDivisors(n, i, d);
      }
    }
  }

  lemma SquareBound(i: int)
    requires i >= 1
    ensures i <= i * i
  {
    MulMonotone(i, 1, i);
  }

  /** Trial division: divide out each i while i * i <= n, then keep the rest. */
  method PrimeFactors(n0: int) returns (factors: seq<int>)
    ensures n0 <= 1 ==> factors == []
    ensures n0 >= 2 ==> Product(factors) == n0
    ensures forall k :: 0 <= k < |factors| ==> Prime(factors[k])
    ensures NonDecreasing(factors)
  {
    factors := [];
    var n := n0;
    var i := 2;
    while i * i <= n
      invariant i >= 2
      invariant n0 <= 1 ==> n == n0 && factors == []
      invariant n0 >= 2 ==> n >= 1 && Product(factors) * n == n0
      invariant forall k :: 0 <= k < |factors| ==> Prime(factors[k]) && factors[k] < i
      invariant NonDecreasing(factors)
      invariant forall d :: 2 <= d < i ==> n % d != 0
      decreases n - i
    {
      SquareBound(i);
      while n % i == 0
        invariant n >= 1 && Product(factors) * n == n0
        invariant forall k :: 0 <= k < |factors| ==> Prime(factors[k]) && factors[k] <= i
        invariant NonDecreasing(factors)
        invariant forall d :: 2 <= d < i ==> n % d != 0
        decreases n
      {
        DivideOut(factors, n, i, n0);
        factors := factors + [i];
        n := n / i;
      }
      i := i + 1;
    }
    if n > 1 {
      NoSmallDivisorIsPrime(n, i);
      assert n % n == 0;
      ProductAppend(factors, n);
      factors := factors + [n];
    }
  }

  // ----- Greatest common divisor and least common multiple -----

  /** Euclid's recursion with Python's remainder. */
  function Euclid(a: int, b: int): int
    decreases Abs(b)
  {
    if b == 0 then a else Euclid(b, FloorMod(a, b))
  }

  /** The gcd divides both arguments. */
  lemma {:induction false} EuclidDivides(a: int, b: int)
    ensures Divides(Euclid(a, b), a) && Divides(Euclid(a, b), b)
    decreases Abs(b)
  {
    if b == 0 {
      DividesMultiple(a, 1);
      DividesMultiple(a, 0);
    } else {
      var r := FloorMod(a, b);
      EuclidDivides(b, r);
      DividesCombination(Euclid(a, b), r, b, FloorDiv(a, b));
      assert r + FloorDiv(a, b) * b == a;
    }
  }

  /** Every common divisor of the arguments divides the gcd. */
  lemma {:induction false} EuclidGreatest(a: int, b: int, d: int)
    requires Divides(d, a) && Divides(d, b)
    ensures Divides(d, Euclid(a, b))
    decreases Abs(b)
  {
    if b != 0 {
      var r := FloorMod(a, b);
      DividesCombination(d, a, b, -FloorDiv(a, b));
      assert a + (-FloorDiv(a, b)) * b == r;
      EuclidGreatest(b, r, d);
    }
  }

  /** The gcd is zero exactly when both arguments are, and is non-negative for
      non-negative arguments. */
  lemma {:induction false} EuclidSign(a: int, b: int)
    ensures Euclid(a, b) == 0 <==> a == 0 && b == 0
    ensures a >= 0 && b >= 0 ==> Euclid(a, b) >= 0
    decreases Abs(b)
  {
    if b != 0 {
      EuclidSign(b, FloorMod(a, b));
    }
  }

  /** The loop a, b := b, a % b until b is zero. */
  method Gcd(a0: int, b0: int) returns (g: int)
    ensures g == Euclid(a0, b0)
    ensures Divides(g, a0) && Divides(g, b0)
    ensures forall d :: Divides(d, a0) && Divides(d, b0) ==> Divides(d, g)
    ensures b0 == 0 ==> g == a0
    ensures a0 >= 0 && b0 >= 0 ==> g >= 0
    ensures g == 0 <==> a0 == 0 && b0 == 0
  {
    var a, b := a0, b0;
    while b != 0
      invariant Euclid(a, b) == Euclid(a0, b0)
      decreases Abs(b)
    {
      a, b := b, FloorMod(a, b);
    }
    g := a;
    EuclidDivides(a0, b0);
    EuclidSign(a0, b0);
    forall d | Divides(d, a0) && Divides(d, b0)
      ensures Divides(d, g)
    {
      EuclidGreatest(a0, b0, d);
    }
  }

  /** (g * k) // g == k for g != 0. */
  lemma ExactQuotient(g: int, k: int)
    requires g != 0
    ensures FloorDiv(g * k, g) == k
  {
    var qr := DivisionAlgorithm(g * k, g);
    if g > 0 {
      DivisionUnique(g * k, g, k, 0);
    } else {
      DivisionUnique(g * k, g, k, 0);
    }
  }

  lemma DividesAbs(d: int, x: int)
    requires Divides(d, x)
    ensures Divides(d, Abs(x)) && Divides(d, -x)
  {
    DividesCombination(d, 0, x, -1);
    assert 0 + (-1) * x == -x;
  }

  /** abs(a * b) // gcd(a, b); Python divides by zero when both are zero. */
  function Lcm(a: int, b: int): (l: int)
    requires a != 0 || b != 0
    ensures Divides(a, l) && Divides(b, l)
    ensures l * Euclid(a, b) == Abs(a * b)
    ensures a >= 0 && b >= 0 ==> l >= 0
  {
    EuclidSign(a, b);
    EuclidDivides(a, b);
    var g := Euclid(a, b);
    LcmFacts(a, b, g);
    FloorDiv(Abs(a * b), g)
  }

  lemma SwapFactor(x: int, g: int, k: int)
    ensures x * (g * k) == g * (x * k) && (g * x) * k == x * (g * k)
  {
  }

  /** A product g * k with g > 0 that is non-negative has k non-negative. */
  lemma PositiveFactor(g: int, k: int)
    requires g > 0 && g * k >= 0
    ensures k >= 0
  {
    if k < 0 {
      MulMonotone(g, k, -1);
    }
  }

  lemma LcmFacts(a: int, b: int, g: int)
    requires g != 0 && Divides(g, a) && Divides(g, b)
    ensures Divides(a, FloorDiv(Abs(a * b), g)) && Divides(b, FloorDiv(Abs(a * b), g))
    ensures FloorDiv(Abs(a * b), g) * g == Abs(a * b)
    ensures g > 0 ==> FloorDiv(Abs(a * b), g) >= 0
  {
    DividesWitness(g, b);
    DividesWitness(g, a);
    var kb := b / g;
    var ka := a / g;
    SwapFactor(a, g, kb);
    SwapFactor(ka, g, kb);
    var m := a * kb;
    assert a * b == g * m;
    assert m == ka * b;
    var k := if a * b < 0 then -m else m;
    assert Abs(a * b) == g * k by {
      if a * b < 0 {
        assert g * (-m) == -(g * m);
      }
    }
    ExactQuotient(g, k);
    DividesMultiple(a, kb);
    DividesAbs(a, m);
    DividesMultiple(b, ka);
    assert b * ka == m;
    DividesAbs(b, m);
    assert k * g == g * k;
    if g > 0 {
      PositiveFactor(g, k);
    }
  }

  // ----- Base-b expansion -----

  function Pow(base: int, k: nat): int {
    if k == 0 then 1 else Pow(base, k - 1) * base
  }

  /** Value of a digit list read most significant first. */
  function FromDigits(ds: seq<int>, base: int): int {
    if |ds| == 0 then 0 else FromDigits(ds[..|ds| - 1], base) * base + ds[|ds| - 1]
  }

  /** Value of a digit list read least significant first. */
  function FromDigitsLsb(ds: seq<int>, base: int): int {
    if |ds| == 0 then 0 else FromDigitsLsb(ds[..|ds| - 1], base) + Pow(base, |ds| - 1) * ds[|ds| - 1]
  }

  function Reverse(ds: seq<int>): (rs: seq<int>)
    ensures |rs| == |ds| && forall k :: 0 <= k < |ds| ==> rs[k] == ds[|ds| - 1 - k]
  {
    seq(|ds|, k requires 0 <= k < |ds| => ds[|ds| - 1 - k])
  }

  /** Putting d in front of a most-significant-first list adds d * base^|ds|. */
  lemma {:induction false} FromDigitsPrepend(d: int, ds: seq<int>, base: int)
    ensures FromDigits([d] + ds, base) == d * Pow(base, |ds|) + FromDigits(ds, base)
  {
    if |ds| > 0 {
      var n := |ds| - 1;
      assert ([d] + ds)[..n + 1] == [d] + ds[..n];
      FromDigitsPrepend(d, ds[..n], base);
      assert d * Pow(base, n + 1) == d * Pow(base, n) * base;
    } else {
      assert ([d] + ds)[..0] == [];
    }
  }

  /** Reading the reversed list most significant first gives the same value. */
  lemma {:induction false} ReverseValue(ds: seq<int>, base: int)
    ensures FromDigits(Reverse(ds), base) == FromDigitsLsb(ds, base)
  {
    if |ds| > 0 {
      var n := |ds| - 1;
      ReverseValue(ds[..n], base);
      assert Reverse(ds) == [ds[n]] + Reverse(ds[..n]);
      FromDigitsPrepend(ds[n], Reverse(ds[..n]), base);
    }
  }

  /** Splitting n into its last digit and the rest keeps p * n. */
  lemma DigitStep(p: int, n: int, base: int)
    requires base >= 2 && n >= 0
    ensures p * n == p * (n % base) + (p * base) * (n / base)
    ensures n / base < n || n == 0
  {
    assert n == base * (n / base) + n % base;
    assert p * (base * (n / base)) == (p * base) * (n / base);
    assert p * (base * (n / base) + n % base) == p * (base * (n / base)) + p * (n % base);
  }

  /** Repeated division by base, collecting remainders, then reversed. */
  method BaseBExpansion(n0: int, base: int) returns (digits: seq<int>)
    requires base >= 2
    ensures n0 == 0 ==> digits == [0]
    ensures n0 < 0 ==> digits == []
    ensures n0 > 0 ==> |digits| > 0 && digits[0] != 0
    ensures forall k :: 0 <= k < |digits| ==> 0 <= digits[k] < base
    ensures n0 >= 0 ==> FromDigits(digits, base) == n0
  {
    if n0 == 0 {
      return [0];
    }
    var lsb: seq<int> := [];
    var n := n0;
    while n > 0
      invariant n0 < 0 ==> n == n0 && lsb == []
      invariant n0 > 0 ==> n >= 0 && n0 == FromDigitsLsb(lsb, base) + Pow(base, |lsb|) * n
      invariant forall k :: 0 <= k < |lsb| ==> 0 <= lsb[k] < base
      invariant n0 > 0 && n == 0 ==> |lsb| > 0 && lsb[|lsb| - 1] != 0
      decreases n
    {
      var d := n % base;
      var m := n / base;
      assert (lsb + [d])[..|lsb|] == lsb;
      DigitStep(Pow(base, |lsb|), n, base);
      if m == 0 {
        assert d == n;
      }
      lsb := lsb + [d];
      n := m;
    }
    digits := Reverse(lsb);
    ReverseValue(lsb, base);
  }

  // ----- Binary addition -----

  /** The integer a digit character stands for, as int() reads it. */
  function Digit(c: char): int {
    (c as int) - ('0' as int)
  }

  predicate IsDecimal(s: string) {
    forall k :: 0 <= k < |s| ==> '0' <= s[k] <= '9'
  }

  predicate IsBinary(s: string) {
    forall k :: 0 <= k < |s| ==> s[k] == '0' || s[k] == '1'
  }

  /** c * 2^k, by repeated doubling. */
  function Weight(c: int, k: nat): int {
    if k == 0 then c else 2 * Weight(c, k - 1)
  }

  lemma {:induction false} WeightAdd(x: int, y: int, k: nat)
    ensures Weight(x + y, k) == Weight(x, k) + Weight(y, k)
  {
    if k > 0 {
      WeightAdd(x, y, k - 1);
    }
  }

  lemma {:induction false} WeightZero(k: nat)
    ensures Weight(0, k) == 0
  {
    if k > 0 {
      WeightZero(k - 1);
    }
  }

  lemma {:induction false} WeightDouble(c: int, k: nat)
    ensures Weight(2 * c, k) == Weight(c, k + 1)
  {
    if k > 0 {
      WeightDouble(c, k - 1);
    }
  }

  /** Value of a digit string whose positions weigh powers of two, most
      significant first; on a binary string this is its binary value. */
  function Value(s: string): int {
    if |s| == 0 then 0 else Weight(Digit(s[0]), |s| - 1) + Value(s[1..])
  }

  /** The value of s[i..], unfolded by index: what the scan from the right has read. */
  function SuffixValue(s: string, i: nat): int
    decreases |s| - i
  {
    if i >= |s| then 0 else Weight(Digit(s[i]), |s| - 1 - i) + SuffixValue(s, i + 1)
  }

  lemma {:induction false} SuffixValueIsValue(s: string, i: nat)
    requires i <= |s|
    ensures SuffixValue(s, i) == Value(s[i..])
    decreases |s| - i
  {
    if i < |s| {
      SuffixValueIsValue(s, i + 1);
      assert s[i..][1..] == s[i + 1..];
    }
  }

  /** One column: the new bit and carry account for the old carry and both digits. */
  lemma CarryStep(carry: int, da: int, db: int, bit: int, carry': int, k: nat)
    requires bit + 2 * carry' == carry + da + db
    ensures Weight(bit, k) + Weight(carry', k + 1) == Weight(carry, k) + Weight(da, k) + Weight(db, k)
  {
    WeightDouble(carry', k);
    WeightAdd(bit, 2 * carry', k);
    WeightAdd(carry, da, k);
    WeightAdd(carry + da, db, k);
  }

  /** The digit of column |s| - 1 - i, or 0 once the string is used up. */
  function DigitOrZero(s: string, i: int): int
    requires i < |s|
  {
    if i >= 0 then Digit(s[i]) else 0
  }

  /** Reading column k of s: the unread suffix loses the digit at i, which weighs 2^k. */
  lemma ReadColumn(s: string, i: int, k: nat)
    requires -1 <= i < |s| && i + 1 == Max(|s| - k, 0)
    ensures SuffixValue(s, if i >= 0 then i else 0) == Weight(DigitOrZero(s, i), k) + SuffixValue(s, i + 1)
  {
    WeightZero(k);
  }

  /** The value bookkeeping of one loop iteration of BinaryAdd: prepending the
      bit and moving the carry up one column accounts for both digits read. */
  lemma AddColumn(result: string, carry: int, da: int, db: int, va: int, vb: int, bit: char, carry': int)
    requires Digit(bit) + 2 * carry' == carry + da + db
    requires Value(result) + Weight(carry, |result|) == va + vb
    ensures Value([bit] + result) + Weight(carry', |result| + 1) == (va + Weight(da, |result|)) + (vb + Weight(db, |result|))
  {
    assert ([bit] + result)[1..] == result;
    CarryStep(carry, da, db, Digit(bit), carry', |result|);
  }

  /** Add from the right with a carry, prepending each result bit. */
  method BinaryAdd(a: string, b: string) returns (result: string)
    requires IsDecimal(a) && IsDecimal(b)
    ensures IsBinary(result)
    ensures Value(result) == Value(a) + Value(b)
    ensures IsBinary(a) && IsBinary(b) ==>
              |result| == Max(|a|, |b|) || |result| == Max(|a|, |b|) + 1
  {
    result := "";
    var carry := 0;
    var i, j := |a| - 1, |b| - 1;
    while i >= 0 || j >= 0 || carry != 0
      invariant -1 <= i < |a| && -1 <= j < |b|
      invariant i + 1 == Max(|a| - |result|, 0) && j + 1 == Max(|b| - |result|, 0)
      invariant 0 <= carry <= 18
      invariant IsBinary(a) && IsBinary(b) ==> carry <= 1
      invariant IsBinary(result)
      invariant Value(result) + Weight(carry, |result|) == SuffixValue(a, i + 1) + SuffixValue(b, j + 1)
      invariant IsBinary(a) && IsBinary(b) ==>
                  |result| <= Max(|a|, |b|) || (carry == 0 && |result| == Max(|a|, |b|) + 1)
      decreases i + j + 2, carry
    {
      ReadColumn(a, i, |result|);
      ReadColumn(b, j, |result|);
      ghost var da, db := DigitOrZero(a, i), DigitOrZero(b, j);
      ghost var va, vb := SuffixValue(a, i + 1), SuffixValue(b, j + 1);
      var bitSum := carry;
      if i >= 0 {
        bitSum := bitSum + Digit(a[i]);
        i := i - 1;
      }
      if j >= 0 {
        bitSum := bitSum + Digit(b[j]);
        j := j - 1;
      }
      var bit := if bitSum % 2 == 0 then '0' else '1';
      AddColumn(result, carry, da, db, va, vb, bit, bitSum / 2);
      result := [bit] + result;
      carry := bitSum / 2;
    }
    WeightZero(|result|);
    SuffixValueIsValue(a, 0);
    SuffixValueIsValue(b, 0);
    assert a[0..] == a && b[0..] == b;
  }
}
