/**
 The X25519 function of quick_link.py (section 5 of RFC 7748): the Montgomery ladder with its swap
 deferred to the next step, against the ladder that branches on the bit.
 */
module X25519 {
  import opened Basics
  import opened Arithmetic

  function Pow2(n: nat): (r: nat)
    ensures r >= 1
  {
    if n == 0 then 1 else 2 * Pow2(n - 1)
  }

  /** A projective x-coordinate. */
  datatype Point = Point(x: int, z: int)

  datatype Pair = Pair(lo: Point, hi: Point)

  type Modulus = m: nat | m >= 1 witness 1

  // ---------- field operations of one ladder step, modulo m ----------

  function Double(m: Modulus, p: Point): Point {
    var a := (p.x + p.z) % m;
    var aa := a * a % m;
    var b := (p.x - p.z) % m;
    var bb := b * b % m;
    var e := (aa - bb) % m;
    Point(aa * bb % m, e * (aa + 121665 * e) % m)
  }

  /** Differential addition: the sum of p and q, whose difference has affine x-coordinate x1. */
  function Add(m: Modulus, x1: int, p: Point, q: Point): Point {
    var da := ((q.x - q.z) % m) * ((p.x + p.z) % m) % m;
    var cb := ((q.x + q.z) % m) * ((p.x - p.z) % m) % m;
    Point((da + cb) * (da + cb) % m, x1 * ((da - cb) * (da - cb)) % m)
  }

  /** The addition formula does not depend on the order of its points. */
  lemma AddCommutes(m: Modulus, x1: int, p: Point, q: Point)
    ensures Add(m, x1, p, q) == Add(m, x1, q, p)
  {
    var pp, pm := (p.x + p.z) % m, (p.x - p.z) % m;
    var qp, qm := (q.x + q.z) % m, (q.x - q.z) % m;
    var da, cb := qm * pp % m, qp * pm % m;
    assert qm * pp == pp * qm && qp * pm == pm * qp;
    SquareOfDifference(da, cb);
  }

  lemma SquareOfDifference(a: int, b: int)
    ensures (a - b) * (a - b) == (b - a) * (b - a)
  {
  }

  // ---------- which curve ----------

  ghost predicate Cong(m: Modulus, a: int, b: int) { a % m == b % m }

  lemma CongMod(m: Modulus, a: int)
    ensures Cong(m, a % m, a)
  {
    assert a == m * (a / m) + a % m;
    ModShift(a % m, a / m, m);
  }

  lemma CongMul(m: Modulus, a: int, a': int, b: int, b': int)
    requires Cong(m, a, a') && Cong(m, b, b')
    ensures Cong(m, a * b, a' * b')
  {
    ModMul(a, b, m);
    ModMul(a', b, m);
    ModMul(b, a', m);
    ModMul(b', a', m);
    assert a' * b == b * a' && a' * b' == b' * a';
  }

  /** The sum of a and k times b. */
  lemma CongLinear(m: Modulus, a: int, a': int, k: int, b: int, b': int)
    requires Cong(m, a, a') && Cong(m, b, b')
    ensures Cong(m, a + k * b, a' + k * b')
  {
    CongMul(m, k, k, b, b');
    CongSum(m, a, a', k * b, k * b');
  }

  lemma CongSum(m: Modulus, a: int, a': int, b: int, b': int)
    requires Cong(m, a, a') && Cong(m, b, b')
    ensures Cong(m, a + b, a' + b')
  {
    SumOfRests(m, a, b);
    SumOfRests(m, a', b');
  }

  lemma SumOfRests(m: Modulus, a: int, b: int)
    ensures Cong(m, a + b, a % m + b % m)
  {
    var q, r := a / m, b / m;
    assert a == m * q + a % m && b == m * r + b % m;
    assert m * q + m * r == m * (q + r);
    ModShift(a % m + b % m, q + r, m);
  }

  /** Reduced, multiplied and reduced again. */
  lemma CongProduct(m: Modulus, a: int, a': int, b: int, b': int)
    requires Cong(m, a, a') && Cong(m, b, b')
    ensures Cong(m, a * b % m, a' * b')
  {
    CongMul(m, a, a', b, b');
    CongMod(m, a * b);
  }

  lemma DifferenceOfSquares(x: int, z: int)
    ensures (x + z) * (x + z) - (x - z) * (x - z) == 4 * (x * z)
    ensures (x + z) * (x - z) == x * x - z * z
  {
  }

  lemma SquaresProduct(x: int, z: int)
    ensures (x + z) * (x + z) * ((x - z) * (x - z)) == (x * x - z * z) * (x * x - z * z)
  {
    var a, b := x + z, x - z;
    DifferenceOfSquares(x, z);
    assert a * a * (b * b) == (a * b) * (a * b);
  }

  lemma CurveConstant(x: int, z: int)
    ensures (x + z) * (x + z) + 121665 * (4 * (x * z)) == x * x + 486662 * (x * z) + z * z
  {
  }

  /** Doubling on y^2 = x^3 + 486662 x^2 + x, modulo m. */
  lemma DoubleOnCurve(m: Modulus, p: Point)
    ensures var d, x, z := Double(m, p), p.x, p.z;
            && Cong(m, d.x, (x * x - z * z) * (x * x - z * z))
            && Cong(m, d.z, 4 * (x * z) * (x * x + 486662 * (x * z) + z * z))
  {
    var x, z := p.x, p.z;
    var a, b := (x + z) % m, (x - z) % m;
    var aa, bb := a * a % m, b * b % m;
    var e := (aa - bb) % m;
    CongMod(m, x + z);
    CongMod(m, x - z);
    CongProduct(m, a, x + z, a, x + z);
    CongProduct(m, b, x - z, b, x - z);
    var sum, diff := (x + z) * (x + z), (x - z) * (x - z);
    CongProduct(m, aa, sum, bb, diff);
    SquaresProduct(x, z);
    CongLinear(m, aa, sum, -1, bb, diff);
    CongMod(m, aa - bb);
    DifferenceOfSquares(x, z);
    CongLinear(m, aa, sum, 121665, e, 4 * (x * z));
    CurveConstant(x, z);
    CongProduct(m, e, 4 * (x * z), aa + 121665 * e, x * x + 486662 * (x * z) + z * z);
  }

  lemma CrossProducts(xp: int, zp: int, xq: int, zq: int)
    ensures (xq - zq) * (xp + zp) + (xq + zq) * (xp - zp) == 2 * (xp * xq - zp * zq)
    ensures (xq - zq) * (xp + zp) - (xq + zq) * (xp - zp) == -2 * (xp * zq - zp * xq)
  {
  }

  lemma SquareOfDouble(a: int)
    ensures (2 * a) * (2 * a) == 4 * (a * a) && (-2 * a) * (-2 * a) == 4 * (a * a)
  {
  }

  /** Differential addition, modulo m. */
  lemma AddOnCurve(m: Modulus, x1: int, p: Point, q: Point)
    ensures var s := Add(m, x1, p, q);
            var plus, minus := p.x * q.x - p.z * q.z, p.x * q.z - p.z * q.x;
            Cong(m, s.x, 4 * (plus * plus)) && Cong(m, s.z, x1 * (4 * (minus * minus)))
  {
    var qm, pp, qp, pm := q.x - q.z, p.x + p.z, q.x + q.z, p.x - p.z;
    CongMod(m, qm);
    CongMod(m, pp);
    CongMod(m, qp);
    CongMod(m, pm);
    CongProduct(m, qm % m, qm, pp % m, pp);
    CongProduct(m, qp % m, qp, pm % m, pm);
    var da, cb := (qm % m) * (pp % m) % m, (qp % m) * (pm % m) % m;
    AddSquares(m, x1, p, q, da, cb);
  }

  lemma AddSquares(m: Modulus, x1: int, p: Point, q: Point, da: int, cb: int)
    requires Cong(m, da, (q.x - q.z) * (p.x + p.z)) && Cong(m, cb, (q.x + q.z) * (p.x - p.z))
    ensures var plus, minus := p.x * q.x - p.z * q.z, p.x * q.z - p.z * q.x;
            && Cong(m, (da + cb) * (da + cb) % m, 4 * (plus * plus))
            && Cong(m, x1 * ((da - cb) * (da - cb)) % m, x1 * (4 * (minus * minus)))
  {
    var plus, minus := p.x * q.x - p.z * q.z, p.x * q.z - p.z * q.x;
    var u, v := (q.x - q.z) * (p.x + p.z), (q.x + q.z) * (p.x - p.z);
    CrossProducts(p.x, p.z, q.x, q.z);
    CongSum(m, da, u, cb, v);
    CongLinear(m, da, u, -1, cb, v);
    CongProduct(m, da + cb, 2 * plus, da + cb, 2 * plus);
    CongMul(m, da - cb, -2 * minus, da - cb, -2 * minus);
    SquareOfDouble(plus);
    SquareOfDouble(minus);
    CongProduct(m, x1, x1, (da - cb) * (da - cb), 4 * (minus * minus));
  }

  // ---------- the ladder that branches ----------

  function Bit(k: nat, t: nat): nat { k / Pow2(t) % 2 }

  /** One step: the pair (n, n + 1) goes to (2n, 2n + 1) or (2n + 1, 2n + 2). */
  function BranchStep(m: Modulus, x1: int, s: Pair, bit: nat): Pair {
    if bit == 0 then Pair(Double(m, s.lo), Add(m, x1, s.lo, s.hi))
    else Pair(Add(m, x1, s.lo, s.hi), Double(m, s.hi))
  }

  /** After the steps for bits 254 down to t. */
  function Branching(m: Modulus, x1: int, k: nat, t: nat): Pair
    requires t <= 255
    decreases 255 - t
  {
    if t == 255 then Pair(Point(1, 0), Point(x1, 1))
    else BranchStep(m, x1, Branching(m, x1, k, t + 1), Bit(k, t))
  }

  // ---------- inversion by exponentiation ----------

  function Pow(b: int, e: nat): int {
    if e == 0 then 1 else b * Pow(b, e - 1)
  }

  lemma PowSmall(b: int)
    ensures Pow(b, 1) == b && Pow(b, 2) == b * b
  {
    assert Pow(b, 0) == 1;
  }

  /** Square-and-multiply, standing for Python's three-argument pow. */
  method ModPow(b: int, e: nat, m: Modulus) returns (r: int)
    ensures r == Pow(b, e) % m
  {
    var base, exp := b, e;
    r := 1 % m;
    ghost var done := 1;
    while exp > 0
      invariant exp >= 0
      invariant r == done % m
      invariant done * Pow(base, exp) == Pow(b, e)
    {
      if exp % 2 == 1 {
        ModMul(done, base, m);
        PowStep(done, base, exp);
        r, done, exp := r * base % m, done * base, exp - 1;
      } else {
        PowSquare(base, exp / 2);
        assert 2 * (exp / 2) == exp;
        base, exp := base * base, exp / 2;
      }
    }
    assert Pow(base, 0) == 1;
  }

  lemma ModMul(a: int, b: int, m: Modulus)
    ensures (a % m) * b % m == a * b % m
  {
    var q, r := a / m, a % m;
    assert a == m * q + r;
    assert a * b == m * (q * b) + r * b;
    ModShift(r * b, q * b, m);
  }

  lemma ModShift(x: int, q: int, m: Modulus)
    ensures (m * q + x) % m == x % m
  {
    var a, b := (m * q + x) / m, x / m;
    var r, s := (m * q + x) % m, x % m;
    assert m * q + x == m * a + r && x == m * b + s;
    assert m * (a - q - b) == s - r;
    MultipleOutside(m, a - q - b);
  }

  lemma PowStep(d: int, b: int, e: nat)
    requires e > 0
    ensures d * Pow(b, e) == d * b * Pow(b, e - 1)
  {
  }

  lemma {:induction false} PowSquare(b: int, h: nat)
    ensures Pow(b * b, h) == Pow(b, 2 * h)
  {
    if h > 0 {
      PowSquare(b, h - 1);
      assert Pow(b, 2 * h) == b * Pow(b, 2 * h - 1);
      assert Pow(b, 2 * h - 1) == b * Pow(b, 2 * h - 2);
      assert b * b * Pow(b, 2 * h - 2) == b * (b * Pow(b, 2 * h - 2));
    }
  }

  // ---------- the deferred-swap loop ----------

  function SwapIf(s: Pair, swap: nat): Pair { if swap == 0 then s else Pair(s.hi, s.lo) }

  /** A step on the swapped pair, swapped back, is the branching step. */
  lemma SwappedStep(m: Modulus, x1: int, s: Pair, bit: nat)
    requires bit <= 1
    ensures var w := SwapIf(s, bit);
            SwapIf(Pair(Double(m, w.lo), Add(m, x1, w.lo, w.hi)), bit) == BranchStep(m, x1, s, bit)
  {
    AddCommutes(m, x1, s.lo, s.hi);
  }

  lemma SwapTwice(s: Pair, a: nat, b: nat)
    requires a <= 1 && b <= 1
    ensures SwapIf(SwapIf(s, a), (a + b) % 2) == SwapIf(s, b)
  {
  }

  lemma BitIsBinary(k: nat, t: nat)
    ensures Bit(k, t) <= 1
  {
  }

  /** The arithmetic of one step: doubles the first point and adds the second to it. */
  method FieldStep(m: Modulus, x1: int, p: Point, q: Point) returns (s: Pair)
    ensures s == Pair(Double(m, p), Add(m, x1, p, q))
  {
    var A := (p.x + p.z) % m;
    var AA := A * A % m;
    var B := (p.x - p.z) % m;
    var BB := B * B % m;
    var E := (AA - BB) % m;
    var C := (q.x + q.z) % m;
    var D := (q.x - q.z) % m;
    var DA := D * A % m;
    var CB := C * B % m;
    var sum := Point((DA + CB) * (DA + CB) % m, x1 * ((DA - CB) * (DA - CB)) % m);
    var twice := Point(AA * BB % m, E * (AA + 121665 * E) % m);
    s := Pair(twice, sum);
  }

  /** The bits from 254 down: the loop ends with the branching ladder's pair. */
  method Ladder(m: Modulus, k: nat, u: int) returns (s: Pair)
    ensures s == Branching(m, u, k, 0)
  {
    var p2, p3, swap := Point(1, 0), Point(u, 1), 0;
    var t := 255;
    while t > 0
      invariant 0 <= t <= 255 && swap <= 1
      invariant SwapIf(Pair(p2, p3), swap) == Branching(m, u, k, t)
    {
      t := t - 1;
      ghost var was := Branching(m, u, k, t + 1);
      var kt := Bit(k, t);
      BitIsBinary(k, t);
      SwapTwice(was, swap, kt);
      swap := (swap + kt) % 2;
      if swap != 0 {
        p2, p3 := p3, p2;
      }
      swap := kt;
      assert Pair(p2, p3) == SwapIf(was, kt);
      SwappedStep(m, u, was, kt);
      var next := FieldStep(m, u, p2, p3);
      p2, p3 := next.lo, next.hi;
    }
    if swap != 0 {
      p2, p3 := p3, p2;
    }
    s := Pair(p2, p3);
  }

  /** 2^255 - 19 */
  function Prime(): (p: Modulus)
    ensures p < Pow2(255)
  {
    EightMore(247);
    Pow2(255) - 19
  }

  /** The field of Curve25519. */
  lemma PrimeOfField()
    ensures Prime() + 19 == Pow2(255)
  {
  }

  ghost function LadderResult(k: nat, u: int): int {
    var r := Branching(Prime(), u, k, 0).lo;
    r.x * (Pow(r.z, Prime() - 2) % Prime()) % Prime()
  }

  /** `_x25519`: the program's result is the branching ladder's, and fits in 32 bytes. */
  method Compute(k: nat, u: int) returns (r: int)
    ensures r == LadderResult(k, u)
    ensures 0 <= r < Pow2(8 * 32)
  {
    var p := Prime();
    var s := Ladder(p, k, u);
    var inv := ModPow(s.lo.z, p - 2, p);
    r := s.lo.x * inv % p;
  }

  /** The result is the affine coordinate: times z it is x, wherever Fermat's little theorem holds of z. */
  lemma ResultIsAffine(k: nat, u: int)
    requires Pow(Branching(Prime(), u, k, 0).lo.z, Prime() - 1) % Prime() == 1 % Prime()
    ensures var r := Branching(Prime(), u, k, 0).lo; Cong(Prime(), LadderResult(k, u) * r.z, r.x)
  {
    var r := Branching(Prime(), u, k, 0).lo;
    QuotientTimes(Prime(), r.x, r.z);
  }

  lemma QuotientTimes(p: Modulus, x: int, z: int)
    requires p >= 2 && Pow(z, p - 1) % p == 1 % p
    ensures Cong(p, x * (Pow(z, p - 2) % p) % p * z, x)
  {
    var inv := Pow(z, p - 2);
    CongMod(p, inv);
    CongProduct(p, x, x, inv % p, inv);
    CongMul(p, x * (inv % p) % p, x * inv, z, z);
    assert Pow(z, p - 1) == z * inv;
    assert x * inv * z == x * (z * inv);
    CongMul(p, x, x, z * inv, 1);
  }

  // ---------- what the ladder multiplies by ----------

  /** A reading of points as multiples of the base: doubling doubles, and adding neighbours adds. */
  ghost predicate Tracks(m: Modulus, x1: int, stands: (Point, int) -> bool) {
    && (forall p, n: nat {:trigger Double(m, p), stands(p, n)} :: stands(p, n) ==> stands(Double(m, p), 2 * n))
    && (forall p, q, n: nat {:trigger Add(m, x1, p, q), stands(p, n)} ::
          stands(p, n) && stands(q, n + 1) ==> stands(Add(m, x1, p, q), 2 * n + 1))
    && stands(Point(1, 0), 0)
    && stands(Point(x1, 1), 1)
  }

  lemma DivPow2(k: nat, t: nat)
    ensures k / Pow2(t) == 2 * (k / Pow2(t + 1)) + Bit(k, t)
  {
    DivTwice(k, Pow2(t));
  }

  lemma DivTwice(k: nat, p: nat)
    requires p > 0
    ensures k / p == 2 * (k / (2 * p)) + k / p % 2
  {
    var n, r := k / p, k % p;
    Regroup(p, n / 2, n % 2);
    assert k == p * n + r;
    DivUnique(k, 2 * p, n / 2, p * (n % 2) + r);
  }

  lemma Regroup(p: nat, h: nat, b: nat)
    requires b <= 1
    ensures p * (2 * h + b) == 2 * p * h + p * b
    ensures p * b <= p
  {
  }

  lemma DivSmall(k: nat, p: nat)
    requires k < p
    ensures k / p == 0
  {
  }

  ghost predicate StandFor(s: Pair, n: int, stands: (Point, int) -> bool) {
    stands(s.lo, n) && stands(s.hi, n + 1)
  }

  /** The bits of k from 254 down to t, read as a number. */
  function Prefix(k: nat, t: nat): nat
    requires t <= 255
    decreases 255 - t
  {
    if t == 255 then 0 else 2 * Prefix(k, t + 1) + Bit(k, t)
  }

  lemma {:induction false} PrefixIsQuotient(k: nat, t: nat)
    requires k < Pow2(255) && t <= 255
    ensures Prefix(k, t) == k / Pow2(t)
    decreases 255 - t
  {
    if t == 255 {
      DivSmall(k, Pow2(t));
    } else {
      PrefixIsQuotient(k, t + 1);
      DivPow2(k, t);
    }
  }

  /** At every bit the pair stands for (n, n + 1), n being the bits read so far. */
  lemma {:induction false} LadderInvariant(m: Modulus, x1: int, k: nat, t: nat, stands: (Point, int) -> bool)
    requires t <= 255 && Tracks(m, x1, stands)
    ensures StandFor(Branching(m, x1, k, t), Prefix(k, t), stands)
    decreases 255 - t
  {
    if t < 255 {
      LadderInvariant(m, x1, k, t + 1, stands);
      BitIsBinary(k, t);
      StepTracks(m, x1, Branching(m, x1, k, t + 1), Prefix(k, t + 1), Bit(k, t), stands);
    }
  }

  lemma StepTracks(m: Modulus, x1: int, s: Pair, n: nat, bit: nat, stands: (Point, int) -> bool)
    requires Tracks(m, x1, stands) && bit <= 1 && StandFor(s, n, stands)
    ensures StandFor(BranchStep(m, x1, s, bit), 2 * n + bit, stands)
  {
  }

  /** The ladder multiplies by k, for every scalar below 2^255. */
  lemma LadderMultipliesByScalar(m: Modulus, x1: int, k: nat, stands: (Point, int) -> bool)
    requires k < Pow2(255) && Tracks(m, x1, stands)
    ensures stands(Branching(m, x1, k, 0).lo, k)
  {
    LadderInvariant(m, x1, k, 0, stands);
    PrefixIsQuotient(k, 0);
    DivUnique(k, Pow2(0), k, 0);
  }

  // ---------- clamped keys ----------

  /** int.from_bytes(b, "little") */
  function LittleEndian(b: seq<byte>): nat
  {
    if b == [] then 0 else b[0] + 256 * LittleEndian(b[1..])
  }

  /** 256^n */
  function Weight(n: nat): (r: nat)
    ensures r >= 1
  {
    if n == 0 then 1 else 256 * Weight(n - 1)
  }

  lemma {:induction false} WeightIsPow2(n: nat)
    ensures Weight(n) == Pow2(8 * n)
  {
    if n > 0 {
      WeightIsPow2(n - 1);
      EightMore(8 * (n - 1));
    }
  }

  lemma EightMore(n: nat)
    ensures Pow2(n + 7) == 128 * Pow2(n)
    ensures Pow2(n + 8) == 256 * Pow2(n)
  {
    var a, b := Pow2(n + 2), Pow2(n + 4);
    assert Pow2(n + 1) == 2 * Pow2(n);
    assert a == 2 * Pow2(n + 1);
    assert Pow2(n + 3) == 2 * a;
    assert b == 2 * Pow2(n + 3);
    assert Pow2(n + 5) == 2 * b;
    assert Pow2(n + 6) == 2 * Pow2(n + 5);
    assert Pow2(n + 7) == 2 * Pow2(n + 6);
  }

  lemma {:induction false} LittleEndianBound(b: seq<byte>)
    ensures LittleEndian(b) < Weight(|b|)
  {
    if b != [] { LittleEndianBound(b[1..]); }
  }

  /** The three assignments of `gen_wg_keypair`. */
  method Clamp(priv: array<bv8>)
    requires priv.Length == 32
    modifies priv
    ensures priv[..] == Clamped(old(priv[..]))
  {
    priv[0] := priv[0] & 248;
    priv[31] := priv[31] & 127;
    priv[31] := priv[31] | 64;
  }

  function Clamped(b: seq<bv8>): (r: seq<bv8>)
    requires |b| == 32
    ensures |r| == 32
  {
    b[0 := b[0] & 248][31 := (b[31] & 127) | 64]
  }

  function Bytes(b: seq<bv8>): (r: seq<byte>)
    ensures |r| == |b| && forall i :: 0 <= i < |b| ==> r[i] == b[i] as int
  {
    seq(|b|, i requires 0 <= i < |b| => b[i] as int)
  }

  lemma LowMask(v: bv8)
    ensures (v & 248) as int == v as int - v as int % 8
  {
  }

  lemma TopMask(v: bv8)
    ensures ((v & 127) | 64) as int == 64 + v as int % 64
  {
  }

  /** Splitting the top byte off. */
  lemma {:induction false} LittleEndianTop(b: seq<byte>)
    requires |b| >= 1
    ensures LittleEndian(b) == LittleEndian(b[..|b| - 1]) + b[|b| - 1] * Weight(|b| - 1)
  {
    var n := |b| - 1;
    if n > 0 {
      LittleEndianTop(b[1..]);
      assert b[1..][..n - 1] == b[..n][1..];
      Scale(b[n], Weight(n - 1));
    }
  }

  lemma Scale(a: int, w: int)
    ensures 256 * (a * w) == a * (256 * w)
  {
  }

  lemma TopByteRange(low: nat, top: nat, w: nat)
    requires low < w && 64 <= top < 128
    ensures 64 * w <= low + top * w < 128 * w
  {
  }

  lemma TopBitPlace(c: seq<byte>, n: nat)
    requires |c| == n + 1 && 64 <= c[n] < 128
    ensures Pow2(8 * n + 6) <= LittleEndian(c) < Pow2(8 * n + 7)
  {
    LittleEndianTop(c);
    LittleEndianBound(c[..n]);
    WeightIsPow2(n);
    EightMore(8 * n);
    TopByteRange(LittleEndian(c[..n]), c[n], Weight(n));
    assert Pow2(8 * n + 7) == 2 * Pow2(8 * n + 6);
  }

  lemma LowBits(c: seq<byte>)
    requires c != [] && c[0] % 8 == 0
    ensures LittleEndian(c) % 8 == 0
  {
  }

  /** The clamp changes the low three bits and the top two, and nothing else. */
  lemma ClampedBits(b: seq<bv8>)
    requires |b| == 32
    ensures var c := Bytes(Clamped(b));
            && (forall i :: 1 <= i < 31 ==> c[i] == Bytes(b)[i])
            && c[0] % 8 == 0 && c[0] / 8 == Bytes(b)[0] / 8
            && 64 <= c[31] < 128 && c[31] % 64 == Bytes(b)[31] % 64
  {
    LowMask(b[0]);
    TopMask(b[31]);
  }

  /** Every generated private key lies in the range the ladder is proved for, is a multiple of 8, and has
      its top bit at position 254. */
  lemma ClampedRange(b: seq<bv8>)
    requires |b| == 32
    ensures Pow2(254) <= LittleEndian(Bytes(Clamped(b))) < Pow2(255)
    ensures LittleEndian(Bytes(Clamped(b))) % 8 == 0
  {
    ClampedBits(b);
    TopBitPlace(Bytes(Clamped(b)), 31);
    LowBits(Bytes(Clamped(b)));
  }
}
