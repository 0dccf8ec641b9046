/** The 128-bit helpers and the fixed-point clock conversion, on 64-bit words that wrap around. */
module Uint128 {
  import opened Arithmetic

  const W := 0x1_0000_0000_0000_0000
  const HALF := 0x1_0000_0000

  type u64 = x: int | 0 <= x < 0x1_0000_0000_0000_0000
  type u32 = x: int | 0 <= x < 0x1_0000_0000

  // ---- MultiplyHigh ----

  /** The fallback from the four products of 32-bit halves. */
  function MultiplyHigh(a: u64, b: u64): u64 {
    var aLo, aHi := a % HALF, a / HALF;
    var bLo, bHi := b % HALF, b / HALF;
    Assembled(aHi * bHi, aHi * bLo, bHi * aLo, aLo * bLo)
  }

  // The products are words, and so are all sums of them and of their halves.
  function Assembled(high: int, mid: int, other: int, low: int): u64 {
    var p, q, r, s := high % W, mid % W, other % W, low % W;
    var carry := ((q % HALF + r % HALF) % W + s / HALF) % W / HALF;
    (((p + q / HALF) % W + r / HALF) % W + carry) % W
  }

  lemma SmallProduct(x: int, y: int)
    requires 0 <= x < HALF && 0 <= y < HALF
    ensures 0 <= x * y <= (HALF - 1) * (HALF - 1)
  {
    ProductMonotone(x, HALF - 1, y, HALF - 1);
  }

  lemma ProductMonotone(x: int, x1: int, y: int, y1: int)
    requires 0 <= x <= x1 && 0 <= y <= y1
    ensures 0 <= x * y <= x1 * y1
  {
    assert x * y <= x * y1;
    assert x * y1 <= x1 * y1;
  }

  lemma Expand(aHi: int, aLo: int, bHi: int, bLo: int)
    ensures (HALF * aHi + aLo) * (HALF * bHi + bLo)
         == W * (aHi * bHi) + HALF * (aHi * bLo) + HALF * (bHi * aLo) + aLo * bLo
  {
    assert HALF * HALF == W;
    assert (HALF * aHi) * (HALF * bHi) == (HALF * HALF) * (aHi * bHi);
    assert (HALF * aHi) * bLo == HALF * (aHi * bLo);
    assert aLo * (HALF * bHi) == HALF * (bHi * aLo);
  }

  /** MultiplyHigh is the upper half of the 128-bit product, for all words. */
  lemma MultiplyHighIs(a: u64, b: u64)
    ensures MultiplyHigh(a, b) == a * b / W
  {
    hide Assembled;
    HighIs(a, b, a % HALF, a / HALF, b % HALF, b / HALF);
  }

  lemma HighIs(a: int, b: int, aLo: int, aHi: int, bLo: int, bHi: int)
    requires 0 <= aLo < HALF && 0 <= aHi < HALF && 0 <= bLo < HALF && 0 <= bHi < HALF
    requires a == HALF * aHi + aLo && b == HALF * bHi + bLo
    ensures Assembled(aHi * bHi, aHi * bLo, bHi * aLo, aLo * bLo) == a * b / W
  {
    hide Assembled;
    SmallProduct(aHi, bHi);
    SmallProduct(aHi, bLo);
    SmallProduct(bHi, aLo);
    SmallProduct(aLo, bLo);
    Expand(aHi, aLo, bHi, bLo);
    HighPart(a * b, aHi * bHi, aHi * bLo, bHi * aLo, aLo * bLo);
  }

  lemma HighPart(ab: int, p: int, q: int, r: int, s: int)
    requires ab == W * p + HALF * q + HALF * r + s
    requires 0 <= p <= (HALF - 1) * (HALF - 1) && 0 <= q <= (HALF - 1) * (HALF - 1)
    requires 0 <= r <= (HALF - 1) * (HALF - 1) && 0 <= s <= (HALF - 1) * (HALF - 1)
    ensures Assembled(p, q, r, s) == ab / W
  {
    Halves(q);
    Halves(r);
    Halves(s);
    SmallMod(p);
    SmallMod(q);
    SmallMod(r);
    SmallMod(s);
    var middle := q % HALF + r % HALF + s / HALF;
    SmallMod(q % HALF + r % HALF);
    SmallMod(middle);
    Halves(middle);
    var high := p + q / HALF + r / HALF + middle / HALF;
    HighSum(ab, p, q, r, s, middle, high);
    SmallMod(p + q / HALF);
    SmallMod(p + q / HALF + r / HALF);
    SmallMod(high);
  }

  lemma HighSum(ab: int, p: int, q: int, r: int, s: int, middle: int, high: int)
    requires ab == W * p + HALF * q + HALF * r + s && middle == q % HALF + r % HALF + s / HALF
    requires high == p + q / HALF + r / HALF + middle / HALF
    ensures ab / W == high
  {
    Halves(q);
    Halves(r);
    Halves(s);
    Halves(middle);
    assert ab == W * high + (HALF * (middle % HALF) + s % HALF);
    DivUnique(ab, W, high, HALF * (middle % HALF) + s % HALF);
  }

  lemma Halves(x: int)
    ensures x == HALF * (x / HALF) + x % HALF && 0 <= x % HALF < HALF
  {
  }

  lemma SmallMod(x: int)
    ensures 0 <= x < W ==> x % W == x
  {
  }

  // ---- Divide128On32 ----

  /** The quotient of a 128-bit number on 64 bits, and the exact remainder. */
  method Divide128On32(lo: u64, hi: u64, divisor: u32) returns (accum: u64, remainder: u64)
    requires divisor > 0
    ensures accum == (W * hi + lo) / divisor % W
    ensures remainder == (W * hi + lo) % divisor
  {
    var d: int := divisor;
    remainder := lo % d;
    accum := lo / d;
    if hi == 0 {
      return;
    }
    var firstSegment: u64 := hi % d * HALF;
    SegmentSmall(firstSegment, hi % d, d);
    ghost var q1 := lo / d + firstSegment / d * HALF;
    accum := (accum + firstSegment / d * HALF) % W;
    var secondSegment: u64 := firstSegment % d * HALF;
    ghost var q2 := q1 + secondSegment / d;
    AddMod(q1, secondSegment / d);
    accum := (accum + secondSegment / d) % W;
    remainder := remainder + secondSegment % d;
    Segments(lo, hi, d, firstSegment, secondSegment);
    if remainder >= d {
      AddMod(q2, 1);
      accum := (accum + 1) % W;
      remainder := remainder - d;
      NextQuotient(d, q2);
      Quotient(lo, hi, d, q2 + 1, remainder);
    } else {
      Quotient(lo, hi, d, q2, remainder);
    }
  }

  lemma AddMod(x: int, y: int)
    ensures (x % W + y) % W == (x + y) % W
  {
  }

  lemma NextQuotient(d: int, q: int)
    ensures d * (q + 1) == d * q + d
  {
  }

  lemma SegmentSmall(first: int, h: int, d: int)
    requires 0 <= h < d < HALF && first == h * HALF
    ensures 0 <= first / d < HALF
  {
    DivBounds(first, d);
    MultipleLarge(d, first / d - HALF + 1);
  }

  // The dividend less whole multiples of 2^64 * divisor, taken apart segment by segment.
  lemma Segments(lo: int, hi: int, d: int, first: int, second: int)
    requires 0 < d && first == hi % d * HALF && second == first % d * HALF
    ensures W * (hi % d) + lo == d * (lo / d + first / d * HALF + second / d) + lo % d + second % d
  {
    DivBounds(lo, d);
    DivBounds(first, d);
    DivBounds(second, d);
    var f, g := first / d, second / d;
    assert W * (hi % d) == first * HALF;
    assert (d * f) * HALF == d * (f * HALF);
    assert d * (lo / d + f * HALF + g) == d * (lo / d) + d * (f * HALF) + d * g;
  }

  lemma Quotient(lo: int, hi: int, d: int, q: int, r: int)
    requires 0 < d && 0 <= r < d && W * (hi % d) + lo == d * q + r
    ensures (W * hi + lo) / d % W == q % W && (W * hi + lo) % d == r
  {
    var k := hi / d;
    DivBounds(hi, d);
    assert W * (d * k) == d * (W * k);
    assert W * hi + lo == d * (W * k + q) + r by {
      assert W * hi == W * (d * k) + W * (hi % d);
    }
    DivUnique(W * hi + lo, d, W * k + q, r);
    assert (W * k + q) % W == q % W;
  }

  // ---- MultiplyAndDivide64 ----

  function MultiplyAndDivide64(a: u64, b: u64, d: u64): u64
    requires d > 0
  {
    var diva, moda := a / d, a % d;
    var divb, modb := b / d, b % d;
    ((diva * b % W + moda * divb % W) % W + moda * modb % W / d) % W
  }

  lemma ExactQuotient(a: int, b: int, d: int)
    requires d > 0 && a >= 0 && b >= 0
    ensures a * b / d == a / d * b + a % d * (b / d) + a % d * (b % d) / d
  {
    var qa, ra, qb, rb := a / d, a % d, b / d, b % d;
    DivBounds(a, d);
    DivBounds(b, d);
    DivBounds(ra * rb, d);
    assert a * b == (d * qa) * b + ra * b;
    assert (d * qa) * b == d * (qa * b);
    assert ra * b == ra * (d * qb) + ra * rb;
    assert ra * (d * qb) == d * (ra * qb);
    var q := qa * b + ra * qb + ra * rb / d;
    assert d * q == d * (qa * b) + d * (ra * qb) + d * (ra * rb / d);
    DivUnique(a * b, d, q, ra * rb % d);
  }

  lemma SumWraps(x: int, y: int, z: int)
    ensures ((x % W + y % W) % W + z) % W == (x + y + z) % W
  {
  }

  /** MultiplyAndDivide64 gives the quotient modulo 2^64 exactly when the product of the two residues fits a word. */
  lemma MultiplyAndDivideIff(a: u64, b: u64, d: u64)
    requires d > 0
    ensures MultiplyAndDivide64(a, b, d) == a * b / d % W <==> a % d * (b % d) < W
  {
    var x, y, m := a / d * b, a % d * (b / d), a % d * (b % d);
    ExactQuotient(a, b, d);
    SumWraps(x, y, m % W / d);
    assert MultiplyAndDivide64(a, b, d) == (x + y + m % W / d) % W;
    ResiduesDecide(x + y, m, d, a % d, b % d);
  }

  lemma ResiduesDecide(s: int, m: int, d: int, ra: int, rb: int)
    requires 0 < d < W && 0 <= ra < d && 0 <= rb < d && m == ra * rb
    ensures (s + m % W / d) % W == (s + m / d) % W <==> m < W
  {
    ProductMonotone(ra, ra, rb, rb);
    SmallMod(m);
    if m >= W {
      LostProduct(m, d, ra, rb);
      DifferentModW(s, m / d, m % W / d);
    }
  }

  /** When the quotient fits a word too, the result is the quotient itself. */
  lemma MultiplyAndDivideExact(a: u64, b: u64, d: u64)
    requires d > 0 && a % d * (b % d) < W && a * b / d < W
    ensures MultiplyAndDivide64(a, b, d) == a * b / d
  {
    hide MultiplyAndDivide64;
    MultiplyAndDivideIff(a, b, d);
    QuotientNotNegative(a, b, d);
  }

  lemma QuotientNotNegative(a: u64, b: u64, d: u64)
    requires d > 0
    ensures a * b / d >= 0
  {
    ProductMonotone(a, W, b, W);
    DivBounds(a * b, d);
    MultipleLarge(d, a * b / d);
  }

  // A product of residues that does not fit loses at least one and less than 2^64 of its quotient.
  lemma LostProduct(m: int, d: int, ra: int, rb: int)
    requires 0 < d < W && 0 <= ra < d && 0 <= rb < d && m == ra * rb && m >= W
    ensures 1 <= m / d - m % W / d < W
  {
    var k, low := m / W, m % W;
    DivBounds(m, d);
    DivBounds(low, d);
    assert k >= 1;
    ProductMonotone(ra, d - 1, rb, d - 1);
    assert (d - 1) * (d - 1) < d * d;
    var gap := m / d - low / d;
    assert d * gap == d * (m / d) - d * (low / d);
    assert d * gap > m - d - low && m - low >= W > d;
    assert d * gap > 0;
    MultipleLarge(d, gap);
    MultipleLarge(d, m / d - d);
    assert low / d >= 0 by {
      MultipleLarge(d, low / d);
    }
    assert d * (m / d - d) == d * (m / d) - d * d;
  }

  lemma DifferentModW(s: int, big: int, small: int)
    requires 1 <= big - small < W
    ensures (s + big) % W != (s + small) % W
  {
  }

  // ---- the clock ----

  /** GetFixedPoint64Factor truncates the 128-bit quotient to a word. */
  function GetFixedPoint64Factor(numerator: u64, divisor: u64): u64
    requires divisor > 0
  {
    numerator * W / divisor % W
  }

  // GetTimeNS, GetTimeUS and GetTimeMS, with the counter as an input and the unit as the factor.
  function GetTime(uptime: u64, base: u64, factor: u64): u64 {
    MultiplyHigh((uptime + W - base) % W, factor)
  }

  function Converted(ticks: u64, num: u64, freq: u64): u64
    requires freq > 0
  {
    GetTime(ticks, 0, GetFixedPoint64Factor(num, freq))
  }

  lemma ConvertedIs(t: u64, num: u64, freq: u64)
    requires freq > 0
    ensures Converted(t, num, freq) == t * GetFixedPoint64Factor(num, freq) / W
  {
    hide MultiplyHigh, GetFixedPoint64Factor;
    WholeTurn(t);
    MultiplyHighIs(t, GetFixedPoint64Factor(num, freq));
  }

  lemma WholeTurn(t: u64)
    ensures (t + W - 0) % W == t
  {
  }

  // The counter since the base, as long as it is not behind it.
  lemma SinceBase(uptime: u64, base: u64, num: u64, freq: u64)
    requires base <= uptime && freq > 0
    ensures GetTime(uptime, base, GetFixedPoint64Factor(num, freq)) == Converted(uptime - base, num, freq)
  {
    hide MultiplyHigh, GetFixedPoint64Factor;
    WholeTurn(uptime - base);
    Elapsed(uptime, base);
  }

  lemma Elapsed(uptime: u64, base: u64)
    requires base <= uptime
    ensures (uptime + W - base) % W == uptime - base
  {
  }

  /** A later counter never gives an earlier time, whatever base the time is taken from. */
  lemma ClockMonotone(t: u64, u: u64, base: u64, num: u64, freq: u64)
    requires base <= t <= u && freq > 0
    ensures var f := GetFixedPoint64Factor(num, freq); GetTime(t, base, f) <= GetTime(u, base, f)
  {
    hide Converted, GetFixedPoint64Factor, GetTime;
    SinceBase(t, base, num, freq);
    SinceBase(u, base, num, freq);
    ConvertedMonotone(t - base, u - base, num, freq);
  }

  lemma ConvertedMonotone(t: u64, u: u64, num: u64, freq: u64)
    requires t <= u && freq > 0
    ensures Converted(t, num, freq) <= Converted(u, num, freq)
  {
    hide Converted, GetFixedPoint64Factor;
    var f: int := GetFixedPoint64Factor(num, freq);
    ConvertedIs(t, num, freq);
    ConvertedIs(u, num, freq);
    ProductMonotone(t, u, f, f);
    DivMonotone(t * f, u * f);
  }

  lemma DivMonotone(a: int, b: int)
    requires a <= b
    ensures a / W <= b / W
  {
  }

  // The time is at most one below the exact conversion, and never above it.
  predicate WithinOne(t: u64, num: u64, freq: u64)
    requires freq > 0
  {
    Converted(t, num, freq) <= t * num / freq <= Converted(t, num, freq) + 1
  }

  lemma SmallFactor(num: u64, freq: u64)
    requires num < freq
    ensures num * W / freq < W
  {
    DivBounds(num * W, freq);
    assert num * W <= (freq - 1) * W;
    MultipleLarge(freq, num * W / freq - W);
    assert freq * (num * W / freq - W) == freq * (num * W / freq) - freq * W;
  }

  lemma NeverAbove(t: int, f: int, num: int, freq: int, r: int)
    requires t >= 0 && freq > 0 && freq * f <= num * W && W * r <= t * f
    ensures r <= t * num / freq
  {
    assert t * (freq * f) <= t * (num * W);
    assert freq * (W * r) <= freq * (t * f);
    assert freq * (t * f) == t * (freq * f);
    assert W * (freq * r) <= W * (t * num) by {
      assert freq * (W * r) == W * (freq * r);
      assert t * (num * W) == W * (t * num);
    }
    DivBounds(t * num, freq);
    MultipleLarge(freq, r - t * num / freq);
    assert freq * (r - t * num / freq) == freq * r - freq * (t * num / freq);
  }

  lemma AtMostOneBelow(t: int, f: int, num: int, freq: int, r: int)
    requires 0 <= t < W && freq > 0 && num * W < freq * f + freq && t * f < W * r + W
    ensures t * num / freq <= r + 1
  {
    var q := t * num / freq;
    DivBounds(t * num, freq);
    assert t * (num * W) <= t * (freq * f + freq);
    assert t * (freq * f + freq) == freq * (t * f + t);
    assert t * f + t < W * r + W + W;
    assert freq * (t * f + t) < freq * (W * (r + 2)) by {
      FactorLess(freq, t * f + t, W * (r + 2));
    }
    assert freq * (W * (r + 2)) == W * (freq * (r + 2));
    assert t * (num * W) == W * (t * num);
    assert t * num < freq * (r + 2);
    MultipleLarge(freq, q - (r + 1));
    assert freq * (q - (r + 1)) == freq * q - freq * (r + 1);
    assert freq * (r + 2) == freq * (r + 1) + freq;
  }

  lemma FactorLess(c: int, x: int, y: int)
    requires c > 0 && x < y
    ensures c * x < c * y
  {
  }

  lemma FactorIs(num: u64, freq: u64)
    requires num < freq
    ensures GetFixedPoint64Factor(num, freq) == num * W / freq
  {
    var f := num * W / freq;
    SmallFactor(num, freq);
    DivBounds(num * W, freq);
    MultipleLarge(freq, f);
    SmallMod(f);
  }

  lemma SlowUnitWithinOne(t: u64, num: u64, freq: u64)
    requires num < freq
    ensures WithinOne(t, num, freq)
  {
    hide Converted, GetFixedPoint64Factor;
    ConvertedIs(t, num, freq);
    FactorIs(num, freq);
    ExactWithinOne(t, num, freq, num * W / freq);
  }

  lemma ExactWithinOne(t: int, num: int, freq: int, f: int)
    requires 0 <= t < W && freq > 0 && f == num * W / freq
    ensures t * f / W <= t * num / freq <= t * f / W + 1
  {
    DivBounds(num * W, freq);
    DivBounds(t * f, W);
    NeverAbove(t, f, num, freq, t * f / W);
    AtMostOneBelow(t, f, num, freq, t * f / W);
  }

  // A unit at least as fine as the counter is far off at the highest counter value.
  lemma FastUnitOff(num: u64, freq: u64)
    requires 0 < freq <= num
    ensures !WithinOne(W - 1, num, freq)
  {
    hide Converted;
    ConvertedIs(W - 1, num, freq);
    var f: int := GetFixedPoint64Factor(num, freq);
    hide GetFixedPoint64Factor;
    if num == freq {
      SameUnitZero(num);
      SameUnitExact(freq);
    } else {
      FasterQuotient(W - 1, num, freq);
      LowTime(f);
    }
  }

  lemma SameUnitZero(num: u64)
    requires num > 0
    ensures GetFixedPoint64Factor(num, num) == 0
  {
    DivUnique(num * W, num, W, 0);
  }

  lemma SameUnitExact(freq: int)
    requires freq > 0
    ensures (W - 1) * freq / freq == W - 1
  {
    DivUnique((W - 1) * freq, freq, W - 1, 0);
  }

  lemma LowTime(f: int)
    requires 0 <= f < W
    ensures (W - 1) * f / W <= W - 2
  {
    DivMonotone((W - 1) * f, (W - 1) * (W - 1));
    DivUnique((W - 1) * (W - 1), W, W - 2, 1);
  }

  lemma FasterQuotient(t: int, num: int, freq: int)
    requires t == W - 1 && 0 < freq < W && freq < num
    ensures t * num / freq >= W
  {
    var q := t * num / freq;
    DivBounds(t * num, freq);
    ProductMonotone(t, t, freq + 1, num);
    assert t * (freq + 1) == freq * t + t;
    assert freq * (t + 1 - q) == freq * t + freq - freq * q;
    MultipleLarge(freq, t + 1 - q);
  }

  // The time since the base is at most one below the exact conversion of the ticks since then, and never above it.
  predicate SinceWithinOne(uptime: u64, base: u64, num: u64, freq: u64)
    requires base <= uptime && freq > 0
  {
    var r, exact := GetTime(uptime, base, GetFixedPoint64Factor(num, freq)), (uptime - base) * num / freq;
    r <= exact <= r + 1
  }

  /** The time is within one of the exact value at every counter value and base before it if and only if the unit is
      coarser than the counter. */
  lemma ClockExactIff(num: u64, freq: u64)
    requires freq > 0
    ensures (forall t: u64, base: u64 :: base <= t ==> SinceWithinOne(t, base, num, freq)) <==> num < freq
  {
    hide Converted, GetTime;
    if num < freq {
      forall t: u64, base: u64 | base <= t
        ensures SinceWithinOne(t, base, num, freq)
      {
        SinceBase(t, base, num, freq);
        SlowUnitWithinOne(t - base, num, freq);
      }
    } else {
      FastUnitOff(num, freq);
      var last: u64, zero: u64 := W - 1, 0;
      SinceBase(last, zero, num, freq);
      assert !SinceWithinOne(last, zero, num, freq);
    }
  }

  /** A counter at exactly one gigahertz: the nanosecond factor is zero and the clock stands still. */
  lemma GigahertzStandsStill(uptime: u64, base: u64)
    ensures GetTime(uptime, base, GetFixedPoint64Factor(1_000_000_000, 1_000_000_000)) == 0
  {
    DivUnique(1_000_000_000 * W, 1_000_000_000, W, 0);
    MultiplyHighIs((uptime + W - base) % W, 0);
  }
}
