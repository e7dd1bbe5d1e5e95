/** Decimal arithmetic on unscaled integers in storage of 16, 32, 64 or 128 bits: the type of the result, the casts to
    it, overflow checks that do not overflow themselves, and rounding with a remainder that takes the sign of the
    dividend. */
module Decimals {
  import opened Basics

  const DECIMAL_PRECISION_LIMIT: int := 38

  datatype Params = Params(precision: nat, scale: nat)

  predicate ValidParams(p: Params) {
    1 <= p.precision <= DECIMAL_PRECISION_LIMIT && p.scale <= p.precision
  }

  /** A value, the overflow error, or what the language leaves undefined. */
  datatype Outcome = Done(value: int) | Refused | Undefined

  function Pow10(n: nat): (r: int)
    ensures r > 0
  {
    if n == 0 then 1 else 10 * Pow10(n - 1)
  }

  /** A value of so many digits. */
  predicate Fits(x: int, precision: nat) {
    -Pow10(precision) < x < Pow10(precision)
  }

  // ----- storage

  /** The most digits that the storage of a precision is used for. */
  function StorageDigits(precision: nat): nat {
    if precision <= 4 then 4 else if precision <= 9 then 9 else if precision <= 18 then 18 else 38
  }

  /** Half the number of values of the storage: 2^15, 2^31, 2^63 or 2^127. */
  function Half(precision: nat): int {
    if precision <= 4 then 0x8000
    else if precision <= 9 then 0x8000_0000
    else if precision <= 18 then 0x8000_0000_0000_0000
    else 0x8000_0000_0000_0000_0000_0000_0000_0000
  }

  predicate Stored(v: int, precision: nat) {
    -Half(precision) <= v < Half(precision)
  }

  /** Conversion to the storage keeps the low bits. */
  function Narrow(v: int, precision: nat): int {
    (v + Half(precision)) % (2 * Half(precision)) - Half(precision)
  }

  /** What arithmetic at a precision can hold: 16 bits compute in 32, and 128 bits do not reach their least value. */
  predicate Computed(v: int, precision: nat) {
    var h := Half(if precision <= 4 then 9 else precision);
    -h <= v < h && (precision > 18 ==> -h < v)
  }

  /** Beyond that, 128-bit arithmetic throws, and that of the language is undefined. */
  function Overflowed(precision: nat): Outcome {
    if precision > 18 then Refused else Undefined
  }

  /** The check at the end of a kernel: only values of the precision pass. */
  function Check(v: int, precision: nat): Outcome {
    if Pow10(precision) <= v || -Pow10(precision) >= v then Refused else Done(v)
  }

  lemma NarrowKeeps(v: int, precision: nat)
    requires Stored(v, precision)
    ensures Narrow(v, precision) == v
  {
  }

  lemma NarrowWraps(v: int, precision: nat)
    requires Half(precision) <= v < 3 * Half(precision)
    ensures Narrow(v, precision) == v - 2 * Half(precision)
    ensures Narrow(-v, precision) == if v == Half(precision) then -v else 2 * Half(precision) - v
  {
  }

  lemma {:induction false} PowMono(m: nat, n: nat)
    requires m <= n
    ensures Pow10(m) <= Pow10(n)
  {
    if m < n { PowMono(m, n - 1); }
  }

  lemma Powers()
    ensures Pow10(4) == 10_000 && Pow10(5) == 100_000 && Pow10(9) == 1_000_000_000 && Pow10(10) == 10_000_000_000
    ensures Pow10(18) == 1_000_000_000_000_000_000 && Pow10(19) == 10 * Pow10(18) && Pow10(20) == 100 * Pow10(18)
    ensures Pow10(38) == 100_000_000_000_000_000_000_000_000_000_000_000_000
  {
    PowAdd(9, 9);
    PowAdd(18, 20);
  }

  /** The storage holds one and a half times the bound of its digits, on both sides, and cannot hold a digit more. */
  lemma StorageHolds(precision: nat)
    requires precision <= 38
    ensures 2 * Half(precision) > 3 * Pow10(StorageDigits(precision))
    ensures Pow10(precision) <= Pow10(StorageDigits(precision))
    ensures precision <= 18 ==> 2 * Half(precision) < Pow10(StorageDigits(precision) + (if precision > 9 then 2 else 1))
  {
    Powers();
    PowMono(precision, StorageDigits(precision));
  }

  // ----- products and quotients

  lemma MulMono(x: int, y: int, z: int)
    requires x <= y && 0 <= z
    ensures x * z <= y * z
  {
  }

  lemma {:induction false} PowAdd(m: nat, n: nat)
    ensures Pow10(m + n) == Pow10(m) * Pow10(n)
  {
    if m > 0 {
      PowAdd(m - 1, n);
      MulAssoc(10, Pow10(m - 1), Pow10(n));
    }
  }

  lemma MulAssoc(x: int, y: int, z: int)
    ensures x * (y * z) == (x * y) * z
  {
  }

  lemma MulNeg(d: int, q: int)
    ensures d * (-q) == -(d * q)
  {
  }

  lemma ProductBound(x: int, y: int, m: int, n: int)
    requires -m < x < m && -n < y < n
    ensures -(m * n) < x * y < m * n
  {
    var a, b := if x < 0 then -x else x, if y < 0 then -y else y;
    MulMono(a, m, b);
    MulMono(b, n - 1, m);
    assert (n - 1) * m == n * m - m;
    MulMono(0, a, b);
    MulNeg(x, y);
    MulNeg(y, x);
    MulNeg(-x, y);
  }

  lemma TruncParts(x: int, d: int)
    requires d > 0
    ensures x == d * TruncDiv(x, d) + TruncMod(x, d)
    ensures x >= 0 ==> TruncMod(x, d) >= 0
    ensures x <= 0 ==> TruncMod(x, d) <= 0
  {
    if x < 0 {
      Euclid(-x, d);
      MulNeg(d, (-x) / d);
    } else {
      Euclid(x, d);
    }
  }

  lemma Euclid(x: nat, d: int)
    requires d > 0
    ensures x == d * (x / d) + x % d
  {
  }

  lemma QuotientIs(x: int, d: int, q: int)
    requires d > 0 && x == d * q
    ensures TruncDiv(x, d) == q
  {
    TruncParts(x, d);
    var k := q - TruncDiv(x, d);
    assert d * k == d * q - d * TruncDiv(x, d);
    if k >= 1 { MulMono(1, k, d); }
    if k <= -1 { MulMono(k, -1, d); }
  }

  // ----- casts between decimals

  /** What is divided when digits are dropped: half a unit further from zero. */
  function Biased(x: int, dropped: nat): int
    requires dropped > 0
  {
    Pow10(dropped - 1) * (if x < 0 then -5 else 5) + x
  }

  /** The unscaled value at another scale. */
  function Rescale(x: int, from: nat, to: nat): int {
    if from == to then x
    else if from < to then Pow10(to - from) * x
    else TruncDiv(Biased(x, from - to), Pow10(from - to))
  }

  /** Computed in the wider of the two storages, narrowed to the target's, and checked after that. */
  function Cast(x: int, from: Params, to: Params): Outcome {
    var wide := Max(from.precision, to.precision);
    if from.scale < to.scale && !Computed(Rescale(x, from.scale, to.scale), wide) then Overflowed(wide)
    else if from.scale > to.scale && !Computed(Biased(x, from.scale - to.scale), wide) then Overflowed(wide)
    else Check(Narrow(Rescale(x, from.scale, to.scale), to.precision), to.precision)
  }

  /** Digits that are dropped round to the nearest, and a tie away from zero. */
  lemma RescaleRounds(x: int, from: nat, to: nat)
    requires from > to
    ensures var d, r := Pow10(from - to), Rescale(x, from, to);
            && -d <= 2 * (x - d * r) <= d
            && (2 * (x - d * r) == d ==> x < 0) && (2 * (x - d * r) == -d ==> x > 0)
  {
    assert Pow10(from - to) == 10 * Pow10(from - to - 1);
    TruncParts(Biased(x, from - to), Pow10(from - to));
  }

  /** The cast does what it should: the rescaled value, or the error exactly when that does not fit. */
  predicate CastRight(x: int, from: Params, to: Params) {
    Cast(x, from, to) == Check(Rescale(x, from.scale, to.scale), to.precision)
  }

  /** The digits of the source at the scale of the target. */
  function DigitsAt(from: Params, scale: nat): nat
    requires from.scale <= from.precision
  {
    from.precision - from.scale + scale
  }

  /** The digits of the source, at the scale of the target, are those of the target's storage.  128 bits refuse by
      themselves, and 64 bits tell nineteen digits from eighteen, unless the product overflows before. */
  predicate CastSafe(from: Params, to: Params)
    requires from.scale <= from.precision
  {
    var n := DigitsAt(from, to.scale);
    || to.precision > 18
    || n <= StorageDigits(to.precision)
    || (to.precision > 9 && n == 19 && (from.scale >= to.scale || to.scale - from.scale == 18))
  }

  lemma ScaledBound(x: int, k: int, m: int)
    requires -m < x < m && k > 0
    ensures -(m * k) < k * x < m * k
  {
    MulMono(x, m - 1, k);
    MulMono(-m + 1, x, k);
    assert (m - 1) * k == m * k - k && (-m + 1) * k == -(m * k) + k;
  }

  lemma GrownBound(x: int, precision: nat, k: nat)
    requires Fits(x, precision)
    ensures Fits(Pow10(k) * x, precision + k)
  {
    ScaledBound(x, Pow10(k), Pow10(precision));
    PowAdd(precision, k);
  }

  /** A rounded quotient is at most the quotient of the bounds. */
  lemma QuotientBound(x: int, d: int, m: int, r: int)
    requires d > 0 && -(m * d) < x < m * d && -d <= 2 * (x - d * r) <= d
    ensures -m <= r <= m
  {
    if r > m { MulMono(m + 1, r, d); }
    if r < -m { MulMono(r, -m - 1, d); }
  }

  lemma ShrunkBound(x: int, from: Params, scale: nat)
    requires Fits(x, from.precision) && scale < from.scale <= from.precision
    ensures -Pow10(DigitsAt(from, scale)) <= Rescale(x, from.scale, scale) <= Pow10(DigitsAt(from, scale))
  {
    RescaleRounds(x, from.scale, scale);
    PowAdd(DigitsAt(from, scale), from.scale - scale);
    QuotientBound(x, Pow10(from.scale - scale), Pow10(DigitsAt(from, scale)), Rescale(x, from.scale, scale));
  }

  /** Half a unit more than a fitting value can be computed. */
  lemma BiasedComputed(x: int, precision: nat, wide: nat, dropped: nat)
    requires Fits(x, precision) && 0 < dropped <= precision <= wide <= 38
    ensures Computed(Biased(x, dropped), wide)
  {
    StorageHolds(wide);
    StorageHolds(9);
    PowMono(precision, wide);
    PowMono(dropped, precision);
    assert Pow10(dropped) == 10 * Pow10(dropped - 1);
  }

  /** Narrowing changes no verdict while the digits are those of the storage. */
  lemma NarrowRight(r: int, n: nat, precision: nat)
    requires 1 <= precision <= 38 && -Pow10(n) <= r <= Pow10(n)
    requires n <= StorageDigits(precision) || (9 < precision <= 18 && n == 19)
    ensures Check(Narrow(r, precision), precision) == Check(r, precision)
  {
    StorageHolds(precision);
    Powers();
    if n <= StorageDigits(precision) {
      PowMono(n, StorageDigits(precision));
      NarrowKeeps(r, precision);
    } else if Stored(r, precision) {
      NarrowKeeps(r, precision);
    } else {
      NarrowWraps(if r < 0 then -r else r, precision);
    }
  }

  lemma GrownRight(x: int, from: Params, to: Params)
    requires ValidParams(from) && ValidParams(to) && Fits(x, from.precision) && CastSafe(from, to)
    requires from.scale < to.scale
    ensures CastRight(x, from, to)
  {
    var r := Rescale(x, from.scale, to.scale);
    if to.precision > 18 {
      WideRight(x, from, to, r);
    } else {
      var n := DigitsAt(from, to.scale);
      GrownBound(x, from.precision, to.scale - from.scale);
      if n == 19 { Nineteen(x, to.scale - from.scale); }
      NarrowRight(r, n, to.precision);
      GrownComputed(r, n, to.precision, Max(from.precision, to.precision));
    }
  }

  /** 128 bits throw by themselves where the product does not fit. */
  lemma WideRight(x: int, from: Params, to: Params, r: int)
    requires ValidParams(to) && to.precision > 18 && from.precision <= 38 && from.scale < to.scale
    requires r == Rescale(x, from.scale, to.scale)
    ensures CastRight(x, from, to)
  {
    StorageHolds(to.precision);
    if Computed(r, to.precision) { NarrowKeeps(r, to.precision); }
  }

  lemma Nineteen(x: int, k: nat)
    requires Fits(x, 1) && k == 18
    ensures -9 * Pow10(18) <= Pow10(k) * x <= 9 * Pow10(18)
  {
    assert Pow10(1) == 10;
    MulMono(x, 9, Pow10(18));
    MulMono(-9, x, Pow10(18));
  }

  lemma GrownComputed(r: int, n: nat, precision: nat, wide: nat)
    requires 1 <= precision <= wide <= 38 && precision <= 18 && Fits(r, n)
    requires n <= StorageDigits(precision) || (precision > 9 && -9 * Pow10(18) <= r <= 9 * Pow10(18))
    ensures Computed(r, wide)
  {
    Powers();
    if n <= StorageDigits(precision) { PowMono(n, StorageDigits(precision)); }
  }

  lemma ShrunkRight(x: int, from: Params, to: Params)
    requires ValidParams(from) && ValidParams(to) && Fits(x, from.precision) && CastSafe(from, to)
    requires from.scale > to.scale
    ensures CastRight(x, from, to)
  {
    BiasedComputed(x, from.precision, Max(from.precision, to.precision), from.scale - to.scale);
    ShrunkBound(x, from, to.scale);
    NarrowRight(Rescale(x, from.scale, to.scale), DigitsAt(from, to.scale), to.precision);
  }

  lemma SafeIsRight(x: int, from: Params, to: Params)
    requires ValidParams(from) && ValidParams(to) && Fits(x, from.precision) && CastSafe(from, to)
    ensures CastRight(x, from, to)
  {
    if from.scale < to.scale {
      GrownRight(x, from, to);
    } else if from.scale > to.scale {
      ShrunkRight(x, from, to);
    } else {
      NarrowRight(x, from.precision, to.precision);
    }
  }

  /** A value that narrows to one within the digits gets the wrong verdict. */
  lemma WrongVerdict(r: int, precision: nat)
    requires Half(precision) <= r < 3 * Half(precision) && Fits(r - 2 * Half(precision), precision)
    ensures Check(Narrow(r, precision), precision) != Check(r, precision)
  {
    NarrowWraps(r, precision);
  }

  /** No scale gained: a multiple of the unit that rescales to 2^bits, which narrows to zero. */
  lemma ShrunkWraps(from: Params, to: Params) returns (x: int)
    requires ValidParams(from) && ValidParams(to) && from.scale >= to.scale && !CastSafe(from, to)
    ensures Fits(x, from.precision) && !CastRight(x, from, to)
  {
    var d, m := from.scale - to.scale, 2 * Half(to.precision);
    x := Pow10(d) * m;
    BeyondStorage(to.precision, DigitsAt(from, to.scale));
    GrownBound(m, DigitsAt(from, to.scale), d);
    MultipleRescales(m, from.scale, to.scale);
    ShrunkNotRight(x, from, to);
  }

  lemma ShrunkNotRight(x: int, from: Params, to: Params)
    requires ValidParams(from) && ValidParams(to) && from.scale >= to.scale && to.precision <= 18
    requires Fits(x, from.precision) && Rescale(x, from.scale, to.scale) == 2 * Half(to.precision)
    ensures !CastRight(x, from, to)
  {
    if from.scale > to.scale {
      var wide := Max(from.precision, to.precision);
      BiasedComputed(x, from.precision, wide, from.scale - to.scale);
    }
    WrongVerdict(2 * Half(to.precision), to.precision);
  }

  lemma BeyondStorage(precision: nat, n: nat)
    requires precision <= 18 && n > StorageDigits(precision) && (precision > 9 ==> n > 19)
    ensures Fits(2 * Half(precision), n)
  {
    StorageHolds(precision);
    PowMono(StorageDigits(precision) + (if precision > 9 then 2 else 1), n);
  }

  lemma MultipleRescales(m: nat, from: nat, to: nat)
    requires from >= to
    ensures Rescale(Pow10(from - to) * m, from, to) == m
  {
    if from > to {
      var d := Pow10(from - to);
      RescaleRounds(d * m, from, to);
      NearestMultiple(m, d, Rescale(d * m, from, to));
    }
  }

  lemma NearestMultiple(m: int, d: int, r: int)
    requires d > 0 && -d <= 2 * (d * m - d * r) <= d
    ensures r == m
  {
    assert d * m - d * r == d * (m - r);
    if m - r >= 1 { MulMono(1, m - r, d); }
    if m - r <= -1 { MulMono(m - r, -1, d); }
  }

  /** Scale gained: the last product below 2^bits, which narrows to a small negative value unless it overflows. */
  lemma GrownWraps(from: Params, to: Params) returns (x: int)
    requires ValidParams(from) && ValidParams(to) && from.scale < to.scale && !CastSafe(from, to)
    requires to.precision > 9 ==> DigitsAt(from, to.scale) > 19
    ensures Fits(x, from.precision) && !CastRight(x, from, to)
  {
    var k, m := to.scale - from.scale, 2 * Half(to.precision);
    BeyondStorage(to.precision, DigitsAt(from, to.scale));
    x := LastMultiple(m, from.precision, k);
    PowMono(k, to.precision);
    GrownNotRight(x, from, to, Pow10(k) * x);
  }

  lemma LastMultiple(m: nat, precision: nat, k: nat) returns (x: int)
    requires Fits(m, precision + k)
    ensures Fits(x, precision) && m - Pow10(k) < Pow10(k) * x <= m
  {
    PowAdd(precision, k);
    x := LastQuotient(m, Pow10(k), Pow10(precision));
  }

  lemma LastQuotient(m: nat, d: int, b: int) returns (x: int)
    requires d > 0 && m < b * d
    ensures 0 <= x < b && m - d < d * x <= m
  {
    x := m / d;
    Euclid(m, d);
    if x >= b { MulMono(b, x, d); }
  }

  lemma GrownNotRight(x: int, from: Params, to: Params, r: int)
    requires ValidParams(from) && ValidParams(to) && from.scale < to.scale && to.precision <= 18
    requires r == Rescale(x, from.scale, to.scale)
    requires 2 * Half(to.precision) - Pow10(to.precision) < r <= 2 * Half(to.precision)
    ensures !CastRight(x, from, to)
  {
    StorageHolds(to.precision);
    WrongVerdict(r, to.precision);
  }

  /** Nineteen digits in 64 bits: the largest product overflows. */
  lemma GrownOverflows(from: Params, to: Params) returns (x: int)
    requires ValidParams(from) && ValidParams(to) && from.scale < to.scale && !CastSafe(from, to)
    requires to.precision > 9 && DigitsAt(from, to.scale) == 19
    ensures Fits(x, from.precision) && Cast(x, from, to) == Undefined
  {
    var k := to.scale - from.scale;
    x := Pow10(from.precision) - 1;
    PowAdd(from.precision, k);
    PowMono(k, 17);
    LargestProduct(Pow10(from.precision), Pow10(k), Pow10(17));
    ProductOverflows(x, from, to, Pow10(k) * x);
  }

  lemma LargestProduct(b: int, d: int, c: int)
    requires d <= c
    ensures d * (b - 1) >= b * d - c
  {
    Distributes(d, b);
  }

  lemma ProductOverflows(x: int, from: Params, to: Params, r: int)
    requires from.precision <= 18 && 9 < to.precision <= 18 && from.scale < to.scale
    requires r == Rescale(x, from.scale, to.scale) && r >= Pow10(19) - Pow10(17)
    ensures Cast(x, from, to) == Undefined
  {
    Powers();
  }

  /** Every value of a decimal type is cast to another type or refused as it should be, if and only if the target's
      storage holds its digits. */
  lemma CastRightIff(from: Params, to: Params)
    requires ValidParams(from) && ValidParams(to)
    ensures (forall x :: Fits(x, from.precision) ==> CastRight(x, from, to)) <==> CastSafe(from, to)
  {
    if CastSafe(from, to) {
      forall x | Fits(x, from.precision) ensures CastRight(x, from, to) { SafeIsRight(x, from, to); }
    } else if from.scale >= to.scale {
      var x := ShrunkWraps(from, to);
    } else if to.precision > 9 && DigitsAt(from, to.scale) == 19 {
      var x := GrownOverflows(from, to);
      assert !CastRight(x, from, to);
    } else {
      var x := GrownWraps(from, to);
    }
  }

  /** 65540 and 65540.4 become 4 as decimals of four digits. */
  lemma CastLosesDigits()
    ensures Cast(65540, Params(5, 0), Params(4, 0)) == Done(4)
    ensures Cast(655404, Params(6, 1), Params(4, 0)) == Done(4)
  {
    assert Pow10(4) == 10_000 && Pow10(1) == 10;
  }

  // ----- addition and subtraction

  /** The digits before the point that both types need. */
  function WholeDigits(a: Params, b: Params): int {
    Max(a.precision - a.scale, b.precision - b.scale)
  }

  function SumParams(a: Params, b: Params): Params
    requires ValidParams(a) && ValidParams(b)
  {
    var p := Min(DECIMAL_PRECISION_LIMIT, Max(a.scale, b.scale) + WholeDigits(a, b) + 1);
    var s := Min(p, Max(a.scale, b.scale));
    if WholeDigits(a, b) < Min(DECIMAL_PRECISION_LIMIT, p) - s
    then Params(p, Min(p, DECIMAL_PRECISION_LIMIT) - WholeDigits(a, b))
    else Params(p, s)
  }

  /** The operand is compared with what is left of the bound; the sum itself is computed only after that. */
  function Add(left: int, right: int, precision: nat): Outcome {
    var room := if right > 0 then Pow10(precision) - right else -Pow10(precision) - right;
    if right != 0 && !Computed(room, precision) then Overflowed(precision)
    else if (right > 0 && room <= left) || (right < 0 && room >= left) then Refused
    else Store(left + right, precision)
  }

  function Subtract(left: int, right: int, precision: nat): Outcome {
    var room := if right > 0 then -Pow10(precision) + right else Pow10(precision) + right;
    if right != 0 && !Computed(room, precision) then Overflowed(precision)
    else if (right > 0 && room >= left) || (right < 0 && room <= left) then Refused
    else Store(left - right, precision)
  }

  function Store(v: int, precision: nat): Outcome {
    if !Computed(v, precision) then Overflowed(precision) else Done(Narrow(v, precision))
  }

  /** Both operands are cast to the type of the result first. */
  function AddDecimals(x: int, a: Params, y: int, b: Params): Outcome
    requires ValidParams(a) && ValidParams(b)
  {
    var r := SumParams(a, b);
    match (Cast(x, a, r), Cast(y, b, r))
    case (Done(left), Done(right)) => Add(left, right, r.precision)
    case (Done(_), other) => other
    case (other, _) => other
  }

  function SubtractDecimals(x: int, a: Params, y: int, b: Params): Outcome
    requires ValidParams(a) && ValidParams(b)
  {
    var r := SumParams(a, b);
    match (Cast(x, a, r), Cast(y, b, r))
    case (Done(left), Done(right)) => Subtract(left, right, r.precision)
    case (Done(_), other) => other
    case (other, _) => other
  }

  /** No digit after the point is lost, and none before it is added for the carry; past the limit the digits before
      the point give way. */
  lemma SumDigits(a: Params, b: Params)
    requires ValidParams(a) && ValidParams(b)
    ensures var r := SumParams(a, b);
            && ValidParams(r) && r.scale >= a.scale && r.scale >= b.scale
            && r.precision - r.scale == Min(WholeDigits(a, b), DECIMAL_PRECISION_LIMIT - Max(a.scale, b.scale))
  {
  }

  /** So the casts to the type of the sum are always right. */
  lemma SumCastsSafe(a: Params, b: Params)
    requires ValidParams(a) && ValidParams(b)
    ensures CastSafe(a, SumParams(a, b)) && CastSafe(b, SumParams(a, b))
  {
    SumDigits(a, b);
  }

  /** A value within the digits, and the bound itself, can be computed and stored. */
  lemma DigitsStored(v: int, precision: nat)
    requires 1 <= precision <= 38 && -Pow10(precision) <= v <= Pow10(precision)
    ensures Computed(v, precision) && Stored(v, precision) && Narrow(v, precision) == v
  {
    StorageHolds(precision);
    NarrowKeeps(v, precision);
  }

  lemma AddIsExact(left: int, right: int, precision: nat)
    requires 1 <= precision <= 38 && Fits(left, precision) && Fits(right, precision)
    ensures Add(left, right, precision) == Check(left + right, precision)
  {
    if right > 0 { DigitsStored(Pow10(precision) - right, precision); }
    if right < 0 { DigitsStored(-Pow10(precision) - right, precision); }
    if Fits(left + right, precision) { DigitsStored(left + right, precision); }
  }

  lemma SubtractIsExact(left: int, right: int, precision: nat)
    requires 1 <= precision <= 38 && Fits(left, precision) && Fits(right, precision)
    ensures Subtract(left, right, precision) == Check(left - right, precision)
  {
    if right > 0 { DigitsStored(-Pow10(precision) + right, precision); }
    if right < 0 { DigitsStored(Pow10(precision) + right, precision); }
    if Fits(left - right, precision) { DigitsStored(left - right, precision); }
  }

  /** The kernels are exact: of fitting operands, they refuse exactly the results that do not fit, without computing
      anything that does not fit. */
  lemma ChecksAreExact(left: int, right: int, precision: nat)
    requires 1 <= precision <= 38 && Fits(left, precision) && Fits(right, precision)
    ensures right > 0 ==> Fits(Pow10(precision) - right, precision) && Fits(-Pow10(precision) + right, precision)
    ensures right < 0 ==> Fits(-Pow10(precision) - right, precision) && Fits(Pow10(precision) + right, precision)
    ensures Add(left, right, precision) == Check(left + right, precision)
    ensures Subtract(left, right, precision) == Check(left - right, precision)
  {
    AddIsExact(left, right, precision);
    SubtractIsExact(left, right, precision);
  }

  /** The sum and the difference of any two decimals are exact, and refused exactly when they or an operand need more
      digits than their type has. */
  lemma SumIsExact(x: int, a: Params, y: int, b: Params, r: Params, left: int, right: int)
    requires ValidParams(a) && ValidParams(b) && Fits(x, a.precision) && Fits(y, b.precision) && r == SumParams(a, b)
    requires left == Rescale(x, a.scale, r.scale) && right == Rescale(y, b.scale, r.scale)
    ensures AddDecimals(x, a, y, b) ==
            if Fits(left, r.precision) && Fits(right, r.precision) then Check(left + right, r.precision) else Refused
    ensures SubtractDecimals(x, a, y, b) ==
            if Fits(left, r.precision) && Fits(right, r.precision) then Check(left - right, r.precision) else Refused
  {
    SumDigits(a, b);
    SumCastsSafe(a, b);
    SafeIsRight(x, a, r);
    SafeIsRight(y, b, r);
    if Fits(left, r.precision) && Fits(right, r.precision) { ChecksAreExact(left, right, r.precision); }
  }

  /** Operands are refused only where both types together need more digits than a decimal can have. */
  lemma OperandsFit(x: int, a: Params, b: Params)
    requires ValidParams(a) && ValidParams(b) && Fits(x, a.precision)
    requires Max(a.scale, b.scale) + WholeDigits(a, b) <= DECIMAL_PRECISION_LIMIT
    ensures var r := SumParams(a, b);
            r.scale >= a.scale && Rescale(x, a.scale, r.scale) == Pow10(r.scale - a.scale) * x &&
            Fits(Rescale(x, a.scale, r.scale), r.precision)
  {
    var r := SumParams(a, b);
    SumDigits(a, b);
    GrownFits(x, a.precision, r.scale - a.scale, r.precision);
  }

  lemma GrownFits(x: int, precision: nat, k: nat, digits: nat)
    requires Fits(x, precision) && precision + k <= digits
    ensures Fits(Pow10(k) * x, digits) && (k == 0 ==> Pow10(k) * x == x)
  {
    GrownBound(x, precision, k);
    PowMono(precision + k, digits);
  }

  // ----- multiplication

  function ProductParams(a: Params, b: Params): Option<Params> {
    if a.precision + b.precision + 1 > DECIMAL_PRECISION_LIMIT then None
    else Some(Params(a.precision + b.precision + 1, a.scale + b.scale))
  }

  function Multiply(left: int, right: int, precision: nat): Outcome {
    if !Computed(left * right, precision) then Overflowed(precision)
    else Check(Narrow(left * right, precision), precision)
  }

  /** At the precision computed for it, a product always fits, in its storage too, and is exact. */
  lemma ProductNeverOverflows(left: int, right: int, a: Params, b: Params)
    requires ValidParams(a) && ValidParams(b) && Fits(left, a.precision) && Fits(right, b.precision)
    requires ProductParams(a, b).Some?
    ensures ValidParams(ProductParams(a, b).value)
    ensures Multiply(left, right, ProductParams(a, b).value.precision) == Done(left * right)
  {
    ProductBound(left, right, Pow10(a.precision), Pow10(b.precision));
    PowAdd(a.precision, b.precision);
    assert Pow10(a.precision + b.precision + 1) == 10 * Pow10(a.precision + b.precision);
    DigitsStored(left * right, a.precision + b.precision + 1);
  }

  // ----- floor and ceiling

  function FloorStep(x: int, unit: int): int
    requires unit > 0
  {
    var rest := TruncMod(x, unit);
    if x < 0 then x - (if rest == 0 then 0 else unit + rest) else x - rest
  }

  function CeilStep(x: int, unit: int): int
    requires unit > 0
  {
    var rest := TruncMod(x, unit);
    if x < 0 then x - rest else x + (if rest == 0 then 0 else unit - rest)
  }

  /** The step is stored before it is divided. */
  function Floor(x: int, a: Params): int {
    TruncDiv(Narrow(FloorStep(x, Pow10(a.scale)), a.precision), Pow10(a.scale))
  }

  function Ceil(x: int, a: Params): int {
    TruncDiv(Narrow(CeilStep(x, Pow10(a.scale)), a.precision), Pow10(a.scale))
  }

  /** The steps are whole multiples next to the value. */
  lemma Steps(x: int, d: int, q: int, rest: int)
    requires d > 0 && q == TruncDiv(x, d) && rest == TruncMod(x, d)
    ensures FloorStep(x, d) == d * (if x < 0 && rest != 0 then q - 1 else q)
    ensures CeilStep(x, d) == d * (if x >= 0 && rest != 0 then q + 1 else q)
    ensures FloorStep(x, d) <= x < FloorStep(x, d) + d && CeilStep(x, d) - d < x <= CeilStep(x, d)
  {
    TruncParts(x, d);
    Distributes(d, q);
  }

  lemma Distributes(d: int, q: int)
    ensures d * (q - 1) == d * q - d && d * (q + 1) == d * q + d
  {
  }

  /** A multiple of d less than d away from a value within n * d is itself within n * d. */
  lemma MultipleBound(d: int, n: int, r: int, x: int)
    requires d > 0 && -(n * d) < x < n * d && d * r - d < x < d * r + d
    ensures -(n * d) <= d * r <= n * d
  {
    if r > n {
      MulMono(n + 1, r, d);
    } else if r < -n {
      MulMono(r, -n - 1, d);
    } else {
      MulMono(r, n, d);
      MulMono(-n, r, d);
    }
  }

  /** One step: a multiple of the unit next to the value is stored, and divides out exactly. */
  lemma StepDivides(x: int, a: Params, step: int, q: int)
    requires ValidParams(a) && Fits(x, a.precision)
    requires step == Pow10(a.scale) * q && step - Pow10(a.scale) < x < step + Pow10(a.scale)
    ensures Stored(step, a.precision) && TruncDiv(Narrow(step, a.precision), Pow10(a.scale)) == q
  {
    PowAdd(a.precision - a.scale, a.scale);
    MultipleBound(Pow10(a.scale), Pow10(a.precision - a.scale), q, x);
    DigitsStored(step, a.precision);
    QuotientIs(step, Pow10(a.scale), q);
  }

  /** The greatest whole number not above the decimal, and the least one not below it; both steps fit the storage. */
  lemma FloorAndCeil(x: int, a: Params)
    requires ValidParams(a) && Fits(x, a.precision)
    ensures var d, f := Pow10(a.scale), Floor(x, a); d * f <= x < d * f + d
    ensures var d, c := Pow10(a.scale), Ceil(x, a); d * c - d < x <= d * c
    ensures Stored(FloorStep(x, Pow10(a.scale)), a.precision) && Stored(CeilStep(x, Pow10(a.scale)), a.precision)
  {
    var d := Pow10(a.scale);
    var q, rest := TruncDiv(x, d), TruncMod(x, d);
    Steps(x, d, q, rest);
    StepDivides(x, a, FloorStep(x, d), if x < 0 && rest != 0 then q - 1 else q);
    StepDivides(x, a, CeilStep(x, d), if x >= 0 && rest != 0 then q + 1 else q);
  }
}
