/** The floating point of the simulated CPU: 64-bit words of sign, 15-bit
    exponent and 48-bit fraction, without a hidden bit. */
module CrayFloat {
  import opened Bits
  import opened TruncMult

  const EXP_OFS: nat := 0x4001
  const EXP_MIN: nat := 0x2000
  const TWO56: nat := 0x100_0000_0000_0000

  datatype Raw = Raw(neg: bool, rawExp: nat, fract: nat)

  type Float = x: Raw | x.rawExp < TWO15 && x.fract < TWO48 witness Raw(false, 0, 0)

  const ZERO: Float := Raw(false, 0, 0)

  /** The value constructed from an exponent, a sign and a fraction; what does
      not fit is cut off. */
  function Make(exp: int, positive: bool, fract: nat): Float {
    Raw(!positive, (exp + EXP_OFS) % TWO15, fract % TWO48)
  }

  function Exp(x: Float): int {
    x.rawExp - EXP_OFS
  }

  function UnderflowOrValue(x: Float): Float {
    if x.rawExp < EXP_MIN then ZERO else x
  }

  /* ----- normalization ----- */

  /** The top fraction bit is set, or the exponent cannot go down any more. */
  predicate Normal(x: Float) {
    x.fract >= TWO47 || x.rawExp <= EXP_MIN
  }

  /** y is x with the fraction shifted up k places and the exponent lowered as
      much: the same sign and the same value. */
  predicate ShiftedUp(x: Float, y: Float, k: nat) {
    y.neg == x.neg && y.fract == x.fract * Pow2(k) && y.rawExp + k == x.rawExp
  }

  function Normalized(x: Float): Float
    decreases x.rawExp
  {
    if x.fract == 0 then ZERO
    else if Normal(x) then x
    else Normalized(Raw(x.neg, x.rawExp - 1, 2 * x.fract))
  }

  method Normalize(x: Float) returns (r: Float)
    ensures r == Normalized(x)
  {
    r := x;
    if r.fract == 0 {
      return ZERO;
    }
    while r.fract < TWO47 && r.rawExp > EXP_MIN
      invariant r.fract > 0 && Normalized(r) == Normalized(x)
      decreases r.rawExp
    {
      r := Raw(r.neg, r.rawExp - 1, 2 * r.fract % TWO48);
    }
  }

  /** Normalizing keeps sign and value, ends normal, and shifts no further than
      it has to. */
  lemma {:induction false} NormalizeKeepsValue(x: Float) returns (k: nat)
    requires x.fract > 0
    ensures ShiftedUp(x, Normalized(x), k) && Normal(Normalized(x))
    ensures k > 0 ==> x.fract * Pow2(k - 1) < TWO47 && x.rawExp - (k - 1) > EXP_MIN
    decreases x.rawExp
  {
    if Normal(x) {
      k := 0;
      assert Pow2(0) == 1;
    } else {
      var n := NormalizeKeepsValue(Raw(x.neg, x.rawExp - 1, 2 * x.fract));
      k := n + 1;
      assert x.fract * Pow2(k) == 2 * x.fract * Pow2(n) by {
        assert x.fract * (2 * Pow2(n)) == 2 * x.fract * Pow2(n);
      }
      if n > 0 {
        assert x.fract * (2 * Pow2(n - 1)) == 2 * x.fract * Pow2(n - 1);
      }
    }
  }

  lemma NormalizeTwice(x: Float)
    ensures Normalized(Normalized(x)) == Normalized(x)
  {
    if x.fract > 0 {
      var k := NormalizeKeepsValue(x);
      assert Pow2(k) > 0;
      assert x.fract * Pow2(k) >= x.fract by {
        MulMono(1, Pow2(k), x.fract);
      }
    }
  }

  /* ----- addition ----- */

  function Shift(f: nat, d: nat): (r: nat)
    ensures r <= f
  {
    hide Pow2;
    ShrLess(f, if d < 63 then d else 63);
    Shr(f, if d < 63 then d else 63)
  }

  lemma ShrLess(f: nat, n: nat)
    ensures Shr(f, n) <= f
  {
    DivMulLess(f, Pow2(n));
  }

  lemma DivMulLess(f: nat, d: nat)
    requires d > 0
    ensures f / d <= f
  {
    MulMono(1, d, f / d);
  }

  /** Sign and magnitude of a sum, as a signed number. */
  function Signed(x: Float, f: nat): int {
    if x.neg then 0 - f else f
  }

  /** The sum as an exponent and a signed fraction, both operands brought to the
      larger exponent. */
  function Aligned(a: Float, b: Float): (r: (int, int))
    ensures -2 * TWO48 < r.1 < 2 * TWO48
  {
    var d := Exp(a) - Exp(b);
    if d >= 0 then (Exp(a), Signed(a, a.fract) + Signed(b, Shift(b.fract, d)))
    else (Exp(b), Signed(a, Shift(a.fract, -d)) + Signed(b, b.fract))
  }

  function Abs(s: int): nat {
    if s < 0 then 0 - s else s
  }

  /** An aligned sum as a number, shifted down one place when it carries. */
  function Placed(exp: int, s: int, positive: bool): Float {
    if Abs(s) >= TWO48 then Make(exp + 1, positive, Abs(s) / 2) else Make(exp, positive, Abs(s))
  }

  /** Equal and opposite fractions give a positive zero, two negative ones a
      negative one. */
  function SumPositive(a: Float, b: Float, s: int): bool {
    s > 0 || (s == 0 && !(a.neg && b.neg))
  }

  function Sum(a0: Float, b0: Float): Float {
    var a, b := UnderflowOrValue(a0), UnderflowOrValue(b0);
    var (exp, s) := Aligned(a, b);
    UnderflowOrValue(Normalized(Placed(exp, s, SumPositive(a, b, s))))
  }

  /** Aligns and adds: exponent, sign and magnitude of the sum. */
  method AddFractions(a: Float, b: Float) returns (exp: int, positive: bool, fract: nat)
    ensures (exp, if positive then fract else 0 - fract) == Aligned(a, b) && fract < 2 * TWO48
    ensures fract == 0 ==> positive == !(a.neg && b.neg)
  {
    hide Shift;
    var fractA: int, fractB: int := a.fract, b.fract;
    ShiftNone(b.fract);
    if Exp(a) > Exp(b) {
      fractB := Shift(b.fract, Exp(a) - Exp(b));
      exp := Exp(a);
    } else if Exp(a) < Exp(b) {
      fractA := Shift(a.fract, Exp(b) - Exp(a));
      exp := Exp(b);
    } else {
      exp := Exp(b);
    }
    positive, fract := CombineSigns(a.neg, b.neg, fractA, fractB);
  }

  method CombineSigns(negA: bool, negB: bool, fractA: nat, fractB: nat) returns (positive: bool, fract: nat)
    ensures (if positive then fract else 0 - fract) ==
            (if negA then 0 - fractA else fractA) + (if negB then 0 - fractB else fractB)
    ensures fract == 0 ==> positive == !(negA && negB)
  {
    positive := true;
    var resultFract: int;
    if negA && negB {
      resultFract := fractA + fractB;
      positive := false;
    } else if !negA && !negB {
      resultFract := fractA + fractB;
    } else if !negA && negB {
      resultFract := fractA as int - fractB as int;
      if resultFract < 0 {
        positive := false;
        resultFract := 0 - resultFract;
      }
    } else {
      resultFract := fractB as int - fractA as int;
      if resultFract < 0 {
        positive := false;
        resultFract := 0 - resultFract;
      }
    }
    fract := resultFract;
  }

  method Add(a0: Float, b0: Float) returns (r: Float)
    ensures r == Sum(a0, b0)
  {
    hide Shift, Normalized, Aligned;
    var a, b := UnderflowOrValue(a0), UnderflowOrValue(b0);
    var exp, positive, fract := AddFractions(a, b);
    BitFortyEight(fract);
    if fract / TWO48 % 2 != 0 {
      exp := exp + 1;
      fract := fract / 2;
    }
    var sum := Normalize(Make(exp, positive, fract));
    r := UnderflowOrValue(sum);
  }

  lemma ShiftNone(f: nat)
    ensures Shift(f, 0) == f
  {
    assert Pow2(0) == 1;
  }

  lemma BitFortyEight(f: int)
    ensures 0 <= f < 2 * TWO48 ==> (f / TWO48 % 2 != 0 <==> f >= TWO48)
  {
  }

  /** The order of the operands does not matter, sign of zero included. */
  lemma SumCommutes(a: Float, b: Float)
    ensures Sum(a, b) == Sum(b, a)
  {
    hide Normalized, Shift;
    var x, y := UnderflowOrValue(a), UnderflowOrValue(b);
    ShiftNone(x.fract);
    ShiftNone(y.fract);
    assert Aligned(x, y) == Aligned(y, x);
  }

  function Negated(x: Float): Float {
    Raw(!x.neg, x.rawExp, x.fract)
  }

  /** Subtracting a number from itself gives zero. */
  lemma SubSelf(a: Float)
    ensures Sum(a, Negated(a)) == ZERO
  {
    hide Shift, Normalized, Make, Aligned;
    var x, y := UnderflowOrValue(a), UnderflowOrValue(Negated(a));
    AlignedOpposite(x, y);
    ZeroSum(Exp(x), !(x.neg && y.neg));
  }

  lemma AlignedOpposite(x: Float, y: Float)
    requires x == y == ZERO || y == Negated(x)
    ensures Aligned(x, y) == (Exp(x), 0)
  {
    hide Shift;
    ShiftNone(x.fract);
  }

  lemma ZeroSum(exp: int, positive: bool)
    ensures UnderflowOrValue(Normalized(Make(exp, positive, 0))) == ZERO
  {
  }

  /** The aligned sum is the exact sum in units of the larger exponent, less
      than one unit off. */
  lemma AlignedAccuracy(a: Float, b: Float)
    requires Exp(a) >= Exp(b)
    ensures var d := Exp(a) - Exp(b);
      var exact := Signed(a, a.fract) * Pow2(d) + Signed(b, b.fract);
      var s := Aligned(a, b).1 * Pow2(d);
      0 - Pow2(d) < exact - s < Pow2(d)
  {
    var d := Exp(a) - Exp(b);
    var f := Shift(b.fract, d);
    ShiftError(b.fract, d);
    var p := Pow2(d);
    NegMul(f, p);
    assert (Signed(a, a.fract) + Signed(b, f)) * p == Signed(a, a.fract) * p + Signed(b, f) * p;
  }

  lemma NegMul(f: int, p: int)
    ensures (0 - f) * p == 0 - f * p
  {
  }

  lemma ShiftError(f: nat, d: nat)
    requires f < TWO48
    ensures 0 <= f - Shift(f, d) * Pow2(d) < Pow2(d)
  {
    var n := if d < 63 then d else 63;
    ShrRange(f, n);
    if d > 48 {
      BigPow(n);
      BigPow(d);
      assert Shr(f, n) == 0 by {
        DivBound(f, Pow2(n), 1);
      }
    }
  }

  lemma ShrRange(f: nat, n: nat)
    ensures 0 <= f - Shr(f, n) * Pow2(n) < Pow2(n)
  {
    var p := Pow2(n);
    assert f == f / p * p + f % p;
  }

  lemma BigPow(n: nat)
    requires n >= 48
    ensures Pow2(n) >= TWO48
  {
    Pow2At48();
    PowMono(48, n);
  }

  lemma {:induction false} PowMono(a: nat, b: nat)
    requires a <= b
    ensures Pow2(a) <= Pow2(b)
    decreases b
  {
    if a < b {
      PowMono(a, b - 1);
    }
  }

  /** The value of a number, in units of the smallest exponent. */
  function Val(x: Float): int {
    Signed(x, x.fract) * Pow2(x.rawExp)
  }

  function Larger(a: Float, b: Float): nat {
    if a.rawExp >= b.rawExp then a.rawExp else b.rawExp
  }

  /** The aligned sum needs one more place. */
  predicate Carries(a: Float, b: Float) {
    Abs(Aligned(a, b).1) >= TWO48
  }

  /** A sum is the exact one to within less than one unit of the larger
      exponent, or of the next one when it carries; with equal exponents and no
      carry it is exact.  A carry out of the largest exponent gives zero. */
  lemma SumAccuracy(a0: Float, b0: Float)
    ensures var a, b := UnderflowOrValue(a0), UnderflowOrValue(b0);
      var e := Larger(a, b) + if Carries(a, b) then 1 else 0;
      var error := Val(a) + Val(b) - Val(Sum(a0, b0));
      if e == TWO15 then Sum(a0, b0) == ZERO
      else 0 - Pow2(e) < error < Pow2(e) && (a.rawExp == b.rawExp && !Carries(a, b) ==> error == 0)
  {
    hide Aligned, Normalized, Val, Pow2, Placed, Abs;
    var a, b := UnderflowOrValue(a0), UnderflowOrValue(b0);
    var (exp, s) := Aligned(a, b);
    var sum := Placed(exp, s, SumPositive(a, b, s));
    AlignedExp(a, b);
    if Abs(s) >= TWO48 && Larger(a, b) + 1 == TWO15 {
      ExponentLost(s, SumPositive(a, b, s));
    } else {
      AlignedVal(a, b);
      PlacedVal(Larger(a, b), s, SumPositive(a, b, s));
      NormalizedVal(sum);
      NoUnderflow(sum);
    }
  }

  /** The exponent wraps around to zero, which counts as underflow. */
  lemma ExponentLost(s: int, positive: bool)
    requires -2 * TWO48 < s < 2 * TWO48 && Abs(s) >= TWO48
    ensures UnderflowOrValue(Normalized(Placed(TWO15 - 1 - EXP_OFS, s, positive))) == ZERO
  {
    var sum := Placed(TWO15 - 1 - EXP_OFS, s, positive);
    assert sum == Raw(!positive, 0, Abs(s) / 2);
    assert Normal(sum) && Normalized(sum) == sum;
  }

  lemma AlignedExp(a: Float, b: Float)
    ensures Aligned(a, b).0 == Larger(a, b) - EXP_OFS
    ensures a == b == ZERO ==> Aligned(a, b).1 == 0
  {
    hide Shift;
    ShiftNone(b.fract);
  }

  lemma AlignedSwap(a: Float, b: Float)
    ensures Aligned(a, b) == Aligned(b, a)
  {
    hide Shift;
    ShiftNone(a.fract);
    ShiftNone(b.fract);
  }

  /** Aligning loses less than one unit. */
  lemma AlignedVal(a: Float, b: Float)
    ensures var e := Larger(a, b);
      var error := Val(a) + Val(b) - Aligned(a, b).1 * Pow2(e);
      0 - Pow2(e) < error < Pow2(e) && (a.rawExp == b.rawExp ==> error == 0)
    decreases b.rawExp
  {
    hide Aligned, Pow2, Signed;
    if a.rawExp < b.rawExp {
      AlignedSwap(a, b);
      AlignedVal(b, a);
    } else {
      var d := a.rawExp - b.rawExp;
      AlignedAccuracy(a, b);
      Pow2Add(d, b.rawExp);
      InUnits(Signed(a, a.fract), Signed(b, b.fract), Aligned(a, b).1, Pow2(d), Pow2(b.rawExp));
      if d == 0 {
        NoShift(a, b);
        Distributes(Signed(a, a.fract), Signed(b, b.fract), Pow2(b.rawExp));
      }
    }
  }

  lemma InUnits(x: int, y: int, s: int, u: nat, p: nat)
    requires u > 0 && p > 0 && 0 - u < x * u + y - s * u < u
    ensures 0 - u * p < x * (u * p) + y * p - s * (u * p) < u * p
  {
    Scaled(x * u + y, s * u, u, p);
    TimesTwice(x, u, p);
    TimesTwice(s, u, p);
    Distributes(x * u, y, p);
  }

  lemma Scaled(x: int, y: int, u: nat, p: nat)
    requires p > 0 && 0 - u < x - y < u
    ensures 0 - u * p < x * p - y * p < u * p
  {
    assert x * p - y * p == (x - y) * p;
    if x >= y {
      MulLess(x - y, u, p);
    } else {
      MulLess(y - x, u, p);
      assert (y - x) * p == y * p - x * p;
    }
  }

  lemma MulLess(x: nat, y: nat, p: nat)
    requires x < y && p > 0
    ensures x * p < y * p
  {
    MulMono(x, y - 1, p);
    assert y * p == (y - 1) * p + p;
  }

  lemma TimesTwice(x: int, p: nat, q: nat)
    ensures x * p * q == x * (p * q)
  {
  }

  lemma Distributes(x: int, y: int, p: nat)
    ensures (x + y) * p == x * p + y * p
  {
  }

  lemma NoShift(a: Float, b: Float)
    requires a.rawExp == b.rawExp
    ensures Aligned(a, b).1 == Signed(a, a.fract) + Signed(b, b.fract)
  {
    hide Shift;
    ShiftNone(b.fract);
  }

  lemma PlacedFields(e: nat, s: int, positive: bool)
    requires -2 * TWO48 < s < 2 * TWO48 && e < TWO15
    requires Abs(s) >= TWO48 ==> e + 1 < TWO15
    ensures Placed(e - EXP_OFS, s, positive) ==
      if Abs(s) >= TWO48 then Raw(!positive, e + 1, Abs(s) / 2) else Raw(!positive, e, Abs(s))
  {
  }

  /** Placing the aligned sum s loses at most one unit, and only when it
      carries. */
  lemma PlacedVal(e: nat, s: int, positive: bool)
    requires -2 * TWO48 < s < 2 * TWO48 && e < TWO15 && (s > 0 ==> positive) && (s < 0 ==> !positive)
    requires Abs(s) >= TWO48 ==> e + 1 < TWO15
    ensures var carry, sum := Abs(s) >= TWO48, Placed(e - EXP_OFS, s, positive);
      var error := s * Pow2(e) - Val(sum);
      && sum.rawExp == e + (if carry then 1 else 0) && (s == 0 ==> sum.fract == 0)
      && (carry ==> 0 - Pow2(e) <= error <= Pow2(e) && Pow2(e + 1) == 2 * Pow2(e))
      && (!carry ==> error == 0)
  {
    hide Pow2, Placed, Make;
    var f, p := Abs(s), Pow2(e);
    PlacedFields(e, s, positive);
    Powers();
    Pow2Add(e, 1);
    NegMul(f, p);
    HalfUnits(f, p);
    NegMul(f / 2, 2 * p);
  }

  lemma HalfUnits(f: nat, p: nat)
    ensures 0 <= f * p - f / 2 * (2 * p) <= p
  {
    var h, r := f / 2, f % 2;
    assert f == 2 * h + r;
    assert (2 * h + r) * p == 2 * h * p + r * p;
    assert h * (2 * p) == 2 * h * p;
    assert r == 0 || r == 1;
  }

  lemma NormalizedVal(x: Float)
    ensures Val(Normalized(x)) == Val(x)
  {
    hide Pow2, Normalized;
    if x.fract == 0 {
      assert Normalized(x) == ZERO by { NormalizedZero(x); }
    } else {
      var k := NormalizeKeepsValue(x);
      var y := Normalized(x);
      Pow2Add(k, y.rawExp);
      TimesTwice(x.fract, Pow2(k), Pow2(y.rawExp));
      NegMul(x.fract, Pow2(x.rawExp));
      NegMul(y.fract, Pow2(y.rawExp));
    }
  }

  lemma NormalizedZero(x: Float)
    requires x.fract == 0
    ensures Normalized(x) == ZERO
  {
  }

  /** Normalizing does not leave the exponent range. */
  lemma NoUnderflow(x: Float)
    requires x.rawExp >= EXP_MIN || x.fract == 0
    ensures UnderflowOrValue(Normalized(x)) == Normalized(x)
  {
    hide Pow2, Normalized;
    if x.fract == 0 {
      NormalizedZero(x);
    } else {
      var k := NormalizeKeepsValue(x);
    }
  }

  /** Every sum is normalized. */
  lemma SumIsNormal(a: Float, b: Float)
    ensures Normal(Sum(a, b))
  {
    hide Aligned, Normalized, Placed, Pow2;
    var x, y := UnderflowOrValue(a), UnderflowOrValue(b);
    var (exp, s) := Aligned(x, y);
    var sum := Placed(exp, s, SumPositive(x, y, s));
    if sum.fract == 0 {
      NormalizedZero(sum);
    } else {
      var k := NormalizeKeepsValue(sum);
    }
  }

  /** What is lost is lost from the operand with the smaller exponent, towards
      zero: the result is never beyond the exact sum on that operand's side. */
  lemma SumTruncates(a0: Float, b0: Float)
    requires var a, b := UnderflowOrValue(a0), UnderflowOrValue(b0);
      a.rawExp >= b.rawExp && (Carries(a, b) ==> a.rawExp + 1 < TWO15)
    ensures var a, b := UnderflowOrValue(a0), UnderflowOrValue(b0);
      var error := Val(a) + Val(b) - Val(Sum(a0, b0));
      if b.neg then error <= 0 else error >= 0
  {
    hide Aligned, Normalized, Val, Pow2, Placed, Abs;
    var a, b := UnderflowOrValue(a0), UnderflowOrValue(b0);
    var (exp, s) := Aligned(a, b);
    var sum := Placed(exp, s, SumPositive(a, b, s));
    AlignedSide(a, b);
    AlignedExp(a, b);
    PlacedSide(a.rawExp, s, SumPositive(a, b, s));
    if Carries(a, b) {
      CarrySigns(a, b);
    }
    PlacedVal(a.rawExp, s, SumPositive(a, b, s));
    NormalizedVal(sum);
    NoUnderflow(sum);
  }

  /** Aligning takes something off the smaller operand's magnitude. */
  lemma AlignedSide(a: Float, b: Float)
    requires a.rawExp >= b.rawExp
    ensures var error := Val(a) + Val(b) - Aligned(a, b).1 * Pow2(a.rawExp);
      if b.neg then error <= 0 else error >= 0
  {
    hide Aligned, Pow2;
    var d := a.rawExp - b.rawExp;
    AlignedError(a, b);
    Pow2Add(d, b.rawExp);
    var x, y, s, u, p := Signed(a, a.fract), Signed(b, b.fract), Aligned(a, b).1, Pow2(d), Pow2(b.rawExp);
    TimesTwice(x, u, p);
    TimesTwice(s, u, p);
    Distributes(x * u, y, p);
    SignTimes(x * u + y - s * u, p);
    assert (x * u + y - s * u) * p == (x * u + y) * p - s * u * p;
  }

  lemma AlignedError(a: Float, b: Float)
    requires a.rawExp >= b.rawExp
    ensures var d := a.rawExp - b.rawExp;
      var error := Signed(a, a.fract) * Pow2(d) + Signed(b, b.fract) - Aligned(a, b).1 * Pow2(d);
      if b.neg then error <= 0 else error >= 0
  {
    hide Shift, Pow2;
    var d := a.rawExp - b.rawExp;
    var f, p := Shift(b.fract, d), Pow2(d);
    ShiftError(b.fract, d);
    NegMul(f, p);
    assert (Signed(a, a.fract) + Signed(b, f)) * p == Signed(a, a.fract) * p + Signed(b, f) * p;
  }

  lemma SignTimes(x: int, p: nat)
    ensures x >= 0 ==> x * p >= 0
    ensures x <= 0 ==> x * p <= 0
  {
  }

  /** Shifting down after a carry takes something off the sum's magnitude. */
  lemma PlacedSide(e: nat, s: int, positive: bool)
    requires -2 * TWO48 < s < 2 * TWO48 && e < TWO15 && (s > 0 ==> positive) && (s < 0 ==> !positive)
    requires Abs(s) >= TWO48 ==> e + 1 < TWO15
    ensures var error := s * Pow2(e) - Val(Placed(e - EXP_OFS, s, positive));
      if s >= 0 then error >= 0 else error <= 0
  {
    hide Pow2, Placed, Make;
    var f, p := Abs(s), Pow2(e);
    PlacedFields(e, s, positive);
    Powers();
    Pow2Add(e, 1);
    NegMul(f, p);
    HalfUnits(f, p);
    NegMul(f / 2, 2 * p);
  }

  /** Only operands of the same sign carry. */
  lemma CarrySigns(a: Float, b: Float)
    requires a.rawExp >= b.rawExp && Carries(a, b)
    ensures a.neg == b.neg && (Aligned(a, b).1 < 0 <==> b.neg)
  {
    hide Pow2;
  }

  const ONE: Float := Raw(false, 0x4001, 0x8000_0000_0000)

  /** One and one make two. */
  lemma OneAndOne(a: Float)
    requires a == ONE
    ensures Sum(a, a) == Raw(false, 0x4002, 0x8000_0000_0000)
  {
    hide Shift, Normalized, Aligned;
    ShiftNone(a.fract);
    assert Aligned(a, a) == (0, 2 * TWO47) by { DoubleAligned(a); }
    var two := Placed(0, 2 * TWO47, true);
    assert two == Raw(false, 0x4002, 0x8000_0000_0000);
    NormalAlready(two);
  }

  lemma DoubleAligned(a: Float)
    ensures Aligned(a, a) == (Exp(a), 2 * Signed(a, a.fract))
  {
    hide Shift;
    ShiftNone(a.fract);
  }

  /** A number below the smallest exponent counts as zero. */
  lemma PlusZero(x: Float, zero: Float)
    requires zero == ZERO
    ensures Sum(x, zero) == if x.rawExp < 0x2000 then ZERO else Normalized(x)
  {
    hide Aligned, Normalized, Shift, Placed;
    var y := UnderflowOrValue(x);
    AlignedWithZero(y, zero);
    if x.rawExp < 0x2000 || x.fract == 0 {
      PlacedSame(y, SumPositive(y, zero, 0));
      ZeroSum(Exp(y), SumPositive(y, zero, 0));
      NormalizedZero(y);
      if x.fract == 0 {
        NormalizedZero(x);
      }
    } else {
      PlacedSame(x, SumPositive(x, zero, Signed(x, x.fract)));
      NoUnderflow(x);
    }
  }

  lemma PlacedSame(x: Float, positive: bool)
    requires x.fract > 0 ==> positive == !x.neg
    ensures Placed(Exp(x), Signed(x, x.fract), positive) ==
      if x.fract > 0 then x else Make(Exp(x), positive, 0)
  {
  }

  lemma AlignedWithZero(x: Float, zero: Float)
    requires zero == ZERO
    ensures Aligned(x, zero) == (Exp(x), Signed(x, x.fract))
  {
    hide Shift;
    ShiftZero(x.rawExp);
  }

  lemma NormalAlready(x: Float)
    requires x.fract > 0 && Normal(x)
    ensures Normalized(x) == x
  {
  }

  lemma ShiftZero(d: nat)
    ensures Shift(0, d) == 0
  {
  }

  /* ----- multiplication ----- */

  datatype Mode = Mode(rounding: bool, halfPrecision: bool, twoMinus: bool)

  /** The constant added to the truncated product. */
  function Correction(m: Mode): Word {
    18 + (if m.rounding then 192 else 0) + (if m.halfPrecision then 0x300_0000 else 0)
  }

  /** The fraction before it is shifted back: truncated product and correction,
      or the correction less the product. */
  function RawFract(a: nat, b: nat, m: Mode): (f: Word) {
    if m.twoMinus then (Correction(m) - Q(a, b, 39)) % TWO64
    else (Q(a, b, 39) + Correction(m)) % TWO64
  }

  function MultOperand(x: Float): Float {
    if x.rawExp == 0 then x else UnderflowOrValue(x)
  }

  /** What is kept of a raw fraction f: one place less when it has carried, and
      19 places less in half precision. */
  function Kept(f: nat, carry: bool, half: bool): nat {
    var g := if carry then f / 2 else f;
    (if half then g - g % 0x800_0000 else g) / 256
  }

  /** Exponent, sign and fraction out of the raw 64-bit fraction. */
  function MultResult(integer: bool, exp: int, positive: bool, f: Word, half: bool): Float {
    if integer then Make(0 - EXP_OFS, positive, Kept(f, true, false))
    else
      var carry := f / TWO56 % 2 == 1;
      var exp' := if carry then exp + 1 else exp;
      if exp' + EXP_OFS < EXP_MIN then ZERO else Make(exp', positive, Kept(f, carry, half))
  }

  /** The product both operands have, whatever their order. */
  function Product(a0: Float, b0: Float, m: Mode): Float {
    var a, b := MultOperand(a0), MultOperand(b0);
    if a == ZERO || b == ZERO then ZERO
    else
      MultResult(a.rawExp == 0 && b.rawExp == 0, Exp(a) + Exp(b), a.neg == b.neg,
                 RawFract(a.fract, b.fract, m), m.halfPrecision)
  }

  lemma ProductCommutes(a: Float, b: Float, m: Mode)
    ensures Product(a, b, m) == Product(b, a, m)
  {
    hide Q, MultResult;
    QCommutes(MultOperand(a).fract, MultOperand(b).fract, 39);
  }

  /* ----- the 48-step multiplier ----- */

  lemma AddedAll(a: nat, b: nat, sum: nat)
    requires Added(256 * a, b, 48, sum)
    ensures sum == Q(a, b, 39)
  {
    hide Q, Pow2;
    ShrNone(b);
    Powers();
    QTimes(a, b, 39, 8);
  }

  /** The partial sums need no more than 57 bits. */
  lemma {:induction false} SumBound(a: nat, b: nat, m: nat, x: nat, y: nat)
    requires a <= x && b <= y
    ensures Pow2(m) * Q(a, b, m) <= x * y
  {
    QAccuracy(a, b, m);
    MulMono(a, x, b);
    MulMono(b, y, x);
  }

  lemma QBound(a: nat, b: nat)
    requires a < TWO48 && b < TWO48
    ensures Q(a, b, 39) <= 2 * TWO56 - 1024
  {
    hide Q, Pow2;
    SumBound(a, b, 39, TWO48 - 1, TWO48 - 1);
    Pow2At48();
  }

  /** The bit that step r looks at. */
  lemma BitOfStep(b: nat, r: nat)
    requires r < 48
    ensures Shr(256 * b, 55 - r) == Shr(b, 47 - r)
  {
    var n := 47 - r;
    Pow2Add(8, n);
    Powers();
    DivDiv(256 * b, 256, Pow2(n));
  }

  /** The multiplier loop, in 64-bit arithmetic. */
  method MultiplyFractions(a: nat, b: nat) returns (sum: Word)
    requires a < TWO48 && b < TWO48
    ensures sum == Q(a, b, 39)
  {
    hide Q, Shr, Added, Pow2;
    var fractA, fractB := a * 256 % TWO64, b * 256 % TWO64;
    sum := 0;
    NothingAdded(256 * a, b);
    ShrNone(256 * a);
    for bitIdx := 0 to 48
      invariant Added(256 * a, b, bitIdx, sum) && fractA == Shr(256 * a, bitIdx)
    {
      BitOfStep(b, bitIdx);
      AddedNext(256 * a, b, bitIdx, sum);
      if Shr(fractB, 47 + 8 - bitIdx) % 2 != 0 {
        AddedBound(256 * a, b, bitIdx + 1, sum + fractA, TWO56);
        sum := (sum + fractA) % TWO64;
      }
      Halve(256 * a, bitIdx);
      fractA := fractA / 2;
    }
    AddedAll(a, b, sum);
  }

  function Not64(x: Word): Word {
    TWO64 - 1 - x
  }

  /** The constant that the multiplier adds. */
  method CorrectionFactor(m: Mode) returns (c: Word)
    ensures c == if m.twoMinus then Not64(Correction(m)) else Correction(m)
  {
    c := 18;
    if m.rounding {
      c := c + 0x80 + 0x40;
    }
    if m.halfPrecision {
      c := c + 0x100_0000 + 0x200_0000;
    }
    if m.twoMinus {
      c := Not64(c);
    }
  }

  /** Shifts the raw fraction back and puts the result together. */
  method Renormalize(integer: bool, exp0: int, positive0: bool, f: Word, half: bool) returns (r: Float)
    ensures r == MultResult(integer, exp0, positive0, f, half)
  {
    var exp, positive, resultFract: nat := exp0, positive0, f;
    if integer {
      exp := 0 - EXP_OFS;
    }
    if !integer {
      if resultFract / TWO56 % 2 != 0 {
        exp := exp + 1;
        resultFract := resultFract / 2;
      }
      if exp + EXP_OFS < EXP_MIN {
        exp := 0 - EXP_OFS;
        resultFract := 0;
        positive := true;
      }
      if half {
        resultFract := resultFract - resultFract % 0x800_0000;
      }
    } else {
      resultFract := resultFract / 2;
    }
    r := Make(exp, positive, resultFract / 256);
  }

  method Mult(a0: Float, b0: Float, m: Mode) returns (r: Float)
    ensures r == Product(a0, b0, m)
  {
    hide Q, MultResult, Correction;
    var a := if a0.rawExp == 0 then a0 else UnderflowOrValue(a0);
    var b := if b0.rawExp == 0 then b0 else UnderflowOrValue(b0);
    if a == ZERO || b == ZERO {
      return ZERO;
    }
    var correction := CorrectionFactor(m);
    var resultFract := MultiplyFractions(a.fract, b.fract);
    Complement(resultFract, Correction(m));
    resultFract := (resultFract + correction) % TWO64;
    if m.twoMinus {
      resultFract := Not64(resultFract);
    }
    r := Renormalize(a.rawExp == 0 && b.rawExp == 0, Exp(a) + Exp(b), a.neg == b.neg, resultFract, m.halfPrecision);
  }

  /** Complementing, adding and complementing again subtracts. */
  lemma Complement(s: Word, c: Word)
    ensures Not64((s + Not64(c)) % TWO64) == (c - s) % TWO64
  {
  }

  /* ----- accuracy of the product ----- */

  const TWO57: nat := 2 * TWO56
  const TWO96: nat := TWO48 * TWO48

  predicate Near(x: int, y: int, unit: nat) {
    y - unit <= x <= y + unit
  }

  /** What the fraction of the result stands for: the exact product of the
      fractions, or two less it. */
  function Exact(a: nat, b: nat, m: Mode): int {
    if m.twoMinus then TWO96 - a * b else a * b
  }

  /** The last place of the result: half precision has 19 places less. */
  function Unit(m: Mode): nat {
    if m.halfPrecision then 0x8_0000 else 1
  }

  /** Product and correction fit the 57 bits that are looked at. */
  predicate InRange(a: nat, b: nat, m: Mode) {
    if m.twoMinus then Q(a, b, 39) > Correction(m) else Q(a, b, 39) + Correction(m) < TWO57
  }

  lemma CorrectionSmall(m: Mode)
    ensures 18 <= Correction(m) < 0x300_0100 && (m.rounding ==> Correction(m) >= 210)
    ensures !m.halfPrecision ==> Correction(m) <= 210
  {
  }

  /** The low 57 bits of the raw fraction: the truncated product and the
      correction, or two less it; what is left when that does not fit is less
      than the correction. */
  lemma LowFraction(a: nat, b: nat, m: Mode)
    requires a < TWO48 && b < TWO48
    ensures var q, c, f := Q(a, b, 39), Correction(m), RawFract(a, b, m) % TWO57;
      if InRange(a, b, m) then f == (if m.twoMinus then TWO57 + c - q else q + c) else f <= c
  {
    hide Q, Correction;
    QBound(a, b);
    CorrectionSmall(m);
    LowOf(Q(a, b, 39), Correction(m));
  }

  lemma LowOf(q: nat, c: nat)
    requires q < TWO57 && c < 0x300_0100
    ensures (c - q) % TWO64 % TWO57 == if q > c then TWO57 + c - q else c - q
    ensures var s := (q + c) % TWO64 % TWO57;
      if q + c < TWO57 then s == q + c else s <= c
  {
    if q > c {
      LowBits(c - q, -1, 127, TWO57 + c - q);
    } else {
      LowBits(c - q, 0, 0, c - q);
    }
    if q + c < TWO57 {
      LowBits(q + c, 0, 0, q + c);
    } else {
      LowBits(q + c, 0, 1, q + c - TWO57);
    }
  }

  lemma LowBits(v: int, k: int, u: nat, r: nat)
    requires r < TWO57 && u < 128 && v == k * TWO64 + u * TWO57 + r
    ensures v % TWO64 % TWO57 == r
  {
    DivUnique(v, TWO64, k, u * TWO57 + r);
    DivUnique(u * TWO57 + r, TWO57, u, r);
  }

  /** In both forms it is the exact fraction in units of 2^39, and the
      correction, to within 39 units. */
  predicate Close(y: int, x: int, c: int) {
    (c - 39) * 0x80_0000_0000 <= y * 0x80_0000_0000 - x <= (c + 39) * 0x80_0000_0000
  }

  lemma LowIsClose(a: nat, b: nat, m: Mode)
    requires a < TWO48 && b < TWO48 && InRange(a, b, m)
    ensures Close(RawFract(a, b, m) % TWO57, Exact(a, b, m), Correction(m))
  {
    hide Q, Correction, RawFract;
    LowFraction(a, b, m);
    ShortBy(a, b);
  }

  lemma ShortBy(a: nat, b: nat)
    ensures 0 <= a * b - 0x80_0000_0000 * Q(a, b, 39) <= 39 * 0x80_0000_0000
  {
    hide Q, Pow2;
    QAccuracy(a, b, 39);
    Pow2At48();
  }

  /** Whatever is kept of a close fraction is close. */
  lemma KeptClose(y: nat, x: int, m: Mode, carry: bool, half: bool)
    requires Close(y, x, Correction(m)) && (half ==> m.halfPrecision)
    ensures Near(Kept(y, carry, half), x / if carry then TWO48 else TWO47, Unit(m))
    ensures m.rounding && !half ==> Kept(y, carry, half) >= x / if carry then TWO48 else TWO47
  {
    hide Correction;
    CorrectionSmall(m);
    var z := x / 0x80_0000_0000;
    assert Correction(m) - 39 <= y - z <= Correction(m) + 39;
    assert x / TWO47 == z / 256 && x / TWO48 == z / 512;
  }

  /** Only the low 57 bits matter. */
  lemma ResultOfLow(integer: bool, exp: int, positive: bool, f: Word, half: bool)
    ensures var y, carry := f % TWO57, f % TWO57 >= TWO56;
      MultResult(integer, exp, positive, f, half) ==
      if integer then Make(0 - EXP_OFS, positive, Kept(y, true, false))
      else
        var exp' := exp + if carry then 1 else 0;
        if exp' + EXP_OFS < EXP_MIN then ZERO else Make(exp', positive, Kept(y, carry, half))
  {
    hide Kept;
    BitFiftySix(f);
    var y, k := f % TWO57, f / TWO57;
    assert f == k * TWO57 + y;
    SameKept(f, k, y, integer || y >= TWO56, half && !integer);
  }

  lemma SameKept(f: nat, k: nat, y: nat, carry: bool, half: bool)
    requires f == k * TWO57 + y && y < TWO57 && (y >= TWO56 ==> carry)
    ensures Kept(f, carry, half) % TWO48 == Kept(y, carry, half) < TWO48
  {
    var u, z := if carry then k else 2 * k, if carry then y / 2 else y;
    assert (if carry then f / 2 else f) == u * TWO56 + z;
    CutOff(u, z);
    TopGone(u, if half then z - z % 0x800_0000 else z);
  }

  lemma CutOff(u: nat, z: nat)
    ensures (u * TWO56 + z) % 0x800_0000 == z % 0x800_0000
  {
    DivUnique(u * TWO56 + z, 0x800_0000, u * 0x2000_0000 + z / 0x800_0000, z % 0x800_0000);
  }

  lemma TopGone(u: nat, z: nat)
    requires z < TWO56
    ensures (u * TWO56 + z) / 256 % TWO48 == z / 256 < TWO48
  {
    DivUnique(u * TWO56 + z, 256, u * TWO48 + z / 256, z % 256);
    DivUnique(u * TWO48 + z / 256, TWO48, u, z / 256);
  }

  lemma BitFiftySix(f: nat)
    ensures f / TWO56 % 2 == 1 <==> f % TWO57 >= TWO56
  {
  }

  /** The fraction kept is the exact one to within one unit exactly when product
      and correction fit; otherwise next to nothing is kept. */
  lemma FractionAccuracy(a: nat, b: nat, m: Mode, carry: bool, half: bool)
    requires a < TWO48 && b < TWO48 && (half ==> m.halfPrecision)
    ensures var k, x := Kept(RawFract(a, b, m) % TWO57, carry, half), Exact(a, b, m) / if carry then TWO48 else TWO47;
      && (InRange(a, b, m) <==> Near(k, x, Unit(m)))
      && (InRange(a, b, m) && m.rounding && !half ==> k >= x)
      && (!InRange(a, b, m) ==> k < Unit(m) && (half ==> k == 0))
  {
    hide Q, Correction, RawFract, InRange, Exact;
    var y := RawFract(a, b, m) % TWO57;
    if InRange(a, b, m) {
      LowIsClose(a, b, m);
      KeptClose(y, Exact(a, b, m), m, carry, half);
    } else {
      LowFraction(a, b, m);
      CorrectionSmall(m);
      ExactIsLarge(a, b, m);
    }
  }

  /** Out of range, the exact fraction is close to its maximum. */
  lemma ExactIsLarge(a: nat, b: nat, m: Mode)
    requires a < TWO48 && b < TWO48 && !InRange(a, b, m)
    ensures Exact(a, b, m) >= TWO96 / 2
  {
    hide Q, Correction;
    ShortBy(a, b);
    CorrectionSmall(m);
  }

  /** In plain and rounded multiplications the fraction always fits. */
  lemma PlainFits(a: nat, b: nat, m: Mode)
    requires a < TWO48 && b < TWO48 && !m.halfPrecision && !m.twoMinus
    ensures InRange(a, b, m)
  {
    hide Q, Correction;
    QBound(a, b);
    CorrectionSmall(m);
  }

  /** r has the fraction of the exact result, one place less with a carry. */
  predicate HasFraction(r: Float, a: Float, b: Float, m: Mode, carry: bool) {
    Near(r.fract, Exact(a.fract, b.fract, m) / if carry then TWO48 else TWO47, Unit(m))
  }

  /** Bit 56 of the raw fraction. */
  predicate Carry(a: nat, b: nat, m: Mode) {
    RawFract(a, b, m) % TWO57 >= TWO56
  }

  /** It is set when the exact fraction, corrected, is at least one half. */
  lemma CarryIsHalf(a: nat, b: nat, m: Mode)
    requires a < TWO48 && b < TWO48 && InRange(a, b, m)
    ensures var x, c := Exact(a, b, m), Correction(m);
      && (x + (c - 39) * 0x80_0000_0000 >= TWO96 / 2 ==> Carry(a, b, m))
      && (x + (c + 39) * 0x80_0000_0000 < TWO96 / 2 ==> !Carry(a, b, m))
  {
    hide Q, Correction, RawFract, InRange, Exact;
    LowIsClose(a, b, m);
  }

  /** The result for any two numbers and any mode: what is zero, and else sign,
      exponent, and when the fraction is that of the exact result. */
  lemma ProductAccuracy(a0: Float, b0: Float, m: Mode)
    ensures var a, b, r := MultOperand(a0), MultOperand(b0), Product(a0, b0, m);
      var carry := Carry(a.fract, b.fract, m);
      var integer, exp := a.rawExp == b.rawExp == 0, Exp(a) + Exp(b) + (if carry then 1 else 0) + EXP_OFS;
      if a == ZERO || b == ZERO || (!integer && exp < EXP_MIN) then r == ZERO
      else
        && r.neg == (a.neg != b.neg)
        && r.rawExp == (if integer then 0 else exp % TWO15)
        && (InRange(a.fract, b.fract, m) <==> HasFraction(r, a, b, m, integer || carry))
        && (InRange(a.fract, b.fract, m) && m.rounding && !m.halfPrecision ==>
              r.fract >= Exact(a.fract, b.fract, m) / if integer || carry then TWO48 else TWO47)
        && (!InRange(a.fract, b.fract, m) ==> if integer then r.fract < Unit(m) else r.fract == 0)
  {
    hide Q, RawFract, MultResult, InRange, Exact, Near, Kept, UnderflowOrValue;
    var a, b := MultOperand(a0), MultOperand(b0);
    var f, integer := RawFract(a.fract, b.fract, m), a.rawExp == b.rawExp == 0;
    var carry := f % TWO57 >= TWO56;
    ResultOfLow(integer, Exp(a) + Exp(b), a.neg == b.neg, f, m.halfPrecision);
    SameKept(f, f / TWO57, f % TWO57, integer || carry, m.halfPrecision && !integer);
    FractionAccuracy(a.fract, b.fract, m, integer || carry, m.halfPrecision && !integer);
  }

  /** In half precision the rounding of fractions close to one does not fit, and
      nothing is left of the product. */
  lemma HalfPrecisionLost(a: Float, b: Float, m: Mode)
    requires a.rawExp > 0 && a.fract == b.fract == TWO48 - 1 && m.halfPrecision && !m.twoMinus
    ensures Product(a, b, m).fract == 0
  {
    hide Q, Product, Exact, Near;
    ShortBy(a.fract, b.fract);
    ProductAccuracy(a, b, m);
  }

  /** In the two-minus form a product below the smallest correction leaves
      nothing, not the two. */
  lemma TwoMinusLost(a: Float, b: Float, m: Mode)
    requires m.twoMinus && (m.halfPrecision ==> a.rawExp > 0) && a.fract * b.fract < 18 * 0x80_0000_0000
    ensures Product(a, b, m).fract == 0
  {
    hide Q, Product, Exact, Near;
    ShortBy(a.fract, b.fract);
    CorrectionSmall(m);
    ProductAccuracy(a, b, m);
  }

  /* ----- what the correction does ----- */

  /** What the product must reach above a multiple of the last place to be
      counted up: all but this many units. */
  function Headroom(m: Mode): nat {
    if m.halfPrecision then (if m.rounding then 0x300_00D2 else 0x300_0012)
    else if m.rounding then 210 else 18
  }

  /** The units of the raw fraction in the last place kept. */
  function LastPlace(carry: bool, half: bool): nat {
    if half then (if carry then 0x1000_0000 else 0x800_0000) else if carry then 512 else 256
  }

  /** Except in the two-minus form: the fraction is the truncated product in
      whole last places, one more when what is left of it reaches the headroom. */
  lemma RoundsUp(q: nat, m: Mode, carry: bool)
    ensures var u := LastPlace(carry, m.halfPrecision);
      Kept(q + Correction(m), carry, m.halfPrecision)
      == (q / u + if q % u + Headroom(m) >= u then 1 else 0) * Unit(m)
  {
    hide Kept;
    var u, c := LastPlace(carry, m.halfPrecision), Correction(m);
    assert c == Headroom(m) < u;
    WholePlaces(q + c, carry, m.halfPrecision);
    DivMod(q, u);
    if q % u + c >= u {
      DivUnique(q + c, u, q / u + 1, q % u + c - u);
    } else {
      DivUnique(q + c, u, q / u, q % u + c);
    }
  }

  lemma WholePlaces(f: nat, carry: bool, half: bool)
    ensures Kept(f, carry, half) == f / LastPlace(carry, half) * if half then 0x8_0000 else 1
  {
  }

  lemma {:induction false} QShifted(a: nat, b: nat, n: nat)
    ensures Q(a, Pow2(n) * b, n) == a * b
    decreases n
  {
    if n == 0 {
      assert Pow2(0) * b == b;
    } else {
      assert Pow2(n) * b == 2 * (Pow2(n - 1) * b);
      QShifted(a, b, n - 1);
    }
  }

  /** One is neutral. */
  lemma TimesOne(a: Float, m: Mode)
    requires a.rawExp >= 0x2000 && !m.halfPrecision && !m.twoMinus
    ensures Product(a, ONE, m) == a
  {
    hide Q, Correction, MultResult, Kept, Pow2, RawFract;
    var f := 256 * a.fract + Correction(m);
    RawOne(a.fract, m);
    CorrectionSmall(m);
    ResultOfLow(false, Exp(a), !a.neg, f, false);
    KeptWhole(a.fract, Correction(m));
  }

  lemma RawOne(a: nat, m: Mode)
    requires a < TWO48 && !m.halfPrecision && !m.twoMinus
    ensures RawFract(a, TWO47, m) == 256 * a + Correction(m) < TWO56
  {
    hide Q, Correction, Pow2;
    Pow2At48();
    QShifted(a, 256, 39);
    CorrectionSmall(m);
  }

  lemma KeptWhole(x: nat, c: nat)
    requires c < 256
    ensures Kept(256 * x + c, false, false) == x
  {
  }

  /** Two numbers without exponent are integers: their product is one too.  A
      number with an exponent below the smallest one makes the product zero. */
  lemma OperandRanges(a: Float, b: Float, m: Mode)
    ensures a.rawExp == b.rawExp == 0 && a != ZERO && b != ZERO ==>
              var r := Product(a, b, m);
              && r.rawExp == 0 && r.neg == (a.neg != b.neg)
              && (InRange(a.fract, b.fract, m) <==> HasFraction(r, a, b, m, true))
    ensures 0 < a.rawExp < 0x2000 ==> Product(a, b, m) == ZERO && Product(b, a, m) == ZERO
  {
    hide Q, InRange, HasFraction, MultResult, Product;
    ProductAccuracy(a, b, m);
    ProductAccuracy(b, a, m);
  }
}
