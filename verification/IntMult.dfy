/** The 32-bit integer multiplication of the simulated CPU (instruction 0166):
    a shift-and-add routine in 64-bit registers, and the simple formula it
    stands for. */
module IntMult {
  import opened Bits
  import opened TruncMult

  const TWO17: nat := 0x2_0000
  const TWO31: nat := 0x8000_0000
  const TWO63: nat := 0x8000_0000_0000_0000

  /* ----- the first loop ----- */

  /** The places of v that are still to come, moved up to the top. */
  function Rest(v: nat, r: nat): nat
    requires r <= 49
  {
    hide Pow2;
    v % Pow2(49 - r) * Pow2(15 + r)
  }

  lemma SplitTop(v: nat, k: nat)
    ensures v % Pow2(k + 1) == Shr(v, k) % 2 * Pow2(k) + v % Pow2(k)
  {
    hide Pow2;
    Powers();
    Pow2Add(k, 1);
    DivDiv(v, Pow2(k), 2);
  }

  /** Shifting up by one: the top place leaves the register. */
  lemma ShiftUp(v: nat, r: nat)
    requires r <= 48
    ensures 2 * Rest(v, r) % TWO64 == Rest(v, r + 1) < TWO64
  {
    hide Pow2;
    var k := 48 - r;
    SplitTop(v, k);
    Powers();
    Pow2Add(1, 15 + r);
    Pow2Add(k, 16 + r);
    Pow2At64();
    ShiftUpStep(Shr(v, k) % 2, Pow2(k), v % Pow2(k), Pow2(16 + r));
    assert 2 * (v % Pow2(k + 1) * Pow2(15 + r)) == v % Pow2(k + 1) * (2 * Pow2(15 + r));
  }

  lemma ShiftUpStep(bit: nat, p: nat, low: nat, q: nat)
    requires p * q == TWO64 && low < p && q > 0
    ensures (bit * p + low) * q % TWO64 == low * q < TWO64
  {
    MulMono(low + 1, p, q);
    assert (low + 1) * q == low * q + q;
    assert (bit * p + low) * q == bit * (p * q) + low * q;
    DivUnique((bit * p + low) * q, TWO64, bit, low * q);
  }

  /** The sign of the shifted register is the next place of v. */
  lemma SignIsPlace(v: nat, r: nat)
    requires r < 48
    ensures Rest(v, r + 1) >= TWO63 <==> Shr(v, 47 - r) % 2 == 1
  {
    hide Pow2;
    var k := 47 - r;
    SplitTop(v, k);
    Powers();
    Pow2Add(1, k);
    Pow2Add(1 + k, 16 + r);
    Pow2At64();
    SignStep(Shr(v, k) % 2, Pow2(k), v % Pow2(k), Pow2(16 + r));
  }

  lemma SignStep(bit: nat, p: nat, low: nat, q: nat)
    requires bit < 2 && 2 * p * q == TWO64 && low < p && q > 0
    ensures (bit * p + low) * q >= TWO63 <==> bit == 1
  {
    assert p * q == TWO63;
    MulMono(low + 1, p, q);
    assert (low + 1) * q == low * q + q;
    assert (bit * p + low) * q == bit * (p * q) + low * q;
  }

  /** Nothing is left: the sum is complete. */
  lemma AddedAll(a: nat, v: nat, r: nat, sum: nat)
    requires r <= 48 && Added(a, v, r, sum) && Rest(v, r + 1) == 0
    ensures sum == Q(a, v, 47)
  {
    hide Pow2, Q;
    var k := 48 - r;
    assert v % Pow2(k) == 0 by {
      if v % Pow2(k) > 0 {
        MulMono(1, v % Pow2(k), Pow2(16 + r));
      }
    }
    assert v == Pow2(k) * Shr(v, k);
    if r == 0 {
      Pow2At48();
      DivBound(v, Pow2(48), 1);
      assert v == 0;
      QZero(a, 47);
    } else {
      QShifted(a, Shr(v, k), r - 1, k);
    }
  }

  lemma {:induction false} QShifted(a: nat, y: nat, m: nat, k: nat)
    ensures Q(a, Pow2(k) * y, m + k) == Q(a, y, m)
    decreases k
  {
    if k == 0 {
      assert Pow2(0) * y == y;
    } else {
      var z := Pow2(k - 1) * y;
      assert Pow2(k) * y == 2 * z;
      QShifted(a, y, m, k - 1);
    }
  }

  /** The first loop: from register S4 = v << 15 and S3 = s << 7. */
  method LowProduct(s: nat, v: nat) returns (sum: Word)
    requires s < TWO48 && v < TWO48
    ensures sum == 9 + Q(128 * s, v, 47)
  {
    hide Pow2, Q, Shr, Rest, Added;
    var s3: Word, s4: Word, s5: Word := s * 128 % TWO64, v * 0x8000 % TWO64, 9;
    FirstRest(v);
    assert Added(128 * s, v, 0, 0) by { NothingAdded(128 * s, v); }
    ShrNone(128 * s);
    ghost var r := 0;
    while true
      invariant r <= 48 && s4 == Rest(v, r) && s3 == Shr(128 * s, r)
      invariant s5 >= 9 && Added(128 * s, v, r, s5 - 9)
      decreases 48 - r
    {
      ShiftUp(v, r);
      s4 := 2 * s4 % TWO64;
      var s0 := s4;
      if r < 48 {
        SignIsPlace(v, r);
        AddedNext(128 * s, v, r, s5 - 9);
      } else {
        RestGone(v);
      }
      if s0 >= TWO63 {
        AddedBound(128 * s, v, r + 1, s5 - 9 + s3, 0x80_0000_0000_0000);
        s5 := (s5 + s3) % TWO64;
      }
      Halve(128 * s, r);
      s3 := s3 / 2;
      if s0 == 0 {
        if r < 48 {
          RestStays(v, r);
          AddedAll(128 * s, v, r + 1, s5 - 9);
        } else {
          AddedAll(128 * s, v, r, s5 - 9);
        }
        break;
      }
      r := r + 1;
    }
    sum := s5;
  }

  lemma FirstRest(v: nat)
    requires v < TWO48
    ensures v * 0x8000 % TWO64 == Rest(v, 0)
  {
    hide Pow2;
    BigPowers();
    Pow2At48();
    Powers();
    Pow2Add(48, 1);
  }

  lemma RestGone(v: nat)
    ensures Rest(v, 49) == 0
  {
    Powers();
  }

  lemma RestStays(v: nat, r: nat)
    requires r < 48 && Rest(v, r + 1) == 0
    ensures Rest(v, r + 2) == 0
  {
    hide Pow2;
    ShiftUp(v, r + 1);
  }

  /* ----- the second loop ----- */

  /** After i steps: S3 has been doubled, S4 halved i times, and the i low
      places of v have added their share. */
  ghost predicate Stepped(h: nat, v: nat, i: nat, s3: nat, s4: nat, s6: nat) {
    hide Pow2;
    i <= 15 && s3 == h * Pow2(i) < TWO63 && s4 == Shr(v, i) && s6 == h * (v % Pow2(i)) < TWO63
  }

  /** 15 steps: S6 = S3 * S4, both of 15 bits. */
  method HighProduct(h: nat, v: nat) returns (s6: Word)
    requires h < TWO15 && v < TWO15
    ensures s6 == h * v
  {
    hide Stepped;
    var s3: Word, s4: Word := h, v;
    s6 := 0;
    var a6 := 15;
    SteppedFirst(h, v);
    while a6 != 0
      invariant 0 <= a6 <= 15 && Stepped(h, v, 15 - a6, s3, s4, s6)
    {
      SteppedNext(h, v, 15 - a6, s3, s4, s6);
      var s0 := s4 % 2 * TWO63;
      s4 := s4 / 2;
      if s0 >= TWO63 {
        s6 := (s6 + s3) % TWO64;
      }
      s3 := 2 * s3 % TWO64;
      a6 := a6 - 1;
    }
    SteppedLast(h, v, s3, s4, s6);
  }

  lemma SteppedFirst(h: nat, v: nat)
    requires h < TWO15
    ensures Stepped(h, v, 0, h, v, 0)
  {
    Powers();
  }

  lemma SteppedLast(h: nat, v: nat, s3: nat, s4: nat, s6: nat)
    requires v < TWO15 && Stepped(h, v, 15, s3, s4, s6)
    ensures s6 == h * v
  {
    hide Pow2;
    BigPowers();
  }

  lemma SteppedNext(h: nat, v: nat, i: nat, s3: nat, s4: nat, s6: nat)
    requires h < TWO15 && v < TWO15 && i < 15 && Stepped(h, v, i, s3, s4, s6)
    ensures Stepped(h, v, i + 1, 2 * s3 % TWO64, s4 / 2,
              if s4 % 2 * TWO63 >= TWO63 then (s6 + s3) % TWO64 else s6)
  {
    hide Pow2;
    Powers();
    Halve(v, i);
    SplitTop(v, i);
    Pow2Add(1, i);
    BigPowers();
    Pow2Add(i + 1, 14 - i);
    MulMono(1, Pow2(14 - i), Pow2(i + 1));
    assert v % Pow2(i + 1) < Pow2(i + 1);
    HighBound(h, Pow2(i), v % Pow2(i), Shr(v, i) % 2);
  }

  lemma HighBound(h: nat, p: nat, low: nat, bit: nat)
    requires h < TWO15 && 0 < 2 * p <= TWO15 && low < p && bit < 2
    ensures h * (2 * p) == 2 * (h * p) < TWO63 && h * low + h * p < TWO63
    ensures h * (bit * p + low) == h * low + (if bit == 1 then h * p else 0)
  {
    MulMono(h, TWO15, p);
    MulMono(low, p, h);
    assert h * low <= h * p;
  }

  /* ----- the routine ----- */

  /** What the routine computes, for any registers. */
  function Routine(scalar: Word, vector: Word): nat {
    ((9 + Q(128 * (scalar % TWO48), vector % TWO48, 47)) / 128
     + scalar / TWO48 % TWO15 * (vector / 0x1_0000 % TWO15) * TWO17) % TWO32
  }

  method IntMult(scalar: Word, vector: Word) returns (r: Word)
    ensures r == Routine(scalar, vector)
  {
    hide Q, Pow2;
    var s5 := LowProduct(scalar % TWO48, vector % TWO48);
    s5 := s5 / 128;
    var s3, s4 := scalar / TWO48 % TWO15, vector / 0x1_0000 % TWO15;
    var s6 := HighProduct(s3, s4);
    SmallHigh(s3, s4);
    Finish(s5, s6);
    s6 := s6 * TWO17 % TWO64;
    r := (s5 + s6) % TWO64 % TWO32;
  }

  lemma Finish(s5: Word, p: nat)
    requires p < TWO15 * TWO15
    ensures (s5 + p * TWO17 % TWO64) % TWO64 % TWO32 == (s5 + p * TWO17) % TWO32
  {
    Wraps(s5 + p * TWO17);
  }

  lemma SmallHigh(h: nat, v: nat)
    requires h < TWO15 && v < TWO15
    ensures 0 <= h * v < TWO15 * TWO15
  {
    MulMono(h, TWO15 - 1, v);
    MulMono(v, TWO15 - 1, TWO15 - 1);
  }

  lemma Wraps(x: nat)
    ensures x % TWO64 % TWO32 == x % TWO32
  {
    DivDiv(x, TWO32, TWO32);
  }

  /** For operands shifted as the instruction asks for, it is the product. */
  lemma RoutineIsProduct(x: nat, y: nat)
    requires x < 2 * TWO32 && y < TWO48
    ensures x * TWO31 < TWO64 && y * 0x1_0000 < TWO64
    ensures Routine(x * TWO31, y * 0x1_0000) == x * y % TWO32
  {
    hide Q, Pow2;
    var xl, yl := x % TWO17, y % TWO32;
    ShiftedLow(x, y);
    LowExact(xl, yl);
    assert x * TWO31 / TWO48 == x / TWO17;
    assert y * 0x1_0000 / 0x1_0000 == y;
    Recombine(x, y);
  }

  lemma ShiftedLow(x: nat, y: nat)
    ensures x * TWO31 % TWO48 == x % TWO17 * TWO31 && y * 0x1_0000 % TWO48 == y % TWO32 * 0x1_0000
  {
    DivUnique(x * TWO31, TWO48, x / TWO17, x % TWO17 * TWO31);
    DivUnique(y * 0x1_0000, TWO48, y / TWO32, y % TWO32 * 0x1_0000);
  }

  /** The seed 9 and the truncations vanish. */
  lemma LowExact(xl: nat, yl: nat)
    ensures (9 + Q(128 * (xl * TWO31), yl * 0x1_0000, 47)) / 128 == xl * yl
  {
    hide Q, Pow2;
    Powers();
    BigPowers();
    var a, b := xl * TWO31, yl * 0x1_0000;
    QTimes(a, b, 40, 7);
    QTimes(xl, b, 9, 31);
    QCommutes(xl, b, 9);
    QTimes(128 * yl, xl, 0, 9);
    assert b == 0x200 * (128 * yl);
    QNone(128 * yl, xl);
    assert 128 * yl * xl == 128 * (xl * yl);
  }

  lemma QNone(a: nat, b: nat)
    ensures Q(a, b, 0) == a * b
  {
  }

  /** The low 17 and high bits of x give the product back, modulo 2^32. */
  lemma Recombine(x: nat, y: nat)
    ensures (x % TWO17 * (y % TWO32) + x / TWO17 % TWO15 * (y % TWO15) * TWO17) % TWO32 == x * y % TWO32
  {
    var xl, hm, ht := x % TWO17, x / TWO17 % TWO15, x / TWO17 / TWO15;
    assert x == xl + (hm + ht * TWO15) * TWO17;
    RecombineParts(x, xl, hm, ht, y);
  }

  lemma RecombineParts(x: nat, xl: nat, hm: nat, ht: nat, y: nat)
    requires x == xl + (hm + ht * TWO15) * TWO17
    ensures (xl * (y % TWO32) + hm * (y % TWO15) * TWO17) % TWO32 == x * y % TWO32
  {
    Parts(x, xl, hm, ht, y);
    Cross(xl, y, y % TWO32, y / TWO32, TWO32);
    Cross(hm, y, y % TWO15, y / TWO15, TWO15);
    Gather(x * y, xl * y, hm * y, ht * y, xl * (y % TWO32), xl * (y / TWO32), hm * (y % TWO15), hm * (y / TWO15));
  }

  lemma Parts(x: nat, xl: nat, hm: nat, ht: nat, y: nat)
    requires x == xl + (hm + ht * TWO15) * TWO17
    ensures x * y == xl * y + hm * y * TWO17 + ht * y * TWO32
  {
    assert (hm * TWO17) * y == hm * y * TWO17;
    assert (ht * TWO32) * y == ht * y * TWO32;
    assert (xl + hm * TWO17 + ht * TWO32) * y == xl * y + (hm * TWO17) * y + (ht * TWO32) * y;
  }

  lemma Gather(xy: nat, xly: nat, hmy: nat, hty: nat, a: nat, b: nat, c: nat, d: nat)
    requires xy == xly + hmy * TWO17 + hty * TWO32 && xly == a + b * TWO32 && hmy == c + d * TWO15
    ensures (a + c * TWO17) % TWO32 == xy % TWO32
  {
    AddWraps(a + c * TWO17, b + d + hty);
  }

  lemma Cross(a: nat, y: nat, low: nat, high: nat, w: nat)
    requires y == low + high * w
    ensures a * y == a * low + a * high * w
  {
    assert a * (low + high * w) == a * low + a * (high * w);
    assert a * (high * w) == a * high * w;
  }

  lemma AddWraps(x: nat, k: nat)
    ensures (x + k * TWO32) % TWO32 == x % TWO32
  {
    DivUnique(x + k * TWO32, TWO32, x / TWO32 + k, x % TWO32);
  }
}
