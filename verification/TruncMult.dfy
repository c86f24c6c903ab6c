/** Truncated shift-and-add multiplication: the sum of the bit pairs of two
    numbers whose places add up to at least m, in units of 2^m. */
module TruncMult {
  import opened Bits

  const TWO47: nat := 0x8000_0000_0000
  const TWO48: nat := 0x1_0000_0000_0000

  /* ----- the bit pairs ----- */

  /** Sum of 2^(k - m) over the places k >= m where a has a one. */
  function Row(a: nat, m: int): nat {
    if a == 0 then 0
    else (if a % 2 == 1 && m <= 0 then Pow2(-m) else 0) + Row(a / 2, m - 1)
  }

  /** Sum of 2^(j + k - m) over the pairs of ones, place j of b and place k of
      a, with j + k >= m. */
  function PairSum(a: nat, b: nat, m: int): nat {
    if b == 0 then 0
    else (if b % 2 == 1 then Row(a, m) else 0) + PairSum(a, b / 2, m - 1)
  }

  /* ----- the same as shifts and adds ----- */

  /** Every one of b, from the lowest place on, adds a shifted by one less. */
  function Q(a: nat, b: nat, m: nat): nat
    decreases m
  {
    if m == 0 then a * b else (if b % 2 == 1 then Shr(a, m) else 0) + Q(a, b / 2, m - 1)
  }

  lemma HalfPow(a: nat, m: nat)
    requires m > 0
    ensures Shr(a, m) == Shr(a / 2, m - 1)
  {
    DivDiv(a, 2, Pow2(m - 1));
  }

  lemma {:induction false} RowUp(a: nat, n: nat)
    ensures Row(a, 0 - n) == a * Pow2(n)
    decreases a
  {
    if a > 0 {
      RowUp(a / 2, n + 1);
      assert a == 2 * (a / 2) + a % 2;
      assert a / 2 * (2 * Pow2(n)) == 2 * (a / 2) * Pow2(n);
      assert (2 * (a / 2) + a % 2) * Pow2(n) == 2 * (a / 2) * Pow2(n) + a % 2 * Pow2(n);
    }
  }

  lemma {:induction false} RowDown(a: nat, m: nat)
    ensures Row(a, m) == Shr(a, m)
    decreases a
  {
    if m == 0 {
      RowUp(a, 0);
    } else if a > 0 {
      RowDown(a / 2, m - 1);
      HalfPow(a, m);
    }
  }

  lemma {:induction false} PairsUp(a: nat, b: nat, n: nat)
    ensures PairSum(a, b, 0 - n) == a * b * Pow2(n)
    decreases b
  {
    if b > 0 {
      RowUp(a, n);
      PairsUp(a, b / 2, n + 1);
      UpStep(a, b / 2, b % 2, Pow2(n));
    }
  }

  lemma UpStep(a: nat, h: nat, r: nat, p: nat)
    ensures a * (2 * h + r) * p == a * h * (2 * p) + a * r * p
  {
    var x := a * h;
    assert a * (2 * h + r) == 2 * x + a * r;
    assert (2 * x + a * r) * p == 2 * x * p + a * r * p;
    assert x * (2 * p) == 2 * x * p;
  }

  /** Shifting and adding sums exactly the bit pairs from place m on. */
  lemma {:induction false} QIsPairSum(a: nat, b: nat, m: nat)
    ensures Q(a, b, m) == PairSum(a, b, m)
    decreases m
  {
    if m == 0 {
      PairsUp(a, b, 0);
    } else {
      RowDown(a, m);
      if b == 0 {
        QZero(a, m);
      } else {
        QIsPairSum(a, b / 2, m - 1);
      }
    }
  }

  lemma {:induction false} QZero(a: nat, m: nat)
    ensures Q(a, 0, m) == 0
  {
    if m > 0 {
      QZero(a, m - 1);
    }
  }

  /* ----- commutativity ----- */

  /** Taking the lowest place of a out instead of that of b. */
  lemma {:induction false} PeelLeft(a: nat, b: nat, m: nat)
    requires m > 0
    ensures Q(a, b, m) == (if a % 2 == 1 then Shr(b, m) else 0) + Q(a / 2, b, m - 1)
    decreases m
  {
    HalfPow(a, m);
    HalfPow(b, m);
    if m == 1 {
      var h, k := a / 2, b / 2;
      assert Pow2(1) == 2 && Pow2(0) == 1;
      assert Q(a, b, 1) == (if b % 2 == 1 then h else 0) + a * k;
      assert a * k == 2 * h * k + a % 2 * k by {
        assert (2 * h + a % 2) * k == 2 * h * k + a % 2 * k;
      }
      assert h * b == 2 * h * k + h * (b % 2) by {
        assert h * (2 * k + b % 2) == 2 * h * k + h * (b % 2);
      }
    } else {
      PeelLeft(a, b / 2, m - 1);
    }
  }

  /** The truncated product does not depend on the order of its factors. */
  lemma {:induction false} QCommutes(a: nat, b: nat, m: nat)
    ensures Q(a, b, m) == Q(b, a, m)
    decreases m
  {
    if m > 0 {
      PeelLeft(a, b, m);
      QCommutes(a / 2, b, m - 1);
    }
  }

  /* ----- accuracy ----- */

  /** It never exceeds the product and falls short of it by at most m. */
  lemma {:induction false} QAccuracy(a: nat, b: nat, m: nat)
    ensures 0 <= a * b - Pow2(m) * Q(a, b, m) <= m * Pow2(m)
    decreases m
  {
    if m > 0 {
      QAccuracy(a, b / 2, m - 1);
      AccuracyStep(a, b / 2, b % 2, Pow2(m - 1), Q(a, b / 2, m - 1), m);
    }
  }

  lemma AccuracyStep(a: nat, h: nat, r: nat, p: nat, q: nat, m: nat)
    requires r < 2 && p > 0 && m > 0
    requires 0 <= a * h - p * q <= (m - 1) * p
    ensures var s := (if r == 1 then a / (2 * p) else 0) + q;
      0 <= a * (2 * h + r) - 2 * p * s <= m * (2 * p)
  {
    var d := 2 * p;
    var x := a / d;
    assert d * x <= a < d * x + d by {
      assert a == d * x + a % d;
    }
    assert a * (2 * h + r) == 2 * (a * h) + a * r;
    assert d * q == 2 * (p * q);
    assert m * d == 2 * ((m - 1) * p) + d;
    assert d * (x + q) == d * x + d * q;
  }

  /** Doubling a is the same as keeping one place less. */
  lemma {:induction false} QDouble(a: nat, b: nat, m: nat)
    requires m > 0
    ensures Q(2 * a, b, m) == Q(a, b, m - 1)
    decreases m
  {
    HalfPow(2 * a, m);
    if m == 1 {
      assert Pow2(0) == 1;
      assert 2 * a * (b / 2) + a * (b % 2) == a * b by {
        assert a * (2 * (b / 2) + b % 2) == 2 * a * (b / 2) + a * (b % 2);
      }
    } else {
      QDouble(a, b / 2, m - 1);
    }
  }

  /* ----- the 48-step loops ----- */

  /** The powers of two that the multipliers need. */
  lemma Powers()
    ensures Pow2(0) == 1 && Pow2(1) == 2 && Pow2(7) == 0x80 && Pow2(8) == 0x100 && Pow2(9) == 0x200
  {
  }

  lemma BigPowers()
    ensures Pow2(15) == 0x8000 && Pow2(16) == 0x1_0000 && Pow2(31) == 0x8000_0000
  {
    hide Pow2;
    Powers();
    var o, s, h := 8, 7, 16;
    Pow2Add(o, o);
    Pow2Add(o, s);
    Pow2Add(h, o + s);
  }

  lemma Pow2At48()
    ensures Pow2(39) == 0x80_0000_0000 && Pow2(47) == TWO47 && Pow2(48) == TWO48
  {
    hide Pow2;
    Powers();
    BigPowers();
    var e, s := 31, 39;
    Pow2Add(e, 8);
    Pow2Add(s, 8);
    Pow2Add(s + 8, 1);
  }

  lemma Halve(x: nat, n: nat)
    ensures Shr(x, n) / 2 == Shr(x, n + 1)
  {
    hide Pow2;
    Powers();
    Pow2Add(n, 1);
    DivDiv(x, Pow2(n), 2);
  }

  lemma NothingAdded(a: nat, v: nat)
    requires v < TWO48
    ensures Added(a, v, 0, 0)
  {
  }

  lemma ShrNone(x: nat)
    ensures Shr(x, 0) == x
  {
    Powers();
  }

  /** A multiplier that runs over the 48 places of v from the top: the top r have
      added their share of a. */
  ghost predicate Added(a: nat, v: nat, r: nat, sum: nat) {
    r <= 48 && v < TWO48 && sum == if r == 0 then 0 else Q(a, Shr(v, 48 - r), r - 1)
  }

  lemma AddedNext(a: nat, v: nat, r: nat, sum: nat)
    requires r < 48 && Added(a, v, r, sum)
    ensures Added(a, v, r + 1, sum + if Shr(v, 47 - r) % 2 == 1 then Shr(a, r) else 0)
  {
    Powers();
    Halve(v, 47 - r);
    if r == 0 {
      Pow2At48();
      DivBound(v, Pow2(47), 2);
    }
  }

  lemma {:induction false} QTimes(a: nat, b: nat, m: nat, n: nat)
    ensures Q(Pow2(n) * a, b, m + n) == Q(a, b, m)
    decreases n
  {
    if n == 0 {
      assert Pow2(0) * a == a;
    } else {
      assert Pow2(n) * a == 2 * (Pow2(n - 1) * a);
      QDouble(Pow2(n - 1) * a, b, m + n);
      QTimes(a, b, m, n - 1);
    }
  }

  lemma TopPlaces(v: nat, r: nat)
    requires v < TWO48 && 0 < r <= 48
    ensures Shr(v, 48 - r) < 2 * Pow2(r - 1)
  {
    hide Pow2;
    Pow2At48();
    Powers();
    Pow2Add(48 - r, r);
    Pow2Add(1, r - 1);
    DivBound(v, Pow2(48 - r), Pow2(r));
  }

  lemma QAtMost(a: nat, b: nat, m: nat)
    ensures Pow2(m) * Q(a, b, m) <= a * b
  {
    QAccuracy(a, b, m);
  }

  lemma BoundStep(x: nat, y: nat, p: nat, q: nat, top: nat)
    requires x < top && y < 2 * p && p * q <= x * y
    ensures q < 2 * top
  {
    MulMono(x, top, y);
    MulMono(y, 2 * p - 1, top);
    assert 2 * top * p == top * (2 * p);
    assert top * (2 * p - 1) == top * (2 * p) - top;
    if q >= 2 * top {
      MulMono(2 * top, q, p);
      assert false;
    }
  }

  /** The partial sums stay below twice any bound on a. */
  lemma AddedBound(a: nat, v: nat, r: nat, sum: nat, top: nat)
    requires a < top && Added(a, v, r, sum)
    ensures sum < 2 * top
  {
    hide Pow2, Q, Shr;
    if r > 0 {
      TopPlaces(v, r);
      QAtMost(a, Shr(v, 48 - r), r - 1);
      BoundStep(a, Shr(v, 48 - r), Pow2(r - 1), sum, top);
    }
  }

  /* ----- FractionalMult ----- */

  /** FractionalMult, with 64-bit wrap-around: each of the n low places of a,
      place i, adds b shifted down by n - 1 - i. */
  method FractionalMult(a: Word, b: Word, n: nat) returns (r: Word)
    requires n <= 64
    ensures r == if n == 0 then 0 else Q(b, a % Pow2(n), n - 1) % TWO64
  {
    hide Q;
    r := 0;
    ghost var low := a % Pow2(n);
    assert Shr(low, 0) == low by { assert Pow2(0) == 1; }
    for i := 0 to n
      invariant Remaining(r, low, b, n, i)
    {
      PlaceOf(a, n, i);
      var term := if Shr(a, i) % 2 == 1 then Shr(b, n - 1 - i) else 0;
      FractionalStep(low, b, n, i, r, term);
      r := (r + term) % TWO64;
    }
  }

  /** The places of low from i on are still to be added to r. */
  ghost predicate Remaining(r: nat, low: nat, b: nat, n: nat, i: nat) {
    && i <= n && low < Pow2(n)
    && (n == 0 ==> r == 0)
    && (n > 0 ==> (if i < n then r + Q(b, Shr(low, i), n - 1 - i) else r) % TWO64 == Q(b, low, n - 1) % TWO64)
  }

  /** A place below n is the same in a and in its n low places. */
  lemma PlaceOf(a: nat, n: nat, i: nat)
    requires i < n
    ensures Shr(a, i) % 2 == Shr(a % Pow2(n), i) % 2
  {
    var g := Pow2(n - 1 - i);
    FieldBelow(a, Pow2(i), 2, g);
    Pow2Add(i, 1);
    assert Pow2(1) == 2;
    Pow2Add(i + 1, n - 1 - i);
  }

  lemma AddTermWraps(r: nat, term: nat, q: nat, q': nat)
    requires q == term + q'
    ensures ((r + term) % TWO64 + q') % TWO64 == (r + q) % TWO64
  {
  }

  /** What place i of low adds. */
  lemma PlaceAdds(low: nat, b: nat, n: nat, i: nat)
    requires i < n && low < Pow2(n)
    ensures var rest, m := Shr(low, i), n - 1 - i;
      Q(b, rest, m) == (if rest % 2 == 1 then Shr(b, m) else 0) + (if m > 0 then Q(b, Shr(low, i + 1), m - 1) else 0)
  {
    Pow2Add(i, 1);
    assert Pow2(1) == 2 && Pow2(0) == 1;
    DivDiv(low, Pow2(i), 2);
    if i + 1 == n {
      DivBound(low, Pow2(i), 2);
    }
  }

  lemma FractionalStep(low: nat, b: nat, n: nat, i: nat, r: nat, term: nat)
    requires i < n && Remaining(r, low, b, n, i)
    requires term == if Shr(low, i) % 2 == 1 then Shr(b, n - 1 - i) else 0
    ensures Remaining((r + term) % TWO64, low, b, n, i + 1)
  {
    hide Q, Pow2;
    PlaceAdds(low, b, n, i);
    var q' := if i + 1 < n then Q(b, Shr(low, i + 1), n - 2 - i) else 0;
    AddTermWraps(r, term, Q(b, Shr(low, i), n - 1 - i), q');
  }

  /** FractionalMult gives the same result both ways round. */
  lemma FractionalMultCommutes(a: nat, b: nat, n: nat)
    requires n > 0
    ensures Q(a, b, n - 1) % TWO64 == Q(b, a, n - 1) % TWO64
  {
    QCommutes(a, b, n - 1);
  }
}
