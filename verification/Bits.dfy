/** 64-bit words as natural numbers, and the bit-field accessors that every
    on-disk format of the repository goes through.  Bit 0 of a field is the
    most significant bit of the word. */
module Bits {

  type byte = b: int | 0 <= b < 256

  const TWO15: nat := 0x8000
  const TWO32: nat := 0x1_0000_0000
  const TWO64: nat := 0x1_0000_0000_0000_0000

  type Word = w: int | 0 <= w < 0x1_0000_0000_0000_0000

  function Pow2(n: nat): (r: nat)
    ensures r > 0
  {
    if n == 0 then 1 else 2 * Pow2(n - 1)
  }

  lemma Doubled(x: nat, y: nat)
    ensures 2 * (x * y) == 2 * x * y
  {
  }

  lemma {:induction false} Pow2Add(a: nat, b: nat)
    ensures Pow2(a + b) == Pow2(a) * Pow2(b)
  {
    if a > 0 {
      var c := a - 1;
      Pow2Add(c, b);
      Doubled(Pow2(c), Pow2(b));
      assert Pow2(c + b + 1) == 2 * Pow2(c + b);
    }
  }

  lemma Pow2At64()
    ensures Pow2(64) == TWO64
  {
    var o, q, h := 8, 16, 32;
    assert Pow2(8) == 256;
    Pow2Add(o, o);
    Pow2Add(q, q);
    Pow2Add(h, h);
  }

  /** A right shift by n places. */
  function Shr(x: nat, n: nat): nat {
    hide Pow2;
    DivNat(x, Pow2(n));
    x / Pow2(n)
  }

  lemma DivNat(x: nat, d: nat)
    requires d > 0
    ensures x / d >= 0
  {
  }

  /* ----- division facts ----- */

  lemma MulMono(a: int, b: int, d: int)
    requires a <= b && d >= 0
    ensures a * d <= b * d
  {
    assert (b - a) * d >= 0;
    assert b * d - a * d == (b - a) * d;
  }

  lemma DivUnique(v: int, d: int, q: int, r: int)
    requires 0 <= r < d
    requires v == q * d + r
    ensures v / d == q && v % d == r
  {
    var q', r' := v / d, v % d;
    assert v == q' * d + r';
    if q' < q {
      MulMono(q' + 1, q, d);
    } else if q < q' {
      MulMono(q + 1, q', d);
    }
  }

  lemma DivDiv(v: nat, a: nat, b: nat)
    requires a > 0 && b > 0
    ensures a * b > 0
    ensures v / (a * b) == v / a / b
    ensures v % (a * b) == v / a % b * a + v % a
  {
    var q, r := v / a, v % a;
    var q2, r2 := q / b, q % b;
    assert a * b > 0;
    assert q * a == q2 * (a * b) + r2 * a by {
      assert q == q2 * b + r2;
      assert (q2 * b + r2) * a == q2 * (a * b) + r2 * a;
    }
    assert r2 * a + r < a * b by {
      MulMono(r2, b - 1, a);
      assert (b - 1) * a == a * b - a;
    }
    assert r2 * a >= 0;
    DivUnique(v, a * b, q2, r2 * a + r);
  }

  lemma ModSmall(x: nat, m: nat)
    requires x < m
    ensures x % m == x
  {
  }

  lemma DivBound(v: nat, d: nat, m: nat)
    requires d > 0 && v < m * d
    ensures v / d < m
  {
    if v / d >= m {
      MulMono(m, v / d, d);
    }
  }

  /* ----- a field of `w` values at unit `lo` ----- */

  function Field(v: nat, lo: nat, w: nat): nat
    requires lo > 0 && w > 0
  {
    v / lo % w
  }

  function PutField(v: nat, lo: nat, w: nat, x: nat): nat
    requires lo > 0 && w > 0
  {
    var q := v / lo / w;
    assert q * w >= 0;
    var y: nat := q * w + x % w;
    assert y * lo >= 0;
    y * lo + v % lo
  }

  lemma PutFieldParts(v: nat, lo: nat, w: nat, x: nat)
    requires lo > 0 && w > 0
    ensures var r := PutField(v, lo, w, x);
      r / lo == v / lo / w * w + x % w && r % lo == v % lo
      && r / lo % w == x % w && r / lo / w == v / lo / w
  {
    var r := PutField(v, lo, w, x);
    var q := v / lo / w;
    DivUnique(r, lo, q * w + x % w, v % lo);
    DivUnique(q * w + x % w, w, q, x % w);
  }

  lemma PutFieldBound(v: nat, lo: nat, w: nat, x: nat, top: nat)
    requires lo > 0 && w > 0
    requires v < top * (w * lo)
    ensures PutField(v, lo, w, x) < top * (w * lo)
  {
    var q := v / lo / w;
    DivDiv(v, lo, w);
    assert lo * w == w * lo;
    DivBound(v, w * lo, top);
    var y := q * w + x % w;
    assert y + 1 <= (q + 1) * w;
    MulMono(y + 1, (q + 1) * w, lo);
    assert (q + 1) * w * lo == (q + 1) * (w * lo);
    MulMono(q + 1, top, w * lo);
  }

  /** A field above the one written: it only depends on `v / lo / w`. */
  lemma FieldAbove(v: nat, lo: nat, w: nat, gap: nat, w2: nat)
    requires lo > 0 && w > 0 && gap > 0 && w2 > 0
    ensures lo * w * gap > 0
    ensures Field(v, lo * w * gap, w2) == v / lo / w / gap % w2
  {
    DivDiv(v, lo, w);
    DivDiv(v, lo * w, gap);
  }

  /** A field below the one written: it only depends on `v % lo`. */
  lemma FieldBelow(v: nat, a: nat, b: nat, gap: nat)
    requires a > 0 && b > 0 && gap > 0
    ensures a * b * gap > 0
    ensures Field(v, a, b) == Field(v % (a * b * gap), a, b)
  {
    DivDiv(v, a, b);
    assert a * b > 0;
    DivDiv(v, a * b, gap);
    var t := v % (a * b * gap);
    DivUnique(t, a * b, v / (a * b) % gap, v % (a * b));
    DivDiv(t, a, b);
    assert v % (a * b) == v / a % b * a + v % a;
    assert v % (a * b) == t / a % b * a + t % a;
    DivUnique(v % (a * b), a, v / a % b, v % a);
    DivUnique(v % (a * b), a, t / a % b, t % a);
  }

  /* ----- the accessors of the source ----- */

  function GetBitsReverse(v: Word, s: nat, e: nat): (f: nat)
    requires s <= e < 64
  {
    Field(v, Pow2(63 - e), Pow2(e - s + 1))
  }

  function SetBitsReverse(v: Word, s: nat, e: nat, x: nat): (r: Word)
    requires s <= e < 64
    ensures GetBitsReverse(r, s, e) == x % Pow2(e - s + 1)
  {
    var lo, w := Pow2(63 - e), Pow2(e - s + 1);
    PutFieldParts(v, lo, w, x);
    TopPart(s, e);
    PutFieldBound(v, lo, w, x, Pow2(s));
    PutField(v, lo, w, x)
  }

  lemma TopPart(s: nat, e: nat)
    requires s <= e < 64
    ensures Pow2(s) * (Pow2(e - s + 1) * Pow2(63 - e)) == TWO64
  {
    Pow2Add(e - s + 1, 63 - e);
    Pow2Add(s, 64 - s);
    Pow2At64();
  }

  /** Writing one field leaves every disjoint field alone. */
  lemma GetSetOther(v: Word, s: nat, e: nat, x: nat, s2: nat, e2: nat)
    requires s <= e < 64 && s2 <= e2 < 64
    requires e2 < s || e < s2
    ensures GetBitsReverse(SetBitsReverse(v, s, e, x), s2, e2) == GetBitsReverse(v, s2, e2)
  {
    var lo, w := Pow2(63 - e), Pow2(e - s + 1);
    var lo2, w2 := Pow2(63 - e2), Pow2(e2 - s2 + 1);
    var r := SetBitsReverse(v, s, e, x);
    PutFieldParts(v, lo, w, x);
    if e2 < s {
      var gap := Pow2(s - 1 - e2);
      assert lo2 == lo * w * gap by {
        Pow2Add(63 - e, e - s + 1);
        Pow2Add(64 - s, s - 1 - e2);
      }
      FieldAbove(v, lo, w, gap, w2);
      FieldAbove(r, lo, w, gap, w2);
    } else {
      var gap := Pow2(s2 - 1 - e);
      assert lo == lo2 * w2 * gap by {
        Pow2Add(63 - e2, e2 - s2 + 1);
        Pow2Add(64 - s2, s2 - 1 - e);
      }
      FieldBelow(v, lo2, w2, gap);
      FieldBelow(r, lo2, w2, gap);
    }
  }

  /** As numbers: a field of `w` values at 2^(63 - e) is replaced. */
  lemma SetBitsValue(v: Word, s: nat, e: nat, x: nat, lo: nat, w: nat)
    requires s <= e < 64 && lo == Pow2(63 - e) && w == Pow2(e - s + 1)
    ensures SetBitsReverse(v, s, e, x) == v + (x % w - v / lo % w) * lo
  {
    var q, f, y := v / lo / w, v / lo % w, x % w;
    DivMod(v, lo);
    DivMod(v / lo, w);
    Replaced(q * w, f, y, lo);
  }

  lemma DivMod(v: nat, d: nat)
    requires d > 0
    ensures v == v / d * d + v % d
  {
  }

  lemma Replaced(a: int, f: int, y: int, lo: int)
    ensures (a + y) * lo == (a + f) * lo + (y - f) * lo
  {
  }
}
