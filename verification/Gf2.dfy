/** Polynomials over the field of two elements, as bit strings with the highest
    power first, and divisibility by the generator of the disk CRC. */
module Gf2 {

  type Poly = seq<bool>

  const CRC: nat := 32

  function Zeros(n: nat): (r: Poly)
    ensures |r| == n && forall i :: 0 <= i < n ==> !r[i]
  {
    seq(n, _ => false)
  }

  /** Addition: bit by bit, without carries. */
  function Add(a: Poly, b: Poly): (r: Poly)
    requires |a| == |b|
    ensures |r| == |a| && forall i :: 0 <= i < |a| ==> r[i] == (a[i] != b[i])
  {
    seq(|a|, i requires 0 <= i < |a| => a[i] != b[i])
  }

  function Scale(b: bool, a: Poly): (r: Poly)
    ensures |r| == |a|
  {
    if b then a else Zeros(|a|)
  }

  /** x^23 + x^21 + x^11 + x^2 + 1: the generator below its leading x^32. */
  function Low(): (r: Poly)
    ensures |r| == CRC && forall i :: 0 <= i < CRC ==> r[i] == (CRC - 1 - i in {23, 21, 11, 2, 0})
  {
    seq(CRC, i => CRC - 1 - i in {23, 21, 11, 2, 0})
  }

  function Generator(): (r: Poly)
    ensures |r| == CRC + 1 && r[0] && r[1..] == Low()
  {
    [true] + Low()
  }

  /** The product of q and the generator, by schoolbook multiplication. */
  function Times(q: Poly): (r: Poly)
    ensures |r| == |q| + CRC
  {
    if q == [] then Zeros(CRC)
    else
      var n := |q| - 1;
      Add(Times(q[..n]) + [false], Zeros(n) + Scale(q[n], Generator()))
  }

  /** s is a multiple of the generator. */
  ghost predicate Divisible(s: Poly) {
    |s| >= CRC && exists q: Poly :: |q| == |s| - CRC && Times(q) == s
  }

  /* ----- addition ----- */

  lemma AddAssoc(a: Poly, b: Poly, c: Poly)
    requires |a| == |b| == |c|
    ensures Add(Add(a, b), c) == Add(a, Add(b, c))
  {
  }

  lemma AddComm(a: Poly, b: Poly)
    requires |a| == |b|
    ensures Add(a, b) == Add(b, a)
  {
  }

  lemma AddSelf(a: Poly)
    ensures Add(a, a) == Zeros(|a|) && Add(a, Zeros(|a|)) == a && Add(Zeros(|a|), a) == a
  {
  }

  lemma AddBack(a: Poly, b: Poly, c: Poly)
    requires |a| == |b| == |c| && Add(a, b) == c
    ensures Add(a, c) == b
  {
    forall i | 0 <= i < |a|
      ensures Add(a, c)[i] == b[i]
    {
      assert c[i] == (a[i] != b[i]);
    }
  }

  lemma AddConcat(a: Poly, b: Poly, c: Poly, d: Poly)
    requires |a| == |b| && |c| == |d|
    ensures Add(a + c, b + d) == Add(a, b) + Add(c, d)
  {
  }

  lemma ScaleAdd(b: bool, c: bool, a: Poly)
    ensures Add(Scale(b, a), Scale(c, a)) == Scale(b != c, a)
  {
  }

  /** (a + b) + (c + d) == (a + c) + (b + d) */
  lemma AddSwap(a: Poly, b: Poly, c: Poly, d: Poly)
    requires |a| == |b| == |c| == |d|
    ensures Add(Add(a, b), Add(c, d)) == Add(Add(a, c), Add(b, d))
  {
  }

  /* ----- multiplication by the generator ----- */

  lemma TimesSnoc(q: Poly, b: bool)
    ensures Times(q + [b]) == Add(Times(q) + [false], Zeros(|q|) + Scale(b, Generator()))
  {
    assert (q + [b])[..|q|] == q;
  }

  lemma {:induction false} TimesAdd(p: Poly, q: Poly)
    requires |p| == |q|
    ensures Add(Times(p), Times(q)) == Times(Add(p, q))
  {
    if p == [] {
      AddSelf(Zeros(CRC));
    } else {
      var n := |p| - 1;
      var p0, q0, g := p[..n], q[..n], Generator();
      TimesAdd(p0, q0);
      TimesAddStep(p0, q0, p[n], q[n]);
      assert p == p0 + [p[n]] && q == q0 + [q[n]];
      assert Add(p, q) == Add(p0, q0) + [p[n] != q[n]];
    }
  }

  lemma TimesAddStep(p: Poly, q: Poly, b: bool, c: bool)
    requires |p| == |q| && Add(Times(p), Times(q)) == Times(Add(p, q))
    ensures Add(Times(p + [b]), Times(q + [c])) == Times(Add(p, q) + [b != c])
  {
    hide Times, Add, Generator, Scale, Zeros;
    var n, g := |p|, Generator();
    TimesSnoc(p, b);
    TimesSnoc(q, c);
    TimesSnoc(Add(p, q), b != c);
    AddSwap(Times(p) + [false], Zeros(n) + Scale(b, g), Times(q) + [false], Zeros(n) + Scale(c, g));
    AddConcat(Times(p), Times(q), [false], [false]);
    AddConcat(Zeros(n), Zeros(n), Scale(b, g), Scale(c, g));
    ScaleAdd(b, c, g);
    AddSelf(Zeros(n));
    assert Add([false], [false]) == [false];
  }

  /** Leading and trailing zeros of the factor are those of the product. */
  lemma {:induction false} TimesLead(q: Poly)
    ensures Times([false] + q) == [false] + Times(q)
  {
    if q == [] {
      assert [false] + q == [] + [false];
      TimesSnoc([], false);
      assert Times([false]) == Zeros(CRC + 1);
    } else {
      var q0, b := q[..|q| - 1], q[|q| - 1];
      TimesLead(q0);
      TimesLeadStep(q0, b);
      assert q == q0 + [b] && [false] + q == [false] + q0 + [b];
    }
  }

  lemma TimesLeadStep(q: Poly, b: bool)
    requires Times([false] + q) == [false] + Times(q)
    ensures Times([false] + q + [b]) == [false] + Times(q + [b])
  {
    hide Times, Add, Generator, Scale;
    var n, g := |q|, Scale(b, Generator());
    TimesSnoc(q, b);
    TimesSnoc([false] + q, b);
    LeadAdd(Times(q) + [false], Zeros(n) + g);
    assert [false] + Times(q) + [false] == [false] + (Times(q) + [false]);
    assert Zeros(n + 1) + g == [false] + (Zeros(n) + g);
  }

  lemma LeadAdd(a: Poly, b: Poly)
    requires |a| == |b|
    ensures Add([false] + a, [false] + b) == [false] + Add(a, b)
  {
  }

  lemma {:induction false} TimesFirst(q: Poly)
    requires q != []
    ensures Times(q)[0] == q[0]
  {
    if |q| > 1 {
      TimesFirst(q[..|q| - 1]);
    }
  }

  lemma TimesLast(q: Poly, b: bool)
    ensures Times(q + [b])[|q| + CRC] == b
    ensures !b ==> Times(q + [b]) == Times(q) + [false]
  {
    hide Times;
    TimesSnoc(q, b);
    assert Generator()[1..][CRC - 1] == Generator()[CRC];
    if !b {
      assert Zeros(|q|) + Zeros(CRC + 1) == Zeros(|q| + CRC + 1);
      AddSelf(Times(q) + [false]);
    }
  }

  lemma {:induction false} TimesZero(n: nat)
    ensures Times(Zeros(n)) == Zeros(n + CRC)
  {
    if n > 0 {
      assert Zeros(n) == Zeros(n - 1) + [false];
      TimesZero(n - 1);
      TimesLast(Zeros(n - 1), false);
    }
  }

  predicate LeadZeros(a: Poly, n: nat) {
    n <= |a| && forall i :: 0 <= i < n ==> !a[i]
  }

  predicate TrailZeros(a: Poly, n: nat) {
    n <= |a| && forall i :: |a| - n <= i < |a| ==> !a[i]
  }

  lemma ZerosBehind(r: Poly, a: nat, z: nat)
    requires 0 < a && LeadZeros([false] + r, a) && z <= |r| && TrailZeros([false] + r, z)
    ensures LeadZeros(r, a - 1) && TrailZeros(r, z)
  {
    var s := [false] + r;
    assert forall i :: 0 <= i < |r| ==> r[i] == s[i + 1];
  }

  lemma ZerosBefore(r: Poly, z: nat)
    requires 0 < z && TrailZeros(r + [false], z)
    ensures TrailZeros(r, z - 1)
  {
    var s := r + [false];
    assert forall i :: 0 <= i < |r| ==> r[i] == s[i];
  }

  lemma DropLead(q: Poly, a: nat, z: nat)
    requires q != [] && 0 < a <= |q| && z < |Times(q)| && LeadZeros(Times(q), a) && TrailZeros(Times(q), z)
    ensures !q[0] && LeadZeros(Times(q[1..]), a - 1) && TrailZeros(Times(q[1..]), z)
  {
    hide Times;
    TimesFirst(q);
    var q1 := q[1..];
    assert q == [false] + q1;
    TimesLead(q1);
    ZerosBehind(Times(q1), a, z);
  }

  lemma DropTrail(q: Poly, z: nat)
    requires q != [] && 0 < z <= |q| && TrailZeros(Times(q), z)
    ensures !q[|q| - 1] && TrailZeros(Times(q[..|q| - 1]), z - 1)
  {
    hide Times;
    var n := |q| - 1;
    var q1 := q[..n];
    assert q == q1 + [q[n]];
    TimesLast(q1, q[n]);
    assert !Times(q)[n + CRC];
    ZerosBefore(Times(q1), z);
  }

  /** A product that starts with a zeros and ends with z zeros, and is at most
      32 bits long in between, is zero. */
  lemma {:induction false} ShortProduct(q: Poly, a: nat, z: nat)
    requires a + z >= |q| && a <= |q| && z <= |q| + 1
    requires LeadZeros(Times(q), a) && TrailZeros(Times(q), z)
    ensures q == Zeros(|q|)
    decreases |q|
  {
    hide Times, LeadZeros, TrailZeros;
    if q == [] {
    } else if a > 0 {
      DropLead(q, a, z);
      var z' := if z < |q| then z else |q|;
      FewerTrail(Times(q[1..]), z, z');
      ShortProduct(q[1..], a - 1, z');
      assert q == [false] + q[1..];
    } else {
      FewerTrail(Times(q), z, |q|);
      DropTrail(q, |q|);
      NoLead(Times(q[..|q| - 1]));
      ShortProduct(q[..|q| - 1], 0, |q| - 1);
    }
  }

  lemma FewerTrail(a: Poly, z: nat, n: nat)
    requires n <= z && TrailZeros(a, z)
    ensures TrailZeros(a, n)
  {
  }

  lemma NoLead(a: Poly)
    ensures LeadZeros(a, 0)
  {
  }

  /* ----- multiples of the generator ----- */

  lemma DivisibleAdd(a: Poly, b: Poly)
    requires Divisible(a) && Divisible(b) && |a| == |b|
    ensures Divisible(Add(a, b))
  {
    var p: Poly :| |p| == |a| - CRC && Times(p) == a;
    var q: Poly :| |q| == |b| - CRC && Times(q) == b;
    TimesAdd(p, q);
  }

  /** No multiple of the generator has all its ones within 32 positions. */
  lemma ShortMultiple(e: Poly, i: nat)
    requires Divisible(e) && forall k :: 0 <= k < |e| && e[k] ==> i <= k < i + CRC
    ensures e == Zeros(|e|)
  {
    var q: Poly :| |q| == |e| - CRC && Times(q) == e;
    var a := if i <= |q| then i else |q|;
    ShortProduct(q, a, |q| - a);
    TimesZero(|q|);
  }

  /** Every burst error of at most 32 positions is detected. */
  lemma BurstDetected(s: Poly, e: Poly, i: nat)
    requires Divisible(s) && |e| == |s| && e != Zeros(|e|)
    requires forall k :: 0 <= k < |e| && e[k] ==> i <= k < i + CRC
    ensures !Divisible(Add(s, e))
  {
    if Divisible(Add(s, e)) {
      DivisibleAdd(s, Add(s, e));
      AddBack(s, e, Add(s, e));
      ShortMultiple(e, i);
      assert false;
    }
  }

  /* ----- parity ----- */

  /** Whether the number of ones is odd. */
  function Odd(a: Poly): bool {
    if a == [] then false else Odd(a[..|a| - 1]) != a[|a| - 1]
  }

  lemma {:induction false} OddAdd(a: Poly, b: Poly)
    requires |a| == |b|
    ensures Odd(Add(a, b)) == (Odd(a) != Odd(b))
  {
    if a != [] {
      var n := |a| - 1;
      OddAdd(a[..n], b[..n]);
      assert Add(a, b)[..n] == Add(a[..n], b[..n]);
    }
  }

  lemma {:induction false} OddConcat(a: Poly, b: Poly)
    ensures Odd(a + b) == (Odd(a) != Odd(b))
  {
    if b == [] {
      assert a + b == a;
    } else {
      var n := |b| - 1;
      OddConcat(a, b[..n]);
      assert (a + b)[..|a + b| - 1] == a + b[..n];
    }
  }

  lemma {:induction false} OddZeros(n: nat)
    ensures !Odd(Zeros(n))
  {
    if n > 0 {
      assert Zeros(n)[..n - 1] == Zeros(n - 1);
      OddZeros(n - 1);
    }
  }

  lemma {:induction false} OddOne(n: nat, k: nat)
    requires k < n
    ensures Odd(Zeros(n)[k := true])
  {
    var a := Zeros(n)[k := true];
    if k == n - 1 {
      assert a[..n - 1] == Zeros(n - 1);
      OddZeros(n - 1);
    } else {
      assert a[..n - 1] == Zeros(n - 1)[k := true];
      OddOne(n - 1, k);
    }
  }

  lemma OddFlip(a: Poly, k: nat)
    requires k < |a| && !a[k]
    ensures Odd(a[k := true]) == !Odd(a)
  {
    OddOne(|a|, k);
    OddAdd(a, Zeros(|a|)[k := true]);
    assert a[k := true] == Add(a, Zeros(|a|)[k := true]);
  }

  /** The generator has an even number of terms. */
  lemma GeneratorEven()
    ensures !Odd(Generator())
  {
    var n := CRC + 1;
    var a := Zeros(n);
    OddZeros(n);
    OddFlip(a, 0);
    var b := a[0 := true];
    OddFlip(b, 9);
    var c := b[9 := true];
    OddFlip(c, 11);
    var d := c[11 := true];
    OddFlip(d, 21);
    var e := d[21 := true];
    OddFlip(e, 30);
    var f := e[30 := true];
    OddFlip(f, 32);
    assert Generator() == f[32 := true];
  }

  lemma {:induction false} TimesEven(q: Poly)
    ensures !Odd(Times(q))
  {
    if q == [] {
      OddZeros(CRC);
    } else {
      var n := |q| - 1;
      TimesEven(q[..n]);
      GeneratorEven();
      OddZeros(n);
      OddZeros(CRC + 1);
      OddZeros(1);
      OddConcat(Times(q[..n]), [false]);
      assert Zeros(1) == [false];
      OddConcat(Zeros(n), Scale(q[n], Generator()));
      OddAdd(Times(q[..n]) + [false], Zeros(n) + Scale(q[n], Generator()));
    }
  }

  /** Every error that changes an odd number of bits is detected. */
  lemma OddErrorsDetected(s: Poly, e: Poly)
    requires Divisible(s) && |e| == |s| && Odd(e)
    ensures !Divisible(Add(s, e))
  {
    if Divisible(Add(s, e)) {
      DivisibleAdd(s, Add(s, e));
      AddBack(s, e, Add(s, e));
      var q: Poly :| |q| == |e| - CRC && Times(q) == e;
      TimesEven(q);
      assert false;
    }
  }
}
