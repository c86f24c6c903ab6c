/** The sector check of the disk scan decoder: a CRC computed from the far end
    of the payload, one code word per bit. */
module DiskCrc {
  import opened Gf2

  datatype Bit = Zero | One | Undef

  /** The decoded bits; anything but a one counts as zero. */
  function Ones(data: seq<Bit>): (p: Poly)
    ensures |p| == |data| && forall i :: 0 <= i < |p| ==> p[i] == data[i].One?
  {
    seq(|data|, i requires 0 <= i < |data| => data[i].One?)
  }

  /* ----- 32-bit registers ----- */

  /** One step of the code word: times x, reduced by the generator. */
  function MulX(r: Poly): (s: Poly)
    requires |r| == CRC
    ensures |s| == CRC
  {
    Add(r[1..] + [false], Scale(r[0], Low()))
  }

  /** The code word after d steps: x^(32 + d) reduced. */
  function CodeAt(d: nat): (r: Poly)
    ensures |r| == CRC
  {
    if d == 0 then Low() else MulX(CodeAt(d - 1))
  }

  /** The code words of all ones of the payload, added up. */
  function Crc(p: Poly): (r: Poly)
    ensures |r| == CRC
  {
    if p == [] then Zeros(CRC) else Add(Scale(p[0], CodeAt(|p| - 1)), Crc(p[1..]))
  }

  lemma MulXAdd(a: Poly, b: Poly)
    requires |a| == |b| == CRC
    ensures MulX(Add(a, b)) == Add(MulX(a), MulX(b))
  {
    hide Low, Scale;
    AddSwap(a[1..] + [false], Scale(a[0], Low()), b[1..] + [false], Scale(b[0], Low()));
    ScaleAdd(a[0], b[0], Low());
    assert Add(a[1..] + [false], b[1..] + [false]) == Add(a, b)[1..] + [false];
  }

  lemma MulXScale(b: bool, a: Poly)
    requires |a| == CRC
    ensures MulX(Scale(b, a)) == Scale(b, MulX(a))
  {
    assert !b ==> MulX(Zeros(CRC)) == Zeros(CRC);
  }

  /** One more payload bit shifts every other one up by a power. */
  lemma {:induction false} CrcSnoc(p: Poly, b: bool)
    ensures Crc(p + [b]) == Add(MulX(Crc(p)), Scale(b, Low()))
  {
    if p == [] {
      assert p + [b] == [b] && [b][1..] == [];
      AddSelf(Scale(b, Low()));
      MulXScale(false, Low());
    } else {
      CrcSnoc(p[1..], b);
      CrcSnocStep(p, b);
    }
  }

  lemma CrcSnocStep(p: Poly, b: bool)
    requires p != [] && Crc(p[1..] + [b]) == Add(MulX(Crc(p[1..])), Scale(b, Low()))
    ensures Crc(p + [b]) == Add(MulX(Crc(p)), Scale(b, Low()))
  {
    hide MulX, Scale, Low, Add;
    var n := |p| - 1;
    var head, rest := Scale(p[0], CodeAt(n)), Crc(p[1..]);
    assert (p + [b])[1..] == p[1..] + [b];
    MulXScale(p[0], CodeAt(n));
    MulXAdd(head, rest);
    AddAssoc(MulX(head), MulX(rest), Scale(b, Low()));
  }

  /* ----- the CRC is the remainder ----- */

  /** The quotient of the payload, shifted up, by the generator. */
  function Quotient(p: Poly): (q: Poly)
    ensures |q| == |p|
  {
    if p == [] then []
    else
      var p0, b := p[..|p| - 1], p[|p| - 1];
      Quotient(p0) + [Crc(p0)[0] != b]
  }

  /** Long division: payload followed by zeros, quotient and remainder. */
  predicate Divided(p: Poly) {
    p + Zeros(CRC) == Add(Times(Quotient(p)), Zeros(|p|) + Crc(p))
  }

  lemma {:induction false} Division(p: Poly)
    ensures Divided(p)
  {
    if p == [] {
      assert p + Zeros(CRC) == Zeros(CRC) && Zeros(0) + Crc(p) == Zeros(CRC);
      AddSelf(Zeros(CRC));
    } else {
      var p0, b := p[..|p| - 1], p[|p| - 1];
      Division(p0);
      assert p == p0 + [b];
      CrcSnoc(p0, b);
      DivisionStep(p0, b, Times(Quotient(p0)), Crc(p0), Quotient(p0), Crc(p0)[0] != b);
    }
  }

  lemma DivisionStep(p: Poly, b: bool, t: Poly, w: Poly, q: Poly, top: bool)
    requires |w| == CRC && |t| == |p| + CRC && t == Times(q) && |q| == |p|
    requires p + Zeros(CRC) == Add(t, Zeros(|p|) + w) && top == (w[0] != b)
    ensures |Times(q + [top])| == |p| + 1 + CRC
    ensures p + [b] + Zeros(CRC) == Add(Times(q + [top]), Zeros(|p| + 1) + Add(MulX(w), Scale(b, Low())))
  {
    hide Times, Low;
    TimesSnoc(q, top);
    var m := |p|;
    var sum := Add(Times(q + [top]), Zeros(m + 1) + Add(MulX(w), Scale(b, Low())));
    var before := p + Zeros(CRC);
    forall i | 0 <= i < m + 1 + CRC
      ensures sum[i] == (p + [b] + Zeros(CRC))[i]
    {
      if i < m {
        assert before[i] == t[i];
      } else if i == m {
        assert !before[m] && before[m] == (t[m] != w[0]);
      } else {
        DivisionLow(i - m - 1, w, b, top);
        assert i < m + CRC ==> !before[i] && before[i] == (t[i] != w[i - m]);
      }
    }
  }

  /** Bit j of the shifted remainder, the generator taken off or not. */
  lemma DivisionLow(j: nat, w: Poly, b: bool, top: bool)
    requires |w| == CRC && j < CRC && top == (w[0] != b)
    ensures (Scale(top, Generator())[j + 1] != Add(MulX(w), Scale(b, Low()))[j]) ==
            (if j + 1 < CRC then w[j + 1] else false)
  {
    assert Generator()[1..][j] == Generator()[j + 1];
  }

  /** The check passes exactly for multiples of the generator. */
  lemma CrcIsRemainder(p: Poly, c: Poly)
    requires |c| == CRC
    ensures Crc(p) == c <==> Divisible(p + c)
  {
    Division(p);
    var t, w, m := Times(Quotient(p)), Crc(p), |p|;
    PlusCrc(p, t, w, c);
    if w == c {
      AddSelf(w);
      assert Zeros(m) + Zeros(CRC) == Zeros(m + CRC);
      AddBack(t, p + c, Zeros(m + CRC));
      AddSelf(t);
      assert Times(Quotient(p)) == p + c;
    }
    if Divisible(p + c) {
      var q: Poly :| |q| == m && Times(q) == p + c;
      TimesAdd(Quotient(p), q);
      NoSmallMultiple(Add(Quotient(p), q), Add(w, c));
      AddBack(w, c, Zeros(CRC));
      AddSelf(w);
    }
  }

  lemma PlusCrc(p: Poly, t: Poly, w: Poly, c: Poly)
    requires |w| == |c| == CRC && |t| == |p| + CRC && p + Zeros(CRC) == Add(t, Zeros(|p|) + w)
    ensures Add(t, p + c) == Zeros(|p|) + Add(w, c)
  {
    forall i | 0 <= i < |t|
      ensures Add(t, p + c)[i] == (Zeros(|p|) + Add(w, c))[i]
    {
      assert (p + Zeros(CRC))[i] == (t[i] != (Zeros(|p|) + w)[i]);
    }
  }

  lemma NoSmallMultiple(q: Poly, r: Poly)
    requires |r| == CRC && Times(q) == Zeros(|q|) + r
    ensures r == Zeros(CRC)
  {
    hide Times;
    ShortProduct(q, |q|, 0);
    TimesZero(|q|);
    assert (Zeros(|q|) + r)[|q|..] == r;
    assert Zeros(|q| + CRC)[|q|..] == Zeros(CRC);
  }

  /* ----- the code ----- */

  /** The bits from start to end as a 64-bit number: the last 64 of them. */
  method BinInt(data: seq<Bit>, start: nat, end0: nat) returns (r: Poly)
    ensures var end := if end0 > |data| then |data| else end0;
      |r| == 64 && r == if start < end then (Zeros(64) + Ones(data[start..end]))[end - start..] else Zeros(64)
  {
    hide Add;
    r := Zeros(64);
    var end := if end0 > |data| then |data| else end0;
    if start >= end {
      return;
    }
    ghost var all := Zeros(64) + Ones(data[start..end]);
    for idx := start to end
      invariant |r| == 64 && r == all[idx - start..idx - start + 64]
    {
      var c := data[idx];
      r := r[1..] + [false];
      if c == One {
        r := r[63 := true];
      }
      assert all[idx - start + 64] == c.One?;
    }
  }

  /** The CRC of the payload bits from start to end, far end first. */
  method PayloadCrc(data: seq<Bit>, start: nat, end: nat) returns (localCrc: Poly)
    requires 1 <= start && 1 <= end <= |data|
    ensures localCrc == if start <= end then Crc(Ones(data[start..end])) else Zeros(CRC)
  {
    hide Low, Add, Scanned, Ones, Zeros, Crc;
    var codeWord := Low();
    localCrc := Zeros(CRC);
    if start > end {
      return;   // the loop's condition is false at once
    }
    ghost var payload := Ones(data[start..end]);
    NothingScanned(payload);
    var idx: int := end - 1;
    while idx >= start
      invariant start - 1 <= idx < end
      invariant Scanned(payload, idx + 1 - start, localCrc, codeWord)
      decreases idx
    {
      Turn(payload, idx - start, localCrc, codeWord);
      BitOf(data, start, end, idx);
      if data[idx] == One {
        localCrc := Add(localCrc, codeWord);
      }
      if codeWord[0] {
        codeWord := Add(codeWord[1..] + [false], Low());
      } else {
        codeWord := codeWord[1..] + [false];
      }
      idx := idx - 1;
    }
    AllScanned(payload, localCrc, codeWord);
  }

  /** The check of Validate on the bits from start to end; a range that is too
      short for a CRC has the empty payload's. */
  method Validate(data: seq<Bit>, start: nat, end0: nat) returns (ok: bool)
    requires 1 <= start && CRC < |data| && CRC < end0
    ensures var end := if end0 > |data| then |data| else end0;
      ok <==> if start + CRC <= end then Divisible(Ones(data[start..end])) else Ones(data[end - CRC..end]) == Zeros(CRC)
  {
    hide Divisible, Ones, Zeros, Crc;
    var end := if end0 > |data| then |data| else end0;
    var localCrc := PayloadCrc(data, start, end - CRC);
    var streamCrc := BinInt(data, end - CRC, end);
    LastBits(Ones(data[end - CRC..end]));
    ok := streamCrc[CRC..] == localCrc;
    if start + CRC <= end {
      OnesSplit(data, start, end - CRC, end);
      CrcIsRemainder(Ones(data[start..end - CRC]), Ones(data[end - CRC..end]));
    }
  }

  lemma BitOf(data: seq<Bit>, start: nat, end: nat, i: nat)
    requires start <= i < end <= |data|
    ensures |Ones(data[start..end])| == end - start && Ones(data[start..end])[i - start] == data[i].One?
  {
  }

  lemma OnesSplit(data: seq<Bit>, start: nat, mid: nat, end: nat)
    requires start <= mid <= end <= |data|
    ensures Ones(data[start..end]) == Ones(data[start..mid]) + Ones(data[mid..end])
  {
  }

  /** The registers after the payload bits from k on have been taken in. */
  ghost predicate Scanned(payload: Poly, k: nat, localCrc: Poly, codeWord: Poly) {
    k <= |payload| && |localCrc| == |codeWord| == CRC
    && localCrc == Crc(payload[k..]) && codeWord == CodeAt(|payload| - k)
  }

  lemma NothingScanned(payload: Poly)
    ensures Scanned(payload, |payload|, Zeros(CRC), Low())
  {
    assert payload[|payload|..] == [];
  }

  lemma AllScanned(payload: Poly, localCrc: Poly, codeWord: Poly)
    requires Scanned(payload, 0, localCrc, codeWord)
    ensures localCrc == Crc(payload)
  {
    assert payload[0..] == payload;
  }

  /** One turn of the loop. */
  lemma Turn(payload: Poly, k: nat, localCrc: Poly, codeWord: Poly)
    requires k < |payload| && Scanned(payload, k + 1, localCrc, codeWord)
    ensures |localCrc| == |codeWord| == CRC
    ensures Scanned(payload, k, if payload[k] then Add(localCrc, codeWord) else localCrc,
              if codeWord[0] then Add(codeWord[1..] + [false], Low()) else codeWord[1..] + [false])
  {
    hide Crc, CodeAt, Low, Add;
    assert payload[k..][1..] == payload[k + 1..];
    CrcNext(payload[k..]);
    CodeNext(|payload| - k - 1);
  }

  lemma CrcNext(p: Poly)
    requires p != []
    ensures Crc(p) == if p[0] then Add(Crc(p[1..]), CodeAt(|p| - 1)) else Crc(p[1..])
  {
    hide CodeAt, Add;
    AddSelf(Crc(p[1..]));
    AddComm(Crc(p[1..]), CodeAt(|p| - 1));
  }

  lemma CodeNext(d: nat)
    ensures var c := CodeAt(d);
      CodeAt(d + 1) == if c[0] then Add(c[1..] + [false], Low()) else c[1..] + [false]
  {
    hide Add, Low;
    AddSelf(CodeAt(d)[1..] + [false]);
  }

  lemma LastBits(c: Poly)
    requires |c| == CRC
    ensures (Zeros(64) + c)[CRC..][CRC..] == c
  {
  }

  /** The coefficients of the generator, by their powers. */
  lemma GeneratorTerms(n: nat)
    requires n <= CRC
    ensures Generator()[CRC - n] <==> n == 32 || n == 23 || n == 21 || n == 11 || n == 2 || n == 0
  {
    assert n < CRC ==> Generator()[CRC - n] == Generator()[1..][CRC - 1 - n];
  }

  /** A valid sector with a burst of flipped bits within 32 positions, payload
      and CRC alike, or with an odd number of flipped bits, is rejected. */
  lemma FlipsDetected(s: Poly, e: Poly, i: nat)
    requires Divisible(s) && |e| == |s|
    requires Odd(e) || (e != Zeros(|e|) && forall k :: 0 <= k < |e| && e[k] ==> i <= k < i + CRC)
    ensures !Divisible(Add(s, e))
  {
    hide Divisible, Odd;
    if Odd(e) {
      OddErrorsDetected(s, e);
    } else {
      BurstDetected(s, e, i);
    }
  }
}
