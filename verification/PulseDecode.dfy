/** Pulse decoding of the disk scan: run lengths are put into classes of 2, 3 or
    4 half bits, and the classes are turned into bits. */
module PulseDecode {

  datatype PulseType = PulseType(halfBitLen: nat, error: bool)

  /** One table of pulse classes for each signal level. */
  datatype Categorizer = Categorizer(low: seq<PulseType>, high: seq<PulseType>) {
    predicate Ok() { 0 < |low| == |high| <= 256 }
  }

  /** Widths behind the table count as its last entry. */
  function CategorizePulse(width: nat, level: nat, cat: Categorizer): (t: PulseType)
    requires cat.Ok()
    ensures t in cat.low || t in cat.high
  {
    var w := if width >= |cat.low| then |cat.low| - 1 else width;
    if level % 2 == 0 then cat.low[w] else cat.high[w]
  }

  /** Even runs are low and odd ones high, and whatever is wider than the table
      is as wide as its last entry. */
  lemma PulseOfTable(width: nat, level: nat, cat: Categorizer)
    requires cat.Ok()
    ensures width < |cat.low| ==> CategorizePulse(width, 2 * level, cat) == cat.low[width]
    ensures width < |cat.low| ==> CategorizePulse(width, 2 * level + 1, cat) == cat.high[width]
    ensures width >= |cat.low| ==> CategorizePulse(width, level, cat) == CategorizePulse(|cat.low| - 1, level, cat)
  {
  }

  /* ----- one class ----- */

  datatype Step = Step(bits: seq<bool>, next: bool) | Rejected

  /** What class c adds behind the current bit. */
  function Take(cur: bool, c: nat): Step {
    if c == 2 then Step([cur], cur)
    else if c == 3 then (if cur then Step([false], false) else Step([false, true], true))
    else if c == 4 && cur then Step([false, true], true)
    else Rejected
  }

  /* ----- class sequences ----- */

  predicate Accepted(cur: bool, cs: seq<nat>)
    decreases |cs|
  {
    cs != [] ==> Take(cur, cs[0]).Step? && Accepted(Take(cur, cs[0]).next, cs[1..])
  }

  function Bits(cur: bool, cs: seq<nat>): seq<bool>
    requires Accepted(cur, cs)
    decreases |cs|
  {
    if cs == [] then [] else Take(cur, cs[0]).bits + Bits(Take(cur, cs[0]).next, cs[1..])
  }

  function Last(cur: bool, cs: seq<nat>): bool
    requires Accepted(cur, cs)
    decreases |cs|
  {
    if cs == [] then cur else Last(Take(cur, cs[0]).next, cs[1..])
  }

  function Sum(cs: seq<nat>): nat {
    if cs == [] then 0 else cs[0] + Sum(cs[1..])
  }

  function Half(b: bool): nat { if b then 1 else 0 }

  /** Decoding keeps step with the half bits: after any accepted classes they
      are twice the bits, less one half bit when the current bit is a one. */
  lemma {:induction false} HalfBits(cur: bool, cs: seq<nat>)
    requires Accepted(cur, cs)
    ensures Sum(cs) + Half(Last(cur, cs)) == 2 * |Bits(cur, cs)| + Half(cur)
    decreases |cs|
  {
    if cs != [] {
      HalfBits(Take(cur, cs[0]).next, cs[1..]);
    }
  }

  lemma DecodedLength(cs: seq<nat>)
    requires Accepted(false, cs)
    ensures Sum(cs) == 2 * |Bits(false, cs)| - Half(Last(false, cs))
  {
    HalfBits(false, cs);
  }

  /* ----- what the bits stand for ----- */

  /** Some pulse ends at half bit n. */
  predicate EndsAt(cs: seq<nat>, n: int) {
    exists j :: 0 < j <= |cs| && Sum(cs[..j]) == n
  }

  lemma SumFirst(c: nat, cs: seq<nat>, j: nat)
    requires j <= |cs|
    ensures ([c] + cs)[..j + 1] == [c] + cs[..j] && Sum(([c] + cs)[..j + 1]) == c + Sum(cs[..j])
  {
    assert ([c] + cs[..j])[1..] == cs[..j];
  }

  /** A pulse more in front. */
  lemma EndsLater(c: nat, cs: seq<nat>, n: int)
    ensures EndsAt([c] + cs, n) <==> n == c || EndsAt(cs, n - c)
  {
    SumFirst(c, cs, 0);
    if EndsAt([c] + cs, n) {
      var j :| 0 < j <= |cs| + 1 && Sum(([c] + cs)[..j]) == n;
      SumFirst(c, cs, j - 1);
    }
    if j :| 0 < j <= |cs| && Sum(cs[..j]) == n - c {
      SumFirst(c, cs, j);
    }
  }

  lemma EndsBehind(cs: seq<nat>, n: int)
    requires n <= 0 && forall i :: 0 <= i < |cs| ==> cs[i] > 0
    ensures !EndsAt(cs, n)
  {
    forall j | 0 < j <= |cs|
      ensures Sum(cs[..j]) > 0
    {
      assert cs[..j][0] == cs[0];
    }
  }

  lemma AcceptedPositive(cur: bool, cs: seq<nat>)
    requires Accepted(cur, cs)
    ensures forall i :: 0 <= i < |cs| ==> cs[i] > 0
    decreases |cs|
  {
    if cs != [] {
      AcceptedPositive(Take(cur, cs[0]).next, cs[1..]);
    }
  }

  /** A bit is a one exactly when a pulse ends in the middle of its cell: bit k
      has the half bits 2k and 2k + 1, counted from the start of the first cell
      behind the current bit, in whose middle the first pulse starts when that
      is a one. */
  lemma {:induction false} OnesAreMiddles(cur: bool, cs: seq<nat>, k: nat)
    requires Accepted(cur, cs) && k < |Bits(cur, cs)|
    ensures Bits(cur, cs)[k] <==> EndsAt(cs, 2 * k + 1 + Half(cur))
    decreases |cs|
  {
    hide EndsAt;
    var c, rest := cs[0], cs[1..];
    assert cs == [c] + rest;
    var t := Take(cur, c);
    EndsLater(c, rest, 2 * k + 1 + Half(cur));
    AcceptedPositive(t.next, rest);
    assert c + Half(t.next) == 2 * |t.bits| + Half(cur);
    if k >= |t.bits| {
      OnesAreMiddles(t.next, rest, k - |t.bits|);
      assert 2 * k + 1 + Half(cur) - c == 2 * (k - |t.bits|) + 1 + Half(t.next);
    } else {
      EndsBehind(rest, 2 * k + 1 + Half(cur) - c);
    }
  }

  /* ----- the encoder ----- */

  /** Behind a zero no bit string starts with a one. */
  predicate Encodable(cur: bool, bits: seq<bool>) {
    cur || bits == [] || !bits[0]
  }

  /** The classes of a bit string behind the current bit. */
  function Encode(cur: bool, bits: seq<bool>): (cs: seq<nat>)
    requires Encodable(cur, bits)
    decreases |bits|
  {
    if bits == [] then []
    else if bits[0] then [2] + Encode(true, bits[1..])
    else if |bits| > 1 && bits[1] then [if cur then 4 else 3] + Encode(true, bits[2..])
    else [if cur then 3 else 2] + Encode(false, bits[1..])
  }

  /** The classes can be read off the bits. */
  lemma {:induction false} EncodeOfDecode(cur: bool, cs: seq<nat>)
    requires Accepted(cur, cs)
    ensures Encodable(cur, Bits(cur, cs)) && Encode(cur, Bits(cur, cs)) == cs
    decreases |cs|
  {
    if cs != [] {
      var t := Take(cur, cs[0]);
      var rest := Bits(t.next, cs[1..]);
      EncodeOfDecode(t.next, cs[1..]);
      assert Bits(cur, cs) == t.bits + rest;
      assert (t.bits + rest)[|t.bits|..] == rest;
      assert cs == [cs[0]] + cs[1..];
    }
  }

  lemma {:induction false} DecodeOfEncode(cur: bool, bits: seq<bool>)
    requires Encodable(cur, bits)
    ensures Accepted(cur, Encode(cur, bits)) && Bits(cur, Encode(cur, bits)) == bits
    decreases |bits|
  {
    if bits != [] {
      var cs := Encode(cur, bits);
      var t := Take(cur, cs[0]);
      DecodeOfEncode(t.next, bits[|t.bits|..]);
      assert cs[1..] == Encode(t.next, bits[|t.bits|..]);
      assert bits == t.bits + bits[|t.bits|..];
    }
  }

  /** No two accepted class sequences decode to the same bits. */
  lemma DecodeInjective(cs: seq<nat>, cs': seq<nat>)
    requires Accepted(false, cs) && Accepted(false, cs') && Bits(false, cs) == Bits(false, cs')
    ensures cs == cs'
  {
    EncodeOfDecode(false, cs);
    EncodeOfDecode(false, cs');
  }

  /* ----- the decoder ----- */

  /** How far the decoder gets: the longest accepted prefix. */
  function Reach(cur: bool, cs: seq<nat>): (k: nat)
    ensures k <= |cs|
    decreases |cs|
  {
    if cs == [] || Take(cur, cs[0]).Rejected? then 0
    else 1 + Reach(Take(cur, cs[0]).next, cs[1..])
  }

  lemma {:induction false} ReachIsLongest(cur: bool, cs: seq<nat>, n: nat)
    requires n <= |cs|
    ensures Accepted(cur, cs[..n]) <==> n <= Reach(cur, cs)
    decreases |cs|
  {
    if n > 0 {
      assert cs[..n][1..] == cs[1..][..n - 1];
      if Take(cur, cs[0]).Step? {
        ReachIsLongest(Take(cur, cs[0]).next, cs[1..], n - 1);
      }
    }
  }

  /** One more accepted class. */
  lemma {:induction false} OneMore(cur: bool, cs: seq<nat>, c: nat)
    requires Accepted(cur, cs)
    ensures Accepted(cur, cs + [c]) <==> Take(Last(cur, cs), c).Step?
    ensures Accepted(cur, cs + [c]) ==>
              Bits(cur, cs + [c]) == Bits(cur, cs) + Take(Last(cur, cs), c).bits
              && Last(cur, cs + [c]) == Take(Last(cur, cs), c).next
    decreases |cs|
  {
    hide Take;
    if cs == [] {
      assert cs + [c] == [c] && [c][1..] == [];
    } else {
      var t := Take(cur, cs[0]);
      assert (cs + [c])[0] == cs[0] && (cs + [c])[1..] == cs[1..] + [c];
      OneMore(t.next, cs[1..], c);
      assert Accepted(cur, cs + [c]) == Accepted(t.next, cs[1..] + [c]);
      assert Last(cur, cs) == Last(t.next, cs[1..]);
      if Accepted(cur, cs + [c]) {
        var more := Take(Last(cur, cs), c).bits;
        assert t.bits + (Bits(t.next, cs[1..]) + more) == Bits(cur, cs) + more;
      }
    }
  }

  /** The pulses from index start on. */
  function Pulses(runs: seq<nat>, start: nat, end: nat, cat: Categorizer): (ps: seq<PulseType>)
    requires cat.Ok() && start <= end <= |runs|
    ensures |ps| == end - start
  {
    seq(end - start, i requires 0 <= i < end - start => CategorizePulse(runs[start + i], (start + i) % 2, cat))
  }

  function Classes(ps: seq<PulseType>): (cs: seq<nat>)
    ensures |cs| == |ps|
  {
    seq(|ps|, i requires 0 <= i < |ps| => ps[i].halfBitLen)
  }

  /** The pulses of a scan by the tables: even runs low, odd runs high. */
  lemma PulsesOfTables(runs: seq<nat>, start: nat, end: nat, cat: Categorizer, i: nat)
    requires cat.Ok() && start <= i < end <= |runs|
    ensures var w := if runs[i] < |cat.low| then runs[i] else |cat.low| - 1;
      Pulses(runs, start, end, cat)[i - start] == if i % 2 == 0 then cat.low[w] else cat.high[w]
  {
    assert Pulses(runs, start, end, cat)[i - start] == CategorizePulse(runs[start + (i - start)], i % 2, cat);
  }

  /** The error count is the number of pulses in error. */
  lemma {:induction false} ErrorsAre(ps: seq<PulseType>)
    ensures Errors(ps) == |set i | 0 <= i < |ps| && ps[i].error|
  {
    if ps != [] {
      var n := |ps| - 1;
      ErrorsAre(ps[..n]);
      var a, b := set i | 0 <= i < n && ps[..n][i].error, set i | 0 <= i < |ps| && ps[i].error;
      assert b == a + if ps[n].error then {n} else {};
    }
  }

  function Errors(ps: seq<PulseType>): nat {
    if ps == [] then 0 else Errors(ps[..|ps| - 1]) + (if ps[|ps| - 1].error then 1 else 0)
  }

  /** Pulses looked at: those accepted, and the one that ended it unless it has
      no class at all. */
  function Counted(ps: seq<PulseType>): (n: nat)
    ensures n <= |ps|
  {
    var k := Reach(false, Classes(ps));
    if k < |ps| && ps[k].halfBitLen != 0 then k + 1 else k
  }

  /** Decodes until a pulse is not accepted. */
  method Decode(runs: seq<nat>, start: nat, end0: nat, cat: Categorizer) returns (data: seq<bool>, errorRate: nat)
    requires cat.Ok()
    ensures var end := if end0 > |runs| then |runs| else end0;
      var ps := if start < end then Pulses(runs, start, end, cat) else [];
      var cs := Classes(ps)[..Reach(false, Classes(ps))];
      Accepted(false, cs) && data == Bits(false, cs) && errorRate == Errors(ps[..Counted(ps)])
  {
    hide Accepted, Bits, Last, Reach, Errors;
    data, errorRate := [], 0;
    var end := if end0 > |runs| then |runs| else end0;
    if start >= end {
      NothingYet();
      return;
    }
    ghost var ps := Pulses(runs, start, end, cat);
    ghost var cs := Classes(ps);
    var currentBit := false;
    assert cs[..0] == [] && ps[..0] == [];
    NothingYet();
    for idx := start to end
      invariant Accepted(false, cs[..idx - start]) && data == Bits(false, cs[..idx - start])
      invariant currentBit == Last(false, cs[..idx - start])
      invariant errorRate == Errors(ps[..idx - start])
    {
      ghost var k := idx - start;
      var lastBit := currentBit;
      var pulse := CategorizePulse(runs[idx], idx % 2, cat);
      OneTurn(ps, k);
      assert pulse == ps[k];
      if pulse.halfBitLen == 0 {
        return;
      }
      if pulse.error {
        errorRate := errorRate + 1;
      }
      if pulse.halfBitLen == 2 {
        data := data + [currentBit];
      } else if pulse.halfBitLen == 3 {
        if !lastBit {
          currentBit := true;
          data := data + [lastBit] + [currentBit];
        } else {
          currentBit := false;
          data := data + [currentBit];
        }
      } else if pulse.halfBitLen == 4 {
        if !lastBit {
          return;
        }
        data := data + [false] + [lastBit];
        currentBit := lastBit;
      } else {
        return;
      }
    }
    AllReached(ps);
  }

  lemma NothingYet()
    ensures Accepted(false, []) && Bits(false, []) == [] && Last(false, []) == false && Errors([]) == 0
  {
  }

  /** What the next pulse does to the decoder's result. */
  lemma OneTurn(ps: seq<PulseType>, k: nat)
    requires k < |ps| && Accepted(false, Classes(ps)[..k])
    ensures var cs := Classes(ps);
      var t := Take(Last(false, cs[..k]), ps[k].halfBitLen);
      && (t.Rejected? ==> Reach(false, cs) == k)
      && (t.Step? ==> Accepted(false, cs[..k + 1]) && Bits(false, cs[..k + 1]) == Bits(false, cs[..k]) + t.bits
                      && Last(false, cs[..k + 1]) == t.next)
    ensures Errors(ps[..k + 1]) == Errors(ps[..k]) + (if ps[k].error then 1 else 0)
  {
    var cs := Classes(ps);
    assert cs[..k + 1] == cs[..k] + [cs[k]];
    OneMore(false, cs[..k], cs[k]);
    ReachIsLongest(false, cs, k);
    ReachIsLongest(false, cs, k + 1);
    assert ps[..k + 1][..k] == ps[..k];
  }

  lemma AllReached(ps: seq<PulseType>)
    requires Accepted(false, Classes(ps)[..|ps|])
    ensures Reach(false, Classes(ps)) == |ps| == Counted(ps)
  {
    ReachIsLongest(false, Classes(ps), |ps|);
  }
}
