/** The program exit stack of the I/O processor: 16 return addresses, an index
    that wraps around, and a flag that reports its boundaries. */
module IopStack {

  type Addr = a: int | 0 <= a < 0x1_0000

  const DEPTH: nat := 16

  datatype Pxs = Pxs(e: nat, slots: seq<Addr>, flag: bool)

  predicate Ok(p: Pxs) {
    p.e < DEPTH && |p.slots| == DEPTH
  }

  function Pushed(p: Pxs, a: Addr): (q: Pxs)
    requires Ok(p)
    ensures Ok(q)
  {
    var e := (p.e + 1) % DEPTH;
    Pxs(e, p.slots[e := a], p.flag || e >= 14)
  }

  function Popped(p: Pxs): (r: (Addr, Pxs))
    requires Ok(p)
    ensures Ok(r.1)
  {
    (p.slots[p.e], Pxs((p.e + 15) % DEPTH, p.slots, p.flag || p.e == 0))
  }

  /** What the channel functions of the stack do to it: 0 clears the flag, 12
      sets the index, 13 writes the slot at the index. */
  function Controlled(p: Pxs, func: nat, data: Addr): (q: Pxs)
    requires Ok(p)
    ensures Ok(q)
    ensures func != 12 && func != 13 ==> q.e == p.e && q.slots == p.slots
  {
    if func == 0 then p.(flag := false)
    else if func == 12 then p.(e := data % DEPTH)
    else if func == 13 then p.(slots := p.slots[p.e := data])
    else p
  }

  /** The index is taken from the low byte. */
  lemma LowByte(data: Addr)
    ensures data % 256 % 16 == data % DEPTH
  {
  }

  function Cleared(): (p: Pxs)
    ensures Ok(p)
  {
    Pxs(0, seq(DEPTH, _ => 0), false)
  }

  /* ----- calls and returns ----- */

  datatype Op = Push(addr: Addr) | Pop

  /** What the pops of a run return, and where it ends. */
  function Run(p: Pxs, ops: seq<Op>): (r: (seq<Addr>, Pxs))
    requires Ok(p)
    ensures Ok(r.1)
    decreases |ops|
  {
    if ops == [] then ([], p)
    else
      match ops[0]
      case Push(a) => Run(Pushed(p, a), ops[1..])
      case Pop =>
        var (a, q) := Popped(p);
        var r := Run(q, ops[1..]);
        ([a] + r.0, r.1)
  }

  datatype Ideal = Returns(addrs: seq<Addr>, left: seq<Addr>) | NotNested

  /** The same run on a stack without bounds; NotNested when it pops more than
      it pushed or ever has more than 16 addresses live. */
  function IdealRun(st: seq<Addr>, ops: seq<Op>): Ideal
    decreases |ops|
  {
    if |st| > DEPTH then NotNested
    else if ops == [] then Returns([], st)
    else
      match ops[0]
      case Push(a) => IdealRun(st + [a], ops[1..])
      case Pop =>
        if st == [] then NotNested
        else
          match IdealRun(st[..|st| - 1], ops[1..])
          case NotNested => NotNested
          case Returns(addrs, left) => Returns([st[|st| - 1]] + addrs, left)
  }

  /** The slot i places below index e. */
  function Below(e: nat, i: nat): (k: nat)
    requires e < DEPTH && i < DEPTH
    ensures k < DEPTH
  {
    (e + DEPTH - i) % DEPTH
  }

  lemma BelowFacts(e: nat, i: nat)
    requires e < DEPTH && i < DEPTH
    ensures Below(e, 0) == e
    ensures i > 0 ==> Below((e + 1) % DEPTH, i) == Below(e, i - 1) != (e + 1) % DEPTH
    ensures i + 1 < DEPTH ==> Below((e + 15) % DEPTH, i) == Below(e, i + 1)
  {
    hide Below;
    BelowIs(e, 0);
    BelowIs((e + 1) % DEPTH, i);
    BelowIs((e + 15) % DEPTH, i);
    if i > 0 {
      BelowIs(e, i - 1);
    }
    if i + 1 < DEPTH {
      BelowIs(e, i + 1);
    }
  }

  lemma BelowIs(e: nat, i: nat)
    requires e < DEPTH && i < DEPTH
    ensures Below(e, i) == if i <= e then e - i else e + DEPTH - i
  {
  }

  /** The addresses of st are in the slots below and at E, the latest at E. */
  predicate Live(p: Pxs, st: seq<Addr>)
    requires Ok(p)
  {
    |st| <= DEPTH && forall i :: 0 <= i < |st| ==> p.slots[Below(p.e, i)] == st[|st| - 1 - i]
  }

  lemma LivePush(p: Pxs, st: seq<Addr>, a: Addr)
    requires Ok(p) && Live(p, st) && |st| < DEPTH
    ensures Live(Pushed(p, a), st + [a])
  {
    hide Below;
    var q, st' := Pushed(p, a), st + [a];
    forall i | 0 <= i < |st'|
      ensures q.slots[Below(q.e, i)] == st'[|st'| - 1 - i]
    {
      BelowFacts(p.e, i);
      BelowFacts(q.e, i);
      if i > 0 {
        assert p.slots[Below(p.e, i - 1)] == st[|st| - 1 - (i - 1)];
      }
    }
  }

  lemma LivePop(p: Pxs, st: seq<Addr>)
    requires Ok(p) && Live(p, st) && st != []
    ensures Popped(p).0 == st[|st| - 1] && Live(Popped(p).1, st[..|st| - 1])
  {
    hide Below;
    var q, st' := Popped(p).1, st[..|st| - 1];
    BelowFacts(p.e, 0);
    assert p.slots[Below(p.e, 0)] == st[|st| - 1 - 0];
    forall i | 0 <= i < |st'|
      ensures q.slots[Below(q.e, i)] == st'[|st'| - 1 - i]
    {
      BelowFacts(p.e, i);
      assert p.slots[Below(p.e, i + 1)] == st[|st| - 1 - (i + 1)];
    }
  }

  /** From any index on, as long as no more than 16 addresses are live, every
      return gets the address of its call. */
  lemma {:induction false} CallsReturn(p: Pxs, st: seq<Addr>, ops: seq<Op>)
    requires Ok(p) && Live(p, st) && IdealRun(st, ops).Returns?
    ensures Run(p, ops).0 == IdealRun(st, ops).addrs
    ensures Live(Run(p, ops).1, IdealRun(st, ops).left)
    decreases |ops|
  {
    hide Live, Pushed, Popped;
    if ops != [] {
      match ops[0]
      case Push(a) =>
        NestedFits(st + [a], ops[1..]);
        LivePush(p, st, a);
        CallsReturn(Pushed(p, a), st + [a], ops[1..]);
      case Pop =>
        LivePop(p, st);
        CallsReturn(Popped(p).1, st[..|st| - 1], ops[1..]);
    }
  }

  lemma NestedFits(st: seq<Addr>, ops: seq<Op>)
    requires IdealRun(st, ops).Returns?
    ensures |st| <= DEPTH
  {
  }

  lemma NoneLive(p: Pxs)
    requires Ok(p)
    ensures Live(p, [])
  {
  }

  /** Whatever is in the slot at the index is live. */
  lemma OneLive(p: Pxs)
    requires Ok(p)
    ensures Live(p, [p.slots[p.e]])
  {
    BelowFacts(p.e, 0);
  }

  /** Only index and slots matter. */
  lemma SameLive(p: Pxs, q: Pxs, st: seq<Addr>)
    requires Ok(p) && Ok(q) && Live(p, st) && q.e == p.e && q.slots == p.slots
    ensures Live(q, st)
  {
  }

  /** Index e' is k places above e, around the stack. */
  predicate Above(e: nat, e': nat, k: int) {
    e' == (e + k) % DEPTH
  }

  lemma AboveTwice(a: nat, b: nat, c: nat, k: int, l: int)
    requires Above(a, b, k) && Above(b, c, l)
    ensures Above(a, c, k + l)
  {
  }

  lemma IndexMoves(p: Pxs, a: Addr)
    requires Ok(p)
    ensures Above(p.e, p.e, 0) && Above(p.e, Pushed(p, a).e, 1) && Above(p.e, Popped(p).1.e, -1)
  {
  }

  /* ----- the boundary flag ----- */

  /** Calls minus returns. */
  function Balance(ops: seq<Op>): int {
    if ops == [] then 0 else (if ops[0].Push? then 1 else -1) + Balance(ops[1..])
  }

  lemma {:induction false} FlagStays(p: Pxs, ops: seq<Op>)
    requires Ok(p) && p.flag
    ensures Run(p, ops).1.flag
    decreases |ops|
  {
    if ops != [] {
      match ops[0]
      case Push(a) => FlagStays(Pushed(p, a), ops[1..]);
      case Pop => FlagStays(Popped(p).1, ops[1..]);
    }
  }

  /** As long as the flag is clear the index has not wrapped: it counts calls
      minus returns, and the interrupt vector in slot 0 is untouched. */
  lemma {:induction false} FlagGuards(p: Pxs, ops: seq<Op>)
    requires Ok(p) && p.e < 14 && !Run(p, ops).1.flag
    ensures var q := Run(p, ops).1;
      q.e == p.e + Balance(ops) && q.e < 14 && q.slots[0] == p.slots[0]
    decreases |ops|
  {
    if p.flag {
      FlagStays(p, ops);
      assert false;
    } else if ops != [] {
      match ops[0]
      case Push(a) =>
        if Pushed(p, a).flag {
          FlagStays(Pushed(p, a), ops[1..]);
          assert false;
        } else {
          FlagGuards(Pushed(p, a), ops[1..]);
        }
      case Pop =>
        if Popped(p).1.flag {
          FlagStays(Popped(p).1, ops[1..]);
          assert false;
        } else {
          FlagGuards(Popped(p).1, ops[1..]);
        }
    }
  }

  /** The index stays away from both ends of the stack. */
  predicate Inside(e: int, ops: seq<Op>) {
    forall k :: 0 <= k <= |ops| ==> 0 <= e + Balance(ops[..k]) < 14
  }

  lemma {:induction false} BalanceCons(op: Op, ops: seq<Op>, k: nat)
    requires k <= |ops|
    ensures ([op] + ops)[..k + 1] == [op] + ops[..k]
    ensures Balance(([op] + ops)[..k + 1]) == (if op.Push? then 1 else -1) + Balance(ops[..k])
  {
    assert ([op] + ops[..k])[1..] == ops[..k];
  }

  lemma InsideCons(e: int, op: Op, ops: seq<Op>)
    ensures Inside(e, [op] + ops) <==> 0 <= e < 14 && Inside(e + if op.Push? then 1 else -1, ops)
  {
    var d := if op.Push? then 1 else -1;
    assert Balance(([op] + ops)[..0]) == 0;
    if Inside(e, [op] + ops) {
      forall k | 0 <= k <= |ops|
        ensures 0 <= e + d + Balance(ops[..k]) < 14
      {
        BalanceCons(op, ops, k);
        assert 0 <= e + Balance(([op] + ops)[..k + 1]) < 14;
      }
    }
    if 0 <= e < 14 && Inside(e + d, ops) {
      forall k | 0 <= k <= |ops| + 1
        ensures 0 <= e + Balance(([op] + ops)[..k]) < 14
      {
        if k > 0 {
          BalanceCons(op, ops, k - 1);
        }
      }
    }
  }

  lemma OutsideAtOnce(e: int, ops: seq<Op>)
    requires !(0 <= e < 14)
    ensures !Inside(e, ops)
  {
    assert Balance(ops[..0]) == 0;
  }

  /** The flag is raised exactly by a run that reaches slot 14 or pops slot 0. */
  lemma {:induction false} FlagRaised(p: Pxs, ops: seq<Op>)
    requires Ok(p) && p.e < 14 && !p.flag
    ensures Run(p, ops).1.flag <==> !Inside(p.e, ops)
    decreases |ops|
  {
    hide Inside;
    if ops == [] {
      assert Inside(p.e, []) by { InsideNone(p.e); }
    } else {
      assert ops == [ops[0]] + ops[1..];
      InsideCons(p.e, ops[0], ops[1..]);
      var q := if ops[0].Push? then Pushed(p, ops[0].addr) else Popped(p).1;
      if q.flag {
        FlagStays(q, ops[1..]);
        OutsideAtOnce(p.e + if ops[0].Push? then 1 else -1, ops[1..]);
      } else {
        FlagRaised(q, ops[1..]);
      }
    }
  }

  lemma InsideNone(e: int)
    requires 0 <= e < 14
    ensures Inside(e, [])
  {
  }

  /** Functions 12 and 13 set the index and write the slot there, so that the
      next return goes where they say; function 0 clears the flag only. */
  lemma ControlEffects(p: Pxs, i: Addr, a: Addr)
    requires Ok(p)
    ensures var q := Controlled(Controlled(p, 12, i), 13, a);
      && q.e == i % 16 && Popped(q).0 == a && q.flag == p.flag
      && forall k :: 0 <= k < 16 && k != i % 16 ==> q.slots[k] == p.slots[k]
    ensures Controlled(p, 0, a) == Pxs(p.e, p.slots, false)
  {
  }

  /* ----- the channel object ----- */

  class ExitStack {
    var e: nat
    const programExitStack: array<Addr>
    var boundaryFlag: bool
    var interruptEnabled: bool

    ghost predicate Valid()
      reads this`e
    {
      e < DEPTH && programExitStack.Length == DEPTH
    }

    ghost function Value(): Pxs
      reads this, programExitStack
    {
      Pxs(e, programExitStack[..], boundaryFlag)
    }

    constructor ()
      ensures Valid() && Value() == Cleared() && !interruptEnabled && fresh(programExitStack)
      ensures e == 0 && !boundaryFlag && forall i :: 0 <= i < 16 ==> programExitStack[i] == 0
    {
      programExitStack := new Addr[DEPTH](_ => 0);
      e, boundaryFlag, interruptEnabled := 0, false, false;
    }

    method MasterClear()
      requires Valid()
      modifies this, programExitStack
      ensures Valid() && Value() == Cleared() && !interruptEnabled
      ensures e == 0 && !boundaryFlag && forall i :: 0 <= i < 16 ==> programExitStack[i] == 0
    {
      e, boundaryFlag, interruptEnabled := 0, false, false;
      forall i | 0 <= i < programExitStack.Length {
        programExitStack[i] := 0;
      }
      assert programExitStack[..] == Cleared().slots;
    }

    method PushAddr(a: Addr)
      requires Valid()
      modifies this, programExitStack
      ensures Valid() && Value() == Pushed(old(Value()), a) && interruptEnabled == old(interruptEnabled)
    {
      e := (e + 1) % DEPTH;
      programExitStack[e] := a;
      if !boundaryFlag {
        boundaryFlag := e >= 14;
      }
    }

    method PopAddr() returns (a: Addr)
      requires Valid()
      modifies this
      ensures Valid() && (a, Value()) == Popped(old(Value())) && interruptEnabled == old(interruptEnabled)
    {
      if !boundaryFlag {
        boundaryFlag := e == 0;
      }
      a := programExitStack[e];
      e := (e + 15) % DEPTH;
    }

    /** The channel functions of the stack. */
    method DoIo(func: nat, data: Addr) returns (r: Addr)
      requires Valid()
      modifies this, programExitStack
      ensures Valid()
      ensures r == (if func == 8 then old(e) else if func == 9 then old(programExitStack[e]) else 0)
      ensures Value() == Controlled(old(Value()), func, data)
      ensures interruptEnabled == if func == 6 then false else if func == 7 then true else old(interruptEnabled)
    {
      r := 0;
      if func == 0 {
        boundaryFlag := false;
      } else if func == 6 {
        interruptEnabled := false;
      } else if func == 7 {
        interruptEnabled := true;
      } else if func == 8 {
        r := e;
      } else if func == 9 {
        r := programExitStack[e];
      } else if func == 12 {
        LowByte(data);
        e := data % 256 % 16;
      } else if func == 13 {
        programExitStack[e] := data;
      }
    }
  }
}
