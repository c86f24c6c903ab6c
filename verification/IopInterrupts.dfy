/** Control flow of the I/O processor: calls and returns through the exit
    stack, interrupts, and the delayed enabling of interrupts. */
module IopInterrupts {
  import opened IopStack

  /** An instruction as far as control flow goes: what conditions and operands
      evaluated to is part of it. */
  datatype Instr =
    | Plain(length: nat)                       // no branch, no channel
    | DisableI                                 // I = 0
    | EnableI                                  // I = 1
    | Exit
    | Jump(target: Addr, taken: bool, length: nat)
    | Call(target: Addr, taken: bool, length: nat)
    | ChannelIo(present: bool)                 // a channel function, not of the exit stack
    | StackIo(func: nat, data: Addr)           // a function of the exit stack's channel
    | ChannelTest                              // the tests for done and busy, absent channels included

  /** Program counter, interrupt enable, enable waiting, exit stack. */
  datatype Cpu = Cpu(p: Addr, i: bool, waiting: bool, pxs: Pxs)

  function Plus(p: Addr, n: nat): Addr {
    (p + n) % 0x1_0000
  }

  /** The instructions behind which a waiting enable still waits. */
  predicate Delays(x: Instr) {
    x.EnableI? || x.Exit? || x.Jump? || x.Call? || (x.ChannelIo? && x.present) || x.StackIo? || x.ChannelTest?
  }

  predicate BreaksBurst(x: Instr) {
    x.EnableI? || x.Exit? || x.ChannelIo? || x.StackIo? || x.ChannelTest? || (x.Call? && x.taken)
  }

  /** One instruction, with the enable that may have been waiting. */
  function Step(s: Cpu, x: Instr): (t: Cpu)
    requires Ok(s.pxs)
    ensures Ok(t.pxs)
  {
    var (p, pxs) :=
      match x
      case Exit => Popped(s.pxs)
      case Jump(target, taken, length) => (if taken then target else Plus(s.p, length), s.pxs)
      case Call(target, taken, length) =>
        if taken then (target, Pushed(s.pxs, Plus(s.p, length))) else (Plus(s.p, length), s.pxs)
      case Plain(length) => (Plus(s.p, length), s.pxs)
      case StackIo(func, data) => (Plus(s.p, 1), Controlled(s.pxs, func, data))
      case _ => (Plus(s.p, 1), s.pxs);
    var waiting := if x.DisableI? then false else if x.EnableI? then true else s.waiting;
    var i := if x.DisableI? then false else s.i;
    if !Delays(x) && waiting then Cpu(p, true, false, pxs) else Cpu(p, i, waiting, pxs)
  }

  /** Taking an interrupt: the vector is in slot 0 of the exit stack, read after
      the program counter has been pushed. */
  function Interrupted(s: Cpu): (t: Cpu)
    requires Ok(s.pxs)
    ensures Ok(t.pxs)
  {
    var pxs := Pushed(s.pxs, s.p);
    Cpu(pxs.slots[0], false, s.waiting, pxs)
  }

  /* ----- runs ----- */

  /** A check for interrupts, or an instruction. */
  datatype Event = Check(pending: bool) | Exec(instr: Instr)

  predicate Takes(s: Cpu, e: Event) {
    e.Check? && e.pending && s.i
  }

  function After(s: Cpu, e: Event): (t: Cpu)
    requires Ok(s.pxs)
    ensures Ok(t.pxs)
  {
    match e
    case Check(_) => if Takes(s, e) then Interrupted(s) else s
    case Exec(x) => Step(s, x)
  }

  function RunAll(s: Cpu, es: seq<Event>): (t: Cpu)
    requires Ok(s.pxs)
    ensures Ok(t.pxs)
    decreases |es|
  {
    if es == [] then s else RunAll(After(s, es[0]), es[1..])
  }

  /** How many interrupts a run takes. */
  function Taken(s: Cpu, es: seq<Event>): nat
    requires Ok(s.pxs)
    decreases |es|
  {
    if es == [] then 0 else (if Takes(s, es[0]) then 1 else 0) + Taken(After(s, es[0]), es[1..])
  }

  lemma {:induction false} RunSplit(s: Cpu, es: seq<Event>, fs: seq<Event>)
    requires Ok(s.pxs)
    ensures RunAll(s, es + fs) == RunAll(RunAll(s, es), fs)
    ensures Taken(s, es + fs) == Taken(s, es) + Taken(RunAll(s, es), fs)
    decreases |es|
  {
    hide After, Takes;
    if es == [] {
      assert es + fs == fs;
    } else {
      assert (es + fs)[0] == es[0] && (es + fs)[1..] == es[1..] + fs;
      RunSplit(After(s, es[0]), es[1..], fs);
    }
  }

  /* ----- the delayed enable ----- */

  predicate OnlyDelaying(es: seq<Event>) {
    forall k :: 0 <= k < |es| ==> es[k].Check? || Delays(es[k].instr)
  }

  /** While interrupts are off and only delaying instructions are executed, no
      interrupt is taken, however many are pending and whenever it is checked. */
  lemma {:induction false} StillOff(s: Cpu, es: seq<Event>)
    requires Ok(s.pxs) && !s.i && OnlyDelaying(es)
    ensures Taken(s, es) == 0 && !RunAll(s, es).i
    ensures s.waiting ==> RunAll(s, es).waiting
    decreases |es|
  {
    hide Pushed, Popped;
    if es != [] {
      StillOff(After(s, es[0]), es[1..]);
    }
  }

  /** From I = 0: once I = 1 has been executed, no interrupt is taken until some
      later instruction that is neither branch, return, channel test nor a
      function of an existing channel has been completed; then, unless it is I = 0, the first pending one is. */
  lemma EnableIsDelayed(s: Cpu, es: seq<Event>, x: Instr)
    requires Ok(s.pxs) && !s.i && OnlyDelaying(es) && !Delays(x)
    ensures var run := [Exec(EnableI)] + es + [Exec(x)];
      Taken(s, run) == 0 && (x.DisableI? <==> !RunAll(s, run).i) && !RunAll(s, run).waiting
    ensures var run := [Exec(EnableI)] + es + [Exec(x)] + [Check(true)];
      Taken(s, run) == if x.DisableI? then 0 else 1
  {
    hide Pushed, Popped, RunAll, Taken;
    var a, b, c := [Exec(EnableI)], [Exec(x)], [Check(true)];
    RunSplit(s, a + es, b);
    RunSplit(s, a, es);
    RunSplit(s, a + es + b, c);
    OneEvent(s, a[0]);
    var s1 := RunAll(s, a);
    StillOff(s1, es);
    var s2 := RunAll(s1, es);
    OneEvent(s2, b[0]);
    OneEvent(RunAll(s2, b), c[0]);
  }

  /** A channel function of a channel that does not exist ends the delay as any
      plain instruction does; a test of such a channel does not. */
  lemma NoChannelEndsDelay(s: Cpu, es: seq<Event>)
    requires Ok(s.pxs) && !s.i && OnlyDelaying(es)
    ensures Taken(s, [Exec(EnableI)] + es + [Exec(ChannelIo(false))] + [Check(true)]) == 1
  {
    EnableIsDelayed(s, es, ChannelIo(false));
  }

  lemma OneEvent(s: Cpu, e: Event)
    requires Ok(s.pxs)
    ensures RunAll(s, [e]) == After(s, e) && Taken(s, [e]) == if Takes(s, e) then 1 else 0
  {
    hide After;
    assert [e][1..] == [];
  }

  /* ----- where instructions lead ----- */

  /** An interrupt leads to the address in slot 0, which is the interrupted one
      itself when the push wraps around to it. */
  lemma InterruptLeads(s: Cpu)
    requires Ok(s.pxs) && s.i
    ensures var t := RunAll(s, [Check(true)]);
      t.p == (if s.pxs.e == 15 then s.p else s.pxs.slots[0]) && !t.i && t.waiting == s.waiting
  {
    OneEvent(s, Check(true));
  }

  /** The address after each kind of instruction. */
  lemma NextAddress(s: Cpu, x: Instr)
    requires Ok(s.pxs)
    ensures var p := RunAll(s, [Exec(x)]).p;
      if (x.Jump? || x.Call?) && x.taken then p == x.target
      else if x.Exit? then p == s.pxs.slots[s.pxs.e]
      else p == (s.p + if x.Plain? || x.Jump? || x.Call? then x.length else 1) % 0x1_0000
  {
    hide Controlled, Pushed;
    OneEvent(s, Exec(x));
  }

  /** The instruction behind an I = 1 from I = 0 is the one that enables when it
      is plain or a function of an absent channel. */
  lemma EnablesBehind(s: Cpu, x: Instr)
    requires Ok(s.pxs) && !s.i
    ensures RunAll(s, [Exec(EnableI), Exec(x)]).i <==> x.Plain? || (x.ChannelIo? && !x.present)
  {
    hide Controlled, Pushed, Popped;
    assert [Exec(EnableI), Exec(x)][1..] == [Exec(x)];
    OneEvent(After(s, Exec(EnableI)), Exec(x));
  }

  /** The burst ends behind what delays, but for jumps and calls not taken, and
      behind functions of absent channels. */
  lemma EndsBurst(x: Instr)
    ensures BreaksBurst(x) <==> (Delays(x) && !x.Jump? && !(x.Call? && !x.taken)) || (x.ChannelIo? && !x.present)
  {
  }

  /** A subroutine of nested calls returns behind its call. */
  lemma CallReturns(s: Cpu, target: Addr, length: nat, body: seq<Event>)
    requires Ok(s.pxs) && !s.i && !s.waiting && AllHarmless(body)
    requires var s1 := After(s, Exec(Call(target, true, length)));
      IdealRun([Plus(s.p, length)], StackOps(s1, body)).Returns?
      && IdealRun([Plus(s.p, length)], StackOps(s1, body)).left == [Plus(s.p, length)]
    ensures var call := [Exec(Call(target, true, length))];
      && RunAll(s, call).p == target
      && RunAll(s, call + body + [Exec(Exit)]).p == (s.p + length) % 0x1_0000
  {
    hide Live, Pushed, Popped, RunAll, Taken, StackOps, IdealRun;
    var call, exit, a := [Exec(Call(target, true, length))], [Exec(Exit)], Plus(s.p, length);
    OneEvent(s, call[0]);
    NoneLive(s.pxs);
    LivePush(s.pxs, [], a);
    assert [] + [a] == [a];
    var s1 := After(s, call[0]);
    Uninterrupted(s1, body, [a]);
    RunSplit(s, call, body);
    RunSplit(s, call + body, exit);
    var s2 := RunAll(s1, body);
    LivePop(s2.pxs, [a]);
    OneEvent(s2, exit[0]);
  }

  /* ----- handlers ----- */

  /** What instructions and checks do to the exit stack while interrupts are
      off: calls push, returns pop.  Functions of its channel are apart. */
  function StackOp(s: Cpu, e: Event): seq<Op> {
    if e.Exec? && e.instr.Exit? then [Pop]
    else if e.Exec? && e.instr.Call? && e.instr.taken then [Push(Plus(s.p, e.instr.length))]
    else []
  }

  function StackOps(s: Cpu, es: seq<Event>): seq<Op>
    requires Ok(s.pxs)
    decreases |es|
  {
    if es == [] then [] else StackOp(s, es[0]) + StackOps(After(s, es[0]), es[1..])
  }

  /** No I = 1, and no writing to the index or the slots of the exit stack. */
  predicate Harmless(e: Event) {
    e.Exec? ==> !e.instr.EnableI? && !(e.instr.StackIo? && e.instr.func in {12, 13})
  }

  predicate AllHarmless(es: seq<Event>) {
    forall k :: 0 <= k < |es| ==> Harmless(es[k])
  }

  /** With interrupts off and no enable waiting, code that neither executes I = 1
      nor writes to the exit stack is not interrupted, keeps return addresses as
      long as its own calls are nested, and moves the index as they say. */
  lemma {:induction false} Uninterrupted(s: Cpu, es: seq<Event>, st: seq<Addr>)
    requires Ok(s.pxs) && !s.i && !s.waiting && AllHarmless(es) && Live(s.pxs, st)
    requires IdealRun(st, StackOps(s, es)).Returns?
    ensures var t := RunAll(s, es);
      var left := IdealRun(st, StackOps(s, es)).left;
      Taken(s, es) == 0 && !t.i && !t.waiting && Live(t.pxs, left) && Above(s.pxs.e, t.pxs.e, |left| - |st|)
    decreases |es|
  {
    hide Live, After, StackOp, Takes, Above;
    if es == [] {
      NestedFits(st, []);
      IndexMoves(s.pxs, 0);
    } else {
      var t := After(s, es[0]);
      var st' := StackStep(s, es[0], st, StackOps(t, es[1..]));
      Uninterrupted(t, es[1..], st');
      var left := IdealRun(st', StackOps(t, es[1..])).left;
      AboveTwice(s.pxs.e, t.pxs.e, RunAll(t, es[1..]).pxs.e, |st'| - |st|, |left| - |st'|);
    }
  }

  /** One event of such code. */
  lemma StackStep(s: Cpu, e: Event, st: seq<Addr>, more: seq<Op>) returns (st': seq<Addr>)
    requires Ok(s.pxs) && !s.i && !s.waiting && Live(s.pxs, st) && Harmless(e)
    requires IdealRun(st, StackOp(s, e) + more).Returns?
    ensures var t := After(s, e);
      !Takes(s, e) && !t.i && !t.waiting && Live(t.pxs, st') && Above(s.pxs.e, t.pxs.e, |st'| - |st|)
    ensures IdealRun(st', more).Returns? && IdealRun(st', more).left == IdealRun(st, StackOp(s, e) + more).left
  {
    hide Live, Pushed, Popped, Above;
    var ops := StackOp(s, e) + more;
    IndexMoves(s.pxs, if e.Exec? && e.instr.Call? then Plus(s.p, e.instr.length) else 0);
    if StackOp(s, e) == [] {
      assert ops == more;
      st' := st;
      SameLive(s.pxs, After(s, e).pxs, st);
    } else {
      assert ops[1..] == more;
      if e.instr.Exit? {
        LivePop(s.pxs, st);
        st' := st[..|st| - 1];
      } else {
        var a := Plus(s.p, e.instr.length);
        NestedFits(st + [a], more);
        LivePush(s.pxs, st, a);
        st' := st + [a];
      }
    }
  }

  /** An interrupt handler of balanced calls that ends with I = 1 and EXIT and
      does not write to the exit stack: the interrupted code goes on exactly
      where it was interrupted, with the stack's index as it was, without any
      other interrupt in between, and with the enable still waiting. */
  lemma HandlerReturns(s: Cpu, body: seq<Event>)
    requires Ok(s.pxs) && s.i && !s.waiting && AllHarmless(body)
    requires IdealRun([s.p], StackOps(Interrupted(s), body)).Returns?
    requires IdealRun([s.p], StackOps(Interrupted(s), body)).left == [s.p]
    ensures var run := [Check(true)] + body + [Exec(EnableI), Exec(Exit)];
      var t := RunAll(s, run);
      Taken(s, run) == 1 && t.p == s.p && !t.i && t.waiting && t.pxs.e == s.pxs.e
  {
    hide Live, Pushed, Popped, RunAll, Taken, StackOps, IdealRun;
    IndexMoves(s.pxs, s.p);
    var a, b := [Check(true)], [Exec(EnableI), Exec(Exit)];
    OneEvent(s, a[0]);
    NoneLive(s.pxs);
    LivePush(s.pxs, [], s.p);
    assert [] + [s.p] == [s.p];
    Uninterrupted(Interrupted(s), body, [s.p]);
    RunSplit(s, a, body);
    RunSplit(s, a + body, b);
    LastTwo(RunAll(s, a + body), s.p);
    AboveTwice(s.pxs.e, Interrupted(s).pxs.e, RunAll(s, a + body).pxs.e, 1, 0);
    AboveTwice(s.pxs.e, RunAll(s, a + body).pxs.e, RunAll(s, a + body + b).pxs.e, 1, -1);
  }

  /** A handler that writes to the slot of its return address returns there. */
  lemma HandlerDiverted(s: Cpu, to: Addr)
    requires Ok(s.pxs) && s.i && !s.waiting
    ensures RunAll(s, [Check(true)] + [Exec(StackIo(13, to))] + [Exec(EnableI), Exec(Exit)]).p == to
  {
    hide Live, Pushed, Popped, RunAll;
    var a, body, b := [Check(true)], [Exec(StackIo(13, to))], [Exec(EnableI), Exec(Exit)];
    OneEvent(s, a[0]);
    RunSplit(s, a, body);
    var s1 := Interrupted(s);
    OneEvent(s1, body[0]);
    RunSplit(s, a + body, b);
    var t := RunAll(s, a + body);
    OneLive(t.pxs);
    LastTwo(t, to);
  }

  lemma LastTwo(t: Cpu, p: Addr)
    requires Ok(t.pxs) && !t.i && !t.waiting && Live(t.pxs, [p])
    ensures var b := [Exec(EnableI), Exec(Exit)];
      RunAll(t, b).p == p && !RunAll(t, b).i && RunAll(t, b).waiting && Taken(t, b) == 0
      && Above(t.pxs.e, RunAll(t, b).pxs.e, -1)
  {
    hide Live;
    var b := [Exec(EnableI), Exec(Exit)];
    var t1 := After(t, b[0]);
    LivePop(t1.pxs, [p]);
    IndexMoves(t1.pxs, p);
    assert b[1..] == [Exec(Exit)];
    OneEvent(t1, b[1]);
  }

  /* ----- enabling twice ----- */

  /** I = 1 is executed only while interrupts are off. */
  predicate EnablesWhenOff(s: Cpu, es: seq<Event>)
    requires Ok(s.pxs)
    decreases |es|
  {
    es != [] ==> (es[0] == Exec(EnableI) ==> !s.i) && EnablesWhenOff(After(s, es[0]), es[1..])
  }

  /** Interrupts are on and an enable is waiting. */
  predicate Both(s: Cpu) {
    s.i && s.waiting
  }

  /** That is exactly what keeps an enable from ever waiting while interrupts
      are on, so that every interrupt finds the state HandlerReturns asks for. */
  lemma {:induction false} NeverBoth(s: Cpu, es: seq<Event>)
    requires Ok(s.pxs) && !Both(s)
    ensures EnablesWhenOff(s, es) <==> forall k :: 0 <= k <= |es| ==> !Both(RunAll(s, es[..k]))
    decreases |es|
  {
    hide Pushed, Popped, RunAll, EnablesWhenOff;
    NoEvent(s);
    assert es[..0] == [];
    if es == [] {
      assert EnablesWhenOff(s, es);
    } else {
      var t := After(s, es[0]);
      FirstEnables(s, es);
      forall k | 0 < k <= |es|
        ensures RunAll(s, es[..k]) == RunAll(t, es[1..][..k - 1])
      {
        FirstEvent(s, es[..k]);
        assert es[..k][1..] == es[1..][..k - 1];
      }
      if Both(t) {
        NoEvent(t);
        assert es[1..][..0] == [];
        assert Both(RunAll(s, es[..1]));
      } else {
        NeverBoth(t, es[1..]);
        if forall k :: 0 <= k <= |es| ==> !Both(RunAll(s, es[..k])) {
          forall k | 0 <= k <= |es[1..]|
            ensures !Both(RunAll(t, es[1..][..k]))
          {
            assert !Both(RunAll(s, es[..k + 1]));
          }
        }
      }
    }
  }

  lemma NoEvent(s: Cpu)
    requires Ok(s.pxs)
    ensures RunAll(s, []) == s && EnablesWhenOff(s, [])
  {
  }

  lemma FirstEvent(s: Cpu, es: seq<Event>)
    requires Ok(s.pxs) && es != []
    ensures RunAll(s, es) == RunAll(After(s, es[0]), es[1..])
  {
  }

  /** An enable waits while interrupts are on right behind an I = 1 that was
      executed with interrupts on. */
  lemma FirstEnables(s: Cpu, es: seq<Event>)
    requires Ok(s.pxs) && !Both(s) && es != []
    ensures var t := After(s, es[0]);
      EnablesWhenOff(s, es) <==> !Both(t) && EnablesWhenOff(t, es[1..])
  {
    hide Pushed, Popped;
  }

  /** Otherwise a handler can be interrupted behind its first instruction: the
      enable is still waiting when the interrupt is taken. */
  lemma EnabledTwice(s: Cpu)
    requires Ok(s.pxs) && s.i
    ensures Taken(s, [Exec(EnableI), Check(true), Exec(Plain(1)), Check(true)]) == 2
  {
    hide Pushed, Popped, RunAll, Taken;
    var a, b, c, d := [Exec(EnableI)], [Check(true)], [Exec(Plain(1))], [Check(true)];
    RunSplit(s, a, b);
    RunSplit(s, a + b, c);
    RunSplit(s, a + b + c, d);
    OneEvent(s, a[0]);
    var s1 := RunAll(s, a);
    OneEvent(s1, b[0]);
    var s2 := RunAll(s1, b);
    OneEvent(s2, c[0]);
    OneEvent(RunAll(s2, c), d[0]);
    assert a + b + c + d == [Exec(EnableI), Check(true), Exec(Plain(1)), Check(true)];
  }

  /* ----- the processor object ----- */

  class IopCpu {
    var p: Addr
    var i: bool
    var iSetIsWaiting: bool
    var inReset: bool
    const channelPXS: ExitStack

    ghost predicate Valid()
      reads this, channelPXS
    {
      channelPXS.Valid()
    }

    ghost function Value(): Cpu
      reads this, channelPXS, channelPXS.programExitStack
    {
      Cpu(p, i, iSetIsWaiting, channelPXS.Value())
    }

    constructor ()
      ensures Valid() && inReset && Value() == Cpu(0, true, false, Cleared())
      ensures fresh(channelPXS) && fresh(channelPXS.programExitStack)
    {
      channelPXS := new ExitStack();
      p, i, iSetIsWaiting, inReset := 0, true, false, true;
    }

    method MasterClear()
      requires Valid()
      modifies this, channelPXS, channelPXS.programExitStack
      ensures Valid() && Value() == Cpu(0, true, false, Cleared()) && inReset == old(inReset)
    {
      p, i, iSetIsWaiting := 0, true, false;
      channelPXS.MasterClear();
    }

    /** The instruction at P; true when it breaks the burst. */
    method SingleStep(x: Instr) returns (breakBurst: bool)
      requires Valid()
      modifies this, channelPXS, channelPXS.programExitStack
      ensures Valid() && Value() == Step(old(Value()), x) && breakBurst == BreaksBurst(x)
      ensures inReset == old(inReset)
    {
      hide Pushed, Popped;
      var delayISet := false;
      breakBurst := false;
      var increment := 1;
      match x {
        case Plain(length) =>
          increment := length;
        case Exit =>
          p := channelPXS.PopAddr();
          delayISet, breakBurst, increment := true, true, 0;
        case DisableI =>
          i, iSetIsWaiting := false, false;
        case EnableI =>
          iSetIsWaiting := true;
          delayISet, breakBurst := true, true;
        case Jump(target, taken, length) =>
          delayISet := true;
          if taken {
            p, increment := target, 0;
          } else {
            increment := length;
          }
        case Call(target, taken, length) =>
          delayISet := true;
          if taken {
            p := Plus(p, length);
            channelPXS.PushAddr(p);
            p, breakBurst, increment := target, true, 0;
          } else {
            increment := length;
          }
        case ChannelIo(present) =>
          delayISet, breakBurst := present, true;
        case StackIo(func, data) =>
          var read := channelPXS.DoIo(func, data);   // goes to the accumulator
          delayISet, breakBurst := true, true;
        case ChannelTest =>
          delayISet, breakBurst := true, true;
      }
      if !delayISet && iSetIsWaiting {
        i, iSetIsWaiting := true, false;
      }
      p := Plus(p, increment);
    }

    /** Is any of the channels interrupting?  An absent one never is. */
    method HaveInterrupt(interrupts: seq<bool>) returns (have: bool)
      ensures have <==> true in interrupts
    {
      have := false;
      for i := 0 to |interrupts|
        invariant !have && forall j :: 0 <= j < i ==> !interrupts[j]
      {
        if interrupts[i] {
          return true;
        }
      }
    }

    /** One tick: an interrupt is taken when they are enabled, and starts a
        processor in reset; then, unless it is still in reset, a burst of
        instructions from `code` is executed. */
    method Tick(interrupts: seq<bool>, code: seq<Instr>, burst: nat) returns (n: nat)
      requires Valid()
      modifies this, channelPXS, channelPXS.programExitStack
      ensures Valid() && n <= |code| && n <= burst + 1
      ensures inReset <==> old(inReset) && !(old(i) && true in interrupts)
      ensures Value() == RunAll(old(Value()), [Check(true in interrupts)] + Execs(code[..n]))
      ensures inReset ==> n == 0
      ensures !inReset && n < |code| && n < burst + 1 ==> n > 0 && BreaksBurst(code[n - 1])
      ensures forall k :: 0 <= k < n - 1 ==> !BreaksBurst(code[k])
    {
      hide Pushed, Popped, Step, RunAll, Execs;
      ghost var s, check := Value(), [Check(true in interrupts)];
      if i {
        var haveInterrupt := HaveInterrupt(interrupts);
        if haveInterrupt {
          inReset := false;
          i := false;
          channelPXS.PushAddr(p);
          p := channelPXS.programExitStack[0];
        }
      }
      n := 0;
      OneEvent(s, check[0]);
      NoExecs(s, check);
      assert code[..0] == [];
      if !inReset {
        while n < |code| && n < burst + 1
          invariant Valid() && n <= |code| && n <= burst + 1 && !inReset
          invariant Value() == RunAll(s, check + Execs(code[..n]))
          invariant forall k :: 0 <= k < n ==> !BreaksBurst(code[k])
        {
          OneMore(s, check, code, n);
          var breakBurst := SingleStep(code[n]);
          n := n + 1;
          if breakBurst {
            break;
          }
        }
      }
    }
  }

  function Execs(code: seq<Instr>): (es: seq<Event>)
    ensures |es| == |code|
  {
    seq(|code|, k requires 0 <= k < |code| => Exec(code[k]))
  }

  lemma NoExecs(s: Cpu, es: seq<Event>)
    ensures es + Execs([]) == es
  {
  }

  lemma OneMore(s: Cpu, es: seq<Event>, code: seq<Instr>, n: nat)
    requires Ok(s.pxs) && n < |code|
    ensures RunAll(s, es + Execs(code[..n + 1])) == Step(RunAll(s, es + Execs(code[..n])), code[n])
  {
    hide Step;
    var a := es + Execs(code[..n]);
    assert es + Execs(code[..n + 1]) == a + [Exec(code[n])];
    RunSplit(s, a, [Exec(code[n])]);
    OneEvent(RunAll(s, a), Exec(code[n]));
  }
}
