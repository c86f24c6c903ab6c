/** Semaphores shared by the CPUs of a cluster: test-and-set under a lock, in
    steps as small as the processors take them, in any order. */
module Semaphores {
  import opened Bits

  const SEMAPHORES: nat := 32

  /** How far a CPU has got in its test-and-set of semaphore s; `was` is what
      the exchange has found there. */
  datatype Pc =
    | Idle
    | Locked(s: nat)
    | Exchanged(s: nat, was: bool)
    | Counted(s: nat, was: bool)
    | Flagged(s: nat, was: bool)

  /** The cluster and its CPUs; `holders` records who acquired a semaphore and
      has not cleared it since, `waits` what a flagged CPU is waiting for. */
  datatype Cluster = Cluster(
    sm: seq<bool>,
    blockedCnt: nat,
    mutex: bool,
    blocked: seq<bool>,
    pc: seq<Pc>,
    waits: seq<nat>,
    holders: seq<set<nat>>,
    fired: bool)                 // the deadlock message of the last step

  datatype Act =
    | Advance(cpu: nat, s: nat)  // the next step of test-and-set; s when it begins
    | Clear(cpu: nat, s: nat)
    | Set(cpu: nat, s: nat)

  predicate Shape(c: Cluster, n: nat) {
    && |c.sm| == |c.holders| == SEMAPHORES && |c.blocked| == |c.pc| == |c.waits| == n < TWO64
    && (forall k :: 0 <= k < n ==> c.waits[k] < SEMAPHORES)
    && (forall k :: 0 <= k < n && !c.pc[k].Idle? && !c.pc[k].Locked? ==> c.pc[k].s < SEMAPHORES)
  }

  predicate ActOk(a: Act, n: nat) {
    a.cpu < n
  }

  /* ----- one step ----- */

  function Acquire(c: Cluster, k: nat, s: nat): Cluster
    requires k < |c.pc|
  {
    if c.mutex then c else c.(mutex := true, pc := c.pc[k := Locked(s)])
  }

  function Release(c: Cluster, k: nat): Cluster
    requires k < |c.pc|
  {
    c.(mutex := false, pc := c.pc[k := Idle])
  }

  /** The exchange; an index out of bounds throws, which releases the lock. */
  function Exchange(c: Cluster, k: nat, s: nat): Cluster
    requires k < |c.pc| && |c.sm| == |c.holders| == SEMAPHORES
  {
    if s >= SEMAPHORES then Release(c, k)
    else
      c.(sm := c.sm[s := true], pc := c.pc[k := Exchanged(s, c.sm[s])],
         holders := if c.sm[s] then c.holders else c.holders[s := c.holders[s] + {k}])
  }

  function CountStep(c: Cluster, k: nat, s: nat, was: bool): Cluster
    requires k < |c.pc| && k < |c.blocked|
  {
    var cnt :=
      if !was && c.blocked[k] then (c.blockedCnt + TWO64 - 1) % TWO64
      else if was && !c.blocked[k] then (c.blockedCnt + 1) % TWO64
      else c.blockedCnt;
    c.(blockedCnt := cnt, pc := c.pc[k := Counted(s, was)])
  }

  function FlagStep(c: Cluster, k: nat, s: nat, was: bool): Cluster
    requires k < |c.pc| && k < |c.blocked| && k < |c.waits|
  {
    c.(blocked := c.blocked[k := was], waits := if was then c.waits[k := s] else c.waits,
       pc := c.pc[k := Flagged(s, was)])
  }

  /** The deadlock message, when every CPU of the cluster is counted blocked. */
  function LastStep(c: Cluster, k: nat, was: bool): Cluster
    requires k < |c.pc|
  {
    Release(c, k).(fired := was && c.blockedCnt == |c.pc|)
  }

  function Step(c0: Cluster, a: Act, n: nat): Cluster
    requires Shape(c0, n) && ActOk(a, n)
  {
    var c := c0.(fired := false);
    match a
    case Advance(k, s) => (
      match c.pc[k]
      case Idle => Acquire(c, k, s)
      case Locked(t) => Exchange(c, k, t)
      case Exchanged(t, was) => CountStep(c, k, t, was)
      case Counted(t, was) => FlagStep(c, k, t, was)
      case Flagged(t, was) => LastStep(c, k, was)
    )
    case Clear(k, s) =>
      if s >= SEMAPHORES || !c.pc[k].Idle? then c
      else c.(sm := c.sm[s := false], holders := c.holders[s := c.holders[s] - {k}])
    case Set(k, s) =>
      if s >= SEMAPHORES || !c.pc[k].Idle? then c else c.(sm := c.sm[s := true])
  }

  /* ----- counting ----- */

  function Flags(b: seq<bool>): nat {
    if b == [] then 0 else Flags(b[..|b| - 1]) + (if b[|b| - 1] then 1 else 0)
  }

  lemma {:induction false} FlagsUpdate(b: seq<bool>, k: nat, v: bool)
    requires k < |b|
    ensures Flags(b[k := v]) == Flags(b) - (if b[k] then 1 else 0) + (if v then 1 else 0)
  {
    var m := |b| - 1;
    if k == m {
      assert b[k := v][..m] == b[..m];
    } else {
      FlagsUpdate(b[..m], k, v);
      assert b[k := v][..m] == b[..m][k := v];
    }
  }

  lemma {:induction false} FlagsAll(b: seq<bool>)
    ensures Flags(b) <= |b|
    ensures Flags(b) == |b| <==> forall k :: 0 <= k < |b| ==> b[k]
  {
    if b != [] {
      FlagsAll(b[..|b| - 1]);
    }
  }

  /* ----- the invariant ----- */

  /** The lock is held by exactly the one CPU that is not idle. */
  predicate Exclusive(c: Cluster) {
    && (forall k, l :: 0 <= k < |c.pc| && 0 <= l < |c.pc| && !c.pc[k].Idle? && !c.pc[l].Idle? ==> k == l)
    && (forall k :: 0 <= k < |c.pc| && !c.pc[k].Idle? ==> c.mutex)
    && (c.mutex ==> exists k :: 0 <= k < |c.pc| && !c.pc[k].Idle?)
  }

  /** The counter counts the flags, except that between counting and flagging
      it is ahead of them by that flag. */
  predicate Counts(c: Cluster)
    requires |c.blocked| == |c.pc|
  {
    && ((forall k :: 0 <= k < |c.pc| ==> !c.pc[k].Counted?) ==> c.blockedCnt == Flags(c.blocked))
    && (forall k :: 0 <= k < |c.pc| && c.pc[k].Counted? ==> c.blockedCnt == Flags(c.blocked[k := c.pc[k].was]))
  }

  predicate Inv(c: Cluster, n: nat) {
    Shape(c, n) && Exclusive(c) && Counts(c)
  }

  /** What one CPU's own step does to the others: nothing. */
  lemma ShapeKept(c: Cluster, a: Act, n: nat)
    requires Shape(c, n) && ActOk(a, n)
    ensures Shape(Step(c, a, n), n)
  {
  }

  lemma ExclusiveKept(c: Cluster, a: Act, n: nat)
    requires Inv(c, n) && ActOk(a, n)
    ensures Exclusive(Step(c, a, n))
  {
    var d := Step(c, a, n);
    if a.Advance? && c.pc[a.cpu].Idle? && !c.mutex {
      assert !d.pc[a.cpu].Idle?;
    } else if a.Advance? && !c.pc[a.cpu].Idle? {
      assert c.mutex;
      if d.mutex {
        assert !d.pc[a.cpu].Idle?;
      }
    }
  }

  /** Nobody is between counting and flagging. */
  predicate Settled(c: Cluster) {
    forall k :: 0 <= k < |c.pc| ==> !c.pc[k].Counted?
  }

  lemma CountsKept(c: Cluster, a: Act, n: nat)
    requires Inv(c, n) && ActOk(a, n)
    ensures Counts(Step(c, a, n))
  {
    var k, d := a.cpu, Step(c, a, n);
    if !a.Advance? {
      assert d.pc == c.pc && d.blocked == c.blocked;
    } else if c.pc[k].Exchanged? {
      CountingKept(c, a, n);
    } else if c.pc[k].Counted? {
      FlaggingKept(c, a, n);
    } else {
      SettledKept(c, a, n);
    }
  }

  lemma CountingKept(c: Cluster, a: Act, n: nat)
    requires Inv(c, n) && ActOk(a, n) && a.Advance? && c.pc[a.cpu].Exchanged?
    ensures Counts(Step(c, a, n))
  {
    hide Flags;
    var k, d, was := a.cpu, Step(c, a, n), c.pc[a.cpu].was;
    assert Settled(c);
    FlagsUpdate(c.blocked, k, was);
    FlagsAll(c.blocked);
    FlagsAll(c.blocked[k := was]);
    assert d.blockedCnt == Flags(c.blocked[k := was]);
    assert d.pc[k] == Counted(c.pc[k].s, was) && d.blocked == c.blocked;
    assert forall l :: 0 <= l < n && l != k ==> d.pc[l].Idle?;
  }

  lemma FlaggingKept(c: Cluster, a: Act, n: nat)
    requires Inv(c, n) && ActOk(a, n) && a.Advance? && c.pc[a.cpu].Counted?
    ensures Counts(Step(c, a, n))
  {
    hide Flags;
    var k, d := a.cpu, Step(c, a, n);
    assert d.blocked == c.blocked[k := c.pc[k].was] && d.blockedCnt == c.blockedCnt;
    assert forall l :: 0 <= l < n && l != k ==> d.pc[l].Idle?;
    assert d.pc[k].Flagged?;
  }

  lemma SettledKept(c: Cluster, a: Act, n: nat)
    requires Inv(c, n) && ActOk(a, n) && a.Advance? && !c.pc[a.cpu].Exchanged? && !c.pc[a.cpu].Counted?
    ensures Counts(Step(c, a, n))
  {
    var k, d := a.cpu, Step(c, a, n);
    assert d.blocked == c.blocked && d.blockedCnt == c.blockedCnt;
    assert forall l :: 0 <= l < n && l != k ==> d.pc[l] == c.pc[l];
    assert !d.pc[k].Counted?;
  }

  /** Every step of every CPU keeps the invariant. */
  lemma InvKept(c: Cluster, a: Act, n: nat)
    requires Inv(c, n) && ActOk(a, n)
    ensures Inv(Step(c, a, n), n)
  {
    hide Step, Shape, Exclusive, Counts;
    ShapeKept(c, a, n);
    ExclusiveKept(c, a, n);
    CountsKept(c, a, n);
  }

  /* ----- runs ----- */

  predicate ActsOk(acts: seq<Act>, n: nat) {
    forall k :: 0 <= k < |acts| ==> ActOk(acts[k], n)
  }

  function Run(c: Cluster, acts: seq<Act>, n: nat): (d: Cluster)
    requires Inv(c, n) && ActsOk(acts, n)
    ensures Inv(d, n)
    decreases |acts|
  {
    hide Step, Exclusive, Counts;
    if acts == [] then c
    else
      InvKept(c, acts[0], n);
      Run(Step(c, acts[0], n), acts[1..], n)
  }

  function Fresh(n: nat): Cluster
  {
    Cluster(seq(SEMAPHORES, _ => false), 0, false, seq(n, _ => false), seq(n, _ => Idle), seq(n, _ => 0),
            seq(SEMAPHORES, _ => {}), false)
  }

  lemma {:induction false} NoFlags(n: nat)
    ensures Flags(seq(n, _ => false)) == 0
  {
    if n > 0 {
      var b := seq(n, _ => false);
      assert b[..n - 1] == seq(n - 1, _ => false);
      NoFlags(n - 1);
    }
  }

  lemma FreshInv(n: nat)
    requires n < TWO64
    ensures Inv(Fresh(n), n)
  {
    NoFlags(n);
  }

  /** In every reachable state in which nobody is between counting and flagging,
      the counter is the number of CPUs flagged blocked, so it equals the number
      of CPUs only when all of them are. */
  lemma CounterIsExact(acts: seq<Act>, n: nat)
    requires n < TWO64 && ActsOk(acts, n) && Inv(Fresh(n), n)
    ensures var c := Run(Fresh(n), acts, n);
      Settled(c) ==> c.blockedCnt == Flags(c.blocked)
                     && (c.blockedCnt == n <==> forall k :: 0 <= k < n ==> c.blocked[k])
  {
    var c := Run(Fresh(n), acts, n);
    FlagsAll(c.blocked);
  }

  /** The deadlock message comes exactly when a failed test-and-set ends with
      every CPU flagged. */
  lemma FiresWhenAllFlagged(c: Cluster, a: Act, n: nat)
    requires Inv(c, n) && ActOk(a, n)
    ensures var d := Step(c, a, n);
      d.fired <==> a.Advance? && c.pc[a.cpu].Flagged? && c.pc[a.cpu].was && forall k :: 0 <= k < n ==> d.blocked[k]
  {
    FlagsAll(c.blocked);
    if a.Advance? && c.pc[a.cpu].Flagged? {
      assert Settled(c);
    }
  }

  /* ----- mutual exclusion of the semaphores ----- */

  /** CPUs clear only what they acquired, and set nothing directly. */
  predicate Disciplined(c: Cluster, a: Act) {
    !a.Set? && (a.Clear? && a.s < SEMAPHORES && |c.holders| == SEMAPHORES ==> a.cpu in c.holders[a.s])
  }

  /** At most one CPU holds a semaphore, and only while it is set. */
  predicate OneHolder(c: Cluster) {
    |c.sm| == |c.holders| && forall s :: 0 <= s < |c.sm| ==> |c.holders[s]| <= (if c.sm[s] then 1 else 0)
  }

  /** What a step without direct set does to semaphores and holders. */
  lemma StepHolders(c: Cluster, a: Act, n: nat)
    requires Shape(c, n) && ActOk(a, n) && !a.Set?
    ensures var d, k := Step(c, a, n), a.cpu;
      if a.Clear? && a.s < SEMAPHORES && c.pc[k].Idle? then
        d.sm == c.sm[a.s := false] && d.holders == c.holders[a.s := c.holders[a.s] - {k}]
      else if a.Advance? && c.pc[k].Locked? && c.pc[k].s < SEMAPHORES && !c.sm[c.pc[k].s] then
        d.sm == c.sm[c.pc[k].s := true] && d.holders == c.holders[c.pc[k].s := c.holders[c.pc[k].s] + {k}]
      else d.sm == c.sm && d.holders == c.holders
  {
    if a.Advance? && c.pc[a.cpu].Locked? && c.pc[a.cpu].s < SEMAPHORES && c.sm[c.pc[a.cpu].s] {
      assert c.sm[c.pc[a.cpu].s := true] == c.sm;
    }
  }

  lemma OneHolderKept(c: Cluster, a: Act, n: nat)
    requires Shape(c, n) && ActOk(a, n) && OneHolder(c) && Disciplined(c, a)
    ensures OneHolder(Step(c, a, n))
  {
    hide Step;
    StepHolders(c, a, n);
    if a.Clear? && a.s < SEMAPHORES {
      assert |c.holders[a.s] - {a.cpu}| == |c.holders[a.s]| - 1;
    } else if a.Advance? && c.pc[a.cpu].Locked? && c.pc[a.cpu].s < SEMAPHORES && !c.sm[c.pc[a.cpu].s] {
      assert c.holders[c.pc[a.cpu].s] == {};
    }
  }

  /** Along a whole run of disciplined CPUs. */
  predicate DisciplinedRun(c: Cluster, acts: seq<Act>, n: nat)
    requires Inv(c, n) && ActsOk(acts, n)
    decreases |acts|
  {
    acts != [] ==>
      Disciplined(c, acts[0])
      && (InvKept(c, acts[0], n); DisciplinedRun(Step(c, acts[0], n), acts[1..], n))
  }

  /** If CPUs clear only what they acquired and set nothing directly, no two of
      them ever hold the same semaphore. */
  lemma MutualExclusion(c: Cluster, acts: seq<Act>, n: nat)
    requires Inv(c, n) && ActsOk(acts, n) && OneHolder(c) && DisciplinedRun(c, acts, n)
    ensures var d := Run(c, acts, n);
      |d.holders| == |d.sm| && forall s, k, l ::
        0 <= s < |d.holders| && k in d.holders[s] && l in d.holders[s] ==> k == l && d.sm[s]
  {
    hide Step, OneHolder, Disciplined, DisciplinedRun, Run, Exclusive, Counts;
    HoldersKept(c, acts, n);
    var d := Run(c, acts, n);
    assert |d.holders| == |d.sm|;
    forall s, k, l | 0 <= s < |d.holders| && k in d.holders[s] && l in d.holders[s]
      ensures k == l && d.sm[s]
    {
      TwoHolders(d, s, k, l);
    }
  }

  lemma {:induction false} HoldersKept(c: Cluster, acts: seq<Act>, n: nat)
    requires Inv(c, n) && ActsOk(acts, n) && OneHolder(c) && DisciplinedRun(c, acts, n)
    ensures OneHolder(Run(c, acts, n))
    decreases |acts|
  {
    hide Step, OneHolder, Disciplined;
    if acts != [] {
      InvKept(c, acts[0], n);
      OneHolderKept(c, acts[0], n);
      HoldersKept(Step(c, acts[0], n), acts[1..], n);
    }
  }

  /** In particular from the start, when nobody holds anything. */
  lemma ExclusionFromStart(acts: seq<Act>, n: nat)
    requires n < TWO64 && ActsOk(acts, n) && Inv(Fresh(n), n) && DisciplinedRun(Fresh(n), acts, n)
    ensures var d := Run(Fresh(n), acts, n);
      |d.holders| == SEMAPHORES && forall s, k, l ::
        0 <= s < SEMAPHORES && k in d.holders[s] && l in d.holders[s] ==> k == l
  {
    hide Step, Disciplined, DisciplinedRun, Run, Exclusive, Counts;
    assert OneHolder(Fresh(n));
    MutualExclusion(Fresh(n), acts, n);
  }

  lemma TwoHolders(c: Cluster, s: nat, k: nat, l: nat)
    requires OneHolder(c) && s < |c.holders| && k in c.holders[s] && l in c.holders[s]
    ensures k == l && c.sm[s]
  {
    if k != l {
      assert {k, l} <= c.holders[s];
      SubsetCard({k, l}, c.holders[s]);
    }
  }

  lemma SubsetCard(a: set<nat>, b: set<nat>)
    requires a <= b
    ensures |a| <= |b|
  {
    assert b == a + (b - a);
  }

  /* ----- test-and-set as a whole ----- */

  predicate Quiet(c: Cluster) {
    !c.mutex && forall k :: 0 <= k < |c.pc| ==> c.pc[k].Idle?
  }

  /** The five steps of one test-and-set that nobody interferes with. */
  function TestAndSet(c: Cluster, k: nat, s: nat, n: nat): Cluster
    requires Shape(c, n) && k < n && s < SEMAPHORES
  {
    var was := c.sm[s];
    var blocked := c.blocked[k := was];
    c.(sm := c.sm[s := true],
       holders := if was then c.holders else c.holders[s := c.holders[s] + {k}],
       blocked := blocked,
       blockedCnt := Flags(blocked),
       waits := if was then c.waits[k := s] else c.waits,
       fired := was && Flags(blocked) == n)
  }

  function Five(k: nat, s: nat): seq<Act> {
    var a := Advance(k, s);
    [a, a, a, a, a]
  }

  lemma FiveSteps(c: Cluster, k: nat, s: nat, n: nat)
    requires Inv(c, n) && Quiet(c) && k < n && s < SEMAPHORES
    ensures ActsOk(Five(k, s), n) && Run(c, Five(k, s), n) == TestAndSet(c, k, s, n)
  {
    hide Step, Flags, Exclusive, Counts;
    var a := Advance(k, s);
    var was := c.sm[s];
    var c0 := c.(fired := false);
    var c1 := c0.(mutex := true, pc := c.pc[k := Locked(s)]);
    var c2 := c1.(sm := c.sm[s := true], pc := c.pc[k := Exchanged(s, was)],
                  holders := if was then c.holders else c.holders[s := c.holders[s] + {k}]);
    StepOne(c, k, s, n);
    StepTwo(c1, k, s, n);
    assert c1.pc[k := Exchanged(s, was)] == c.pc[k := Exchanged(s, was)];
    InvKept(c, a, n);
    InvKept(c1, a, n);
    var c3 := Step(c2, a, n);
    InvKept(c2, a, n);
    var c4 := Step(c3, a, n);
    InvKept(c3, a, n);
    LastThree(c, c2, k, s, n);
    InvKept(c4, a, n);
    Unroll(c, a, n);
  }

  lemma StepOne(c: Cluster, k: nat, s: nat, n: nat)
    requires Inv(c, n) && Quiet(c) && k < n
    ensures Step(c, Advance(k, s), n) == c.(fired := false, mutex := true, pc := c.pc[k := Locked(s)])
  {
  }

  lemma StepTwo(c: Cluster, k: nat, s: nat, n: nat)
    requires Shape(c, n) && k < n && s < SEMAPHORES && c.pc[k] == Locked(s)
    ensures Step(c, Advance(k, s), n) ==
      c.(fired := false, sm := c.sm[s := true], pc := c.pc[k := Exchanged(s, c.sm[s])],
         holders := if c.sm[s] then c.holders else c.holders[s := c.holders[s] + {k}])
  {
  }

  lemma LastThree(c: Cluster, c2: Cluster, k: nat, s: nat, n: nat)
    requires Inv(c, n) && Quiet(c) && Inv(c2, n) && k < n && s < SEMAPHORES
    requires var was := c.sm[s];
      c2 == c.(fired := false, mutex := true, sm := c.sm[s := true], pc := c.pc[k := Exchanged(s, was)],
               holders := if was then c.holders else c.holders[s := c.holders[s] + {k}])
    ensures var a := Advance(k, s);
      var c3 := Step(c2, a, n);
      Shape(c3, n) && var c4 := Step(c3, a, n);
      Shape(c4, n) && Step(c4, a, n) == TestAndSet(c, k, s, n)
  {
    hide Flags;
    var a, was := Advance(k, s), c.sm[s];
    var c3 := Step(c2, a, n);
    CountingKept(c2, a, n);
    assert c3.pc[k] == Counted(s, was) && c3.blocked == c.blocked;
    assert c3.blockedCnt == Flags(c.blocked[k := was]);
    var c4 := Step(c3, a, n);
    assert c4.pc[k] == Flagged(s, was);
    assert c4.pc[k := Idle] == c.pc;
  }

  lemma Unroll(c: Cluster, a: Act, n: nat)
    requires Inv(c, n) && ActOk(a, n)
    ensures ActsOk([a, a, a, a, a], n)
    ensures var c1 := Step(c, a, n);
      Inv(c1, n) && var c2 := Step(c1, a, n);
      Inv(c2, n) && var c3 := Step(c2, a, n);
      Inv(c3, n) && var c4 := Step(c3, a, n);
      Inv(c4, n) && Run(c, [a, a, a, a, a], n) == Step(c4, a, n)
  {
    hide Step, Exclusive, Counts;
    var c1 := Step(c, a, n);
    InvKept(c, a, n);
    var c2 := Step(c1, a, n);
    InvKept(c1, a, n);
    var c3 := Step(c2, a, n);
    InvKept(c2, a, n);
    var c4 := Step(c3, a, n);
    InvKept(c3, a, n);
    InvKept(c4, a, n);
    assert [a, a, a, a, a][1..] == [a, a, a, a] && [a, a, a, a][1..] == [a, a, a];
    assert [a, a, a][1..] == [a, a] && [a, a][1..] == [a] && [a][1..] == [];
    assert Run(c4, [a], n) == Step(c4, a, n);
    assert Run(c3, [a, a], n) == Run(c4, [a], n);
    assert Run(c2, [a, a, a], n) == Run(c3, [a, a], n);
    assert Run(c1, [a, a, a, a], n) == Run(c2, [a, a, a], n);
  }

  /** What a direct set and a clear mean for the next test-and-set: it fails on a
      semaphore set directly and passes on a cleared one; the others are as they
      were. */
  lemma SetThenTest(c: Cluster, k: nat, l: nat, s: nat, n: nat)
    requires Inv(c, n) && Quiet(c) && k < n && l < n && s < SEMAPHORES
    ensures var d, e := Step(c, Set(k, s), n), Step(c, Clear(k, s), n);
      && Inv(d, n) && Inv(e, n)
      && Run(d, Five(l, s), n).blocked[l] && !Run(e, Five(l, s), n).blocked[l]
      && forall t :: 0 <= t < SEMAPHORES && t != s ==> d.sm[t] == e.sm[t] == c.sm[t]
  {
    hide Exclusive, Counts, Run;
    var d, e := Step(c, Set(k, s), n), Step(c, Clear(k, s), n);
    InvKept(c, Set(k, s), n);
    InvKept(c, Clear(k, s), n);
    FiveSteps(d, l, s, n);
    FiveSteps(e, l, s, n);
    assert d.sm[s] && !e.sm[s];
  }

  /* ----- deadlocks, real and apparent ----- */

  /** Every CPU is flagged and what it waits for is set. */
  predicate Deadlocked(c: Cluster, n: nat) {
    && Shape(c, n)
    && forall k :: 0 <= k < n ==>
         && c.blocked[k] && c.sm[c.waits[k]]
         && (!c.pc[k].Idle? ==> c.pc[k].s == c.waits[k])
         && (c.pc[k].Exchanged? || c.pc[k].Counted? || c.pc[k].Flagged? ==> c.pc[k].was)
  }

  /** A blocked CPU does not get past its test-and-set: it repeats it. */
  predicate Retries(c: Cluster, a: Act) {
    a.Advance? && a.cpu < |c.waits| && a.s == c.waits[a.cpu]
  }

  /** Then nothing changes any more, in whatever order the CPUs step. */
  lemma DeadlockStays(c: Cluster, a: Act, n: nat)
    requires Deadlocked(c, n) && Inv(c, n) && ActOk(a, n) && Retries(c, a)
    ensures var d := Step(c, a, n);
      Deadlocked(d, n) && d.sm == c.sm && d.waits == c.waits && d.blockedCnt == c.blockedCnt
  {
    hide Exclusive, Counts;
  }

  predicate AllRetry(c: Cluster, acts: seq<Act>) {
    forall k :: 0 <= k < |acts| ==> Retries(c, acts[k])
  }

  lemma {:induction false} DeadlockIsForever(c: Cluster, acts: seq<Act>, n: nat)
    requires Deadlocked(c, n) && Inv(c, n) && ActsOk(acts, n) && AllRetry(c, acts)
    ensures Deadlocked(Run(c, acts, n), n) && Run(c, acts, n).sm == c.sm
    decreases |acts|
  {
    hide Step, Deadlocked, Exclusive, Counts;
    if acts != [] {
      DeadlockStays(c, acts[0], n);
      InvKept(c, acts[0], n);
      assert forall k :: 0 <= k < |acts[1..]| ==> acts[1..][k] == acts[k + 1];
      DeadlockIsForever(Step(c, acts[0], n), acts[1..], n);
    }
  }

  /** Whatever the CPUs do from here on by retrying, in any order and cut off
      anywhere, all of them stay flagged. */
  ghost predicate NobodyGetsOn(c: Cluster, n: nat)
    requires Inv(c, n)
  {
    forall acts: seq<Act> :: ActsOk(acts, n) && AllRetry(c, acts) ==> AllFlagged(Run(c, acts, n), n)
  }

  predicate AllFlagged(c: Cluster, n: nat) {
    |c.blocked| == n && forall l :: 0 <= l < n ==> c.blocked[l]
  }

  /** Once all CPUs are flagged, no retry ends that exactly when everything that
      is waited for is set. */
  lemma StuckIffAllSet(c: Cluster, n: nat)
    requires Inv(c, n) && Quiet(c) && AllFlagged(c, n)
    ensures NobodyGetsOn(c, n) <==> forall l :: 0 <= l < n ==> c.sm[c.waits[l]]
  {
    hide Exclusive, Counts, Run, Step;
    if forall l :: 0 <= l < n ==> c.sm[c.waits[l]] {
      forall acts: seq<Act> | ActsOk(acts, n) && AllRetry(c, acts)
        ensures AllFlagged(Run(c, acts, n), n)
      {
        DeadlockIsForever(c, acts, n);
      }
    } else {
      var l :| 0 <= l < n && !c.sm[c.waits[l]];
      GetsOn(c, l, n);
      assert !NobodyGetsOn(c, n);
    }
  }

  /** The message is about a real deadlock, which no retry ends, exactly when
      everything that is waited for is still set when it is given. */
  lemma RealDeadlock(c: Cluster, a: Act, n: nat)
    requires Inv(c, n) && ActOk(a, n) && Step(c, a, n).fired
    ensures var d := Step(c, a, n);
      Inv(d, n) && (NobodyGetsOn(d, n) <==> forall l :: 0 <= l < n ==> d.sm[d.waits[l]])
  {
    hide NobodyGetsOn, Flags;
    InvKept(c, a, n);
    FiresWhenAllFlagged(c, a, n);
    StuckIffAllSet(Step(c, a, n), n);
  }

  /** A CPU that waits for a semaphore cleared in the meantime gets it with its
      next try. */
  lemma GetsOn(c: Cluster, k: nat, n: nat)
    requires Inv(c, n) && Quiet(c) && k < n && !c.sm[c.waits[k]]
    ensures var acts := Five(k, c.waits[k]);
      ActsOk(acts, n) && AllRetry(c, acts) && !AllFlagged(Run(c, acts, n), n)
  {
    hide Exclusive, Counts, Run, Step;
    FiveSteps(c, k, c.waits[k], n);
    assert !TestAndSet(c, k, c.waits[k], n).blocked[k];
  }

  /** A test-and-set that nobody interferes with leaves the cluster quiet. */
  lemma StaysQuiet(c: Cluster, k: nat, s: nat, n: nat)
    requires Inv(c, n) && Quiet(c) && k < n && s < SEMAPHORES
    ensures Inv(TestAndSet(c, k, s, n), n) && Quiet(TestAndSet(c, k, s, n))
  {
    hide Exclusive, Counts, Run;
    FiveSteps(c, k, s, n);
  }

  lemma {:induction false} RunOn(c: Cluster, acts: seq<Act>, bs: seq<Act>, n: nat)
    requires Inv(c, n) && ActsOk(acts, n) && ActsOk(bs, n)
    ensures ActsOk(acts + bs, n) && Run(c, acts + bs, n) == Run(Run(c, acts, n), bs, n)
    decreases |acts|
  {
    hide Step, Exclusive, Counts, Shape;
    if acts == [] {
      assert acts + bs == bs;
    } else {
      assert (acts + bs)[0] == acts[0] && (acts + bs)[1..] == acts[1..] + bs;
      InvKept(c, acts[0], n);
      RunOn(Step(c, acts[0], n), acts[1..], bs, n);
    }
  }

  /** A run of two CPUs after which the message is given although
      the first CPU would get its semaphore: it was cleared while the flag was
      still set.  CPU 0 takes semaphore 1, CPU 1 takes semaphore 0; CPU 0 tries
      0 and is flagged; CPU 1 clears 0 and tries 1. */
  lemma FalseAlarm()
    ensures exists acts: seq<Act> :: Inv(Fresh(2), 2) && ActsOk(acts, 2) &&
              var c := Run(Fresh(2), acts, 2);
              c.fired && |c.waits| == 2 && |c.sm| == SEMAPHORES && c.blocked[0] && c.waits[0] == 0 && !c.sm[0]
  {
    hide Exclusive, Counts, Run, Step;
    var n := 2;
    var c0 := Fresh(n);
    FreshInv(n);
    var c1 := Took(c0, 0, 1, n);
    var c2 := Took(c1, 1, 0, n);
    var c3 := Took(c2, 0, 0, n);
    var c4 := Cleared(c3, 1, 0, n);
    var c5 := Took(c4, 1, 1, n);
    var a1, a2, a3, a4 := Five(0, 1), Five(0, 1) + Five(1, 0), Five(0, 1) + Five(1, 0) + Five(0, 0), [Clear(1, 0)];
    RunOn(c0, a1, Five(1, 0), n);
    RunOn(c0, a2, Five(0, 0), n);
    RunOn(c0, a3, a4, n);
    RunOn(c0, a3 + a4, Five(1, 1), n);
    assert c1.blocked == [false, false] && c2.blocked == [false, false];
    assert c2.sm[0] && c2.sm[1] && c3.blocked == [true, false] && c3.waits[0] == 0;
    assert !c4.sm[0] && c4.sm[1] && c4.blocked == [true, false];
    assert c5.blocked == [true, true];
    TwoFlags();
    assert c5.fired;
    assert Run(c0, a3 + a4 + Five(1, 1), n) == c5;
  }

  lemma TwoFlags()
    ensures Flags([true, true]) == 2
  {
    FlagsAll([true, true]);
  }

  lemma Took(c: Cluster, k: nat, s: nat, n: nat) returns (d: Cluster)
    requires Inv(c, n) && Quiet(c) && k < n && s < SEMAPHORES
    ensures d == TestAndSet(c, k, s, n) && Inv(d, n) && Quiet(d)
    ensures ActsOk(Five(k, s), n) && Run(c, Five(k, s), n) == d
  {
    hide Run, Exclusive, Counts;
    FiveSteps(c, k, s, n);
    StaysQuiet(c, k, s, n);
    d := TestAndSet(c, k, s, n);
  }

  lemma Cleared(c: Cluster, k: nat, s: nat, n: nat) returns (d: Cluster)
    requires Inv(c, n) && Quiet(c) && k < n && s < SEMAPHORES
    ensures d == c.(fired := false, sm := c.sm[s := false], holders := c.holders[s := c.holders[s] - {k}])
    ensures Inv(d, n) && Quiet(d) && ActsOk([Clear(k, s)], n) && Run(c, [Clear(k, s)], n) == d
  {
    hide Exclusive, Counts;
    var a := Clear(k, s);
    InvKept(c, a, n);
    d := Step(c, a, n);
    assert [a][1..] == [];
  }

  /* ----- the shared object ----- */

  /** How a test-and-set instruction ends: it is passed, it is to be repeated
      (with or without the deadlock message), or its index throws. */
  datatype Outcome = Passed | Repeats(fired: bool) | OutOfBounds

  /** The cluster with the flags of its CPUs, used by one CPU at a time. */
  class InterCpuCluster {
    const sm: array<bool>
    const blocked: array<bool>
    var testAndSetBlockedCnt: nat
    ghost var waits: seq<nat>
    ghost var holders: seq<set<nat>>

    ghost predicate Valid()
      reads this, sm, blocked
    {
      && sm.Length == |holders| == SEMAPHORES && blocked.Length == |waits| < TWO64 && sm != blocked
      && (forall k :: 0 <= k < |waits| ==> waits[k] < SEMAPHORES)
      && testAndSetBlockedCnt == Flags(blocked[..])
    }

    ghost function Value(): Cluster
      reads this, sm, blocked
    {
      Cluster(sm[..], testAndSetBlockedCnt, false, blocked[..], seq(blocked.Length, _ => Idle), waits, holders, false)
    }

    constructor (n: nat)
      requires n < TWO64
      ensures Valid() && Value() == Fresh(n) && fresh(sm) && fresh(blocked)
    {
      sm := new bool[SEMAPHORES](_ => false);
      blocked := new bool[n](_ => false);
      testAndSetBlockedCnt := 0;
      waits := seq(n, _ => 0);
      holders := seq(SEMAPHORES, _ => {});
      new;
      NoFlags(n);
      assert blocked[..] == seq(n, _ => false);
      assert sm[..] == seq(SEMAPHORES, _ => false);
    }

    /** Test-and-set by CPU k: the five steps of the protocol at once. */
    method TestAndSetBy(k: nat, s: nat) returns (r: Outcome)
      requires Valid() && k < blocked.Length
      modifies this, sm, blocked
      ensures Valid()
      ensures r == OutOfBounds <==> s >= 32
      ensures r == OutOfBounds ==> Value() == old(Value())
      ensures s < SEMAPHORES ==>
                Shape(old(Value()), blocked.Length)
                && Value() == TestAndSet(old(Value()), k, s, blocked.Length).(fired := false)
                && (r == Passed <==> !old(sm[s]))
                && (r.Repeats? ==> (r.fired <==> forall l :: 0 <= l < blocked.Length ==> blocked[l]))
    {
      hide Flags;
      if s >= SEMAPHORES {
        return OutOfBounds;
      }
      ghost var b := blocked[..];
      var was := sm[s];
      FlagsUpdate(b, k, was);
      FlagsAll(b);
      sm[s] := true;
      if !was {
        if blocked[k] {
          testAndSetBlockedCnt := (testAndSetBlockedCnt + TWO64 - 1) % TWO64;
        }
        blocked[k] := false;
        holders := holders[s := holders[s] + {k}];
        r := Passed;
      } else {
        FlagsAll(b[k := true]);
        if !blocked[k] {
          testAndSetBlockedCnt := (testAndSetBlockedCnt + 1) % TWO64;
        }
        blocked[k] := true;
        waits := waits[k := s];
        r := Repeats(testAndSetBlockedCnt == blocked.Length);
      }
      assert blocked[..] == b[k := was];
    }

    /** Clearing a semaphore, without the lock. */
    method ClearBy(k: nat, s: nat) returns (ok: bool)
      requires Valid() && k < blocked.Length
      modifies this, sm
      ensures Valid() && ok == (s < SEMAPHORES)
      ensures Shape(old(Value()), blocked.Length) && Value() == Step(old(Value()), Clear(k, s), blocked.Length)
    {
      ok := s < SEMAPHORES;
      if ok {
        sm[s] := false;
        holders := holders[s := holders[s] - {k}];
      }
    }

    /** Setting a semaphore, without the lock. */
    method SetBy(k: nat, s: nat) returns (ok: bool)
      requires Valid() && k < blocked.Length
      modifies sm
      ensures Valid() && ok == (s < SEMAPHORES)
      ensures Shape(old(Value()), blocked.Length) && Value() == Step(old(Value()), Set(k, s), blocked.Length)
    {
      ok := s < SEMAPHORES;
      if ok {
        sm[s] := true;
      }
    }
  }
}
