/** Whole runs of the file system builder: any sequence of calls, and the
    copying loop of the program. */
module MkfsRun {
  import opened Bits
  import opened MkfsDir
  import opened MkfsStore
  import opened MkfsView
  import opened MkfsSteps
  import opened MkfsTree
  import opened Mkfs

  datatype Op =
    | MakeDir(parent: nat, name: Name)
    | MakeFile(parent: nat, name: Name)
    | Append(node: nat, data: seq<byte>)

  /** Inode numbers are handed out in order: n is the next one. */
  function Step(t: Tree, n: nat, op: Op): Tree {
    match op
    case MakeDir(p, name) => if p in t || p == n then AfterMkDir(t, p, n, name) else t
    case MakeFile(p, name) => if p in t then AfterMkFile(t, p, n, name) else t
    case Append(i, data) => if i in t then AfterAppend(t, i, data) else t
  }

  function Next(n: nat, op: Op): nat {
    if op.Append? then n else n + 1
  }

  function Replay(t: Tree, n: nat, ops: seq<Op>): Tree
    decreases |ops|
  {
    if ops == [] then t else Replay(Step(t, n, ops[0]), Next(n, ops[0]), ops[1..])
  }

  function ReplayNext(n: nat, ops: seq<Op>): nat
    decreases |ops|
  {
    if ops == [] then n else ReplayNext(Next(n, ops[0]), ops[1..])
  }

  function Mine(op: Op, i: nat): seq<byte> {
    if op.Append? && op.node == i then op.data else []
  }

  /** What a sequence of calls appends to node i, in call order. */
  function AppendedTo(ops: seq<Op>, i: nat): seq<byte> {
    if ops == [] then []
    else Mine(ops[0], i) + AppendedTo(ops[1..], i)
  }

  /** Node i of t is still there in t', with at least its old records. */
  predicate Kept(t: Tree, t': Tree, i: nat, data: seq<byte>)
    requires i in t
  {
    i in t' && t'[i].kind == t[i].kind && t[i].entries <= t'[i].entries && t'[i].content == t[i].content + data
  }

  lemma BumpContent(t: Tree, p: nat, i: nat)
    requires p in t && i in t
    ensures BumpLink(t, p)[i].content == t[i].content
  {
  }

  lemma MkDirKeeps(t: Tree, n: nat, p: nat, name: Name, i: nat)
    requires i in t && i < n && (p in t || p == n)
    ensures Kept(t, AfterMkDir(t, p, n, name), i, [])
  {
    hide Stored, BumpLink;
    var t2 := AfterEntry(NewDir(t, n, p), p, Entry(n, Stored(name)));
    BumpOther(t2, p);
    BumpContent(t2, p, i);
    assert Kept(t, t2, i, []) by {
      assert t[i].content + [] == t[i].content;
    }
  }

  lemma MkFileKeeps(t: Tree, n: nat, p: nat, name: Name, i: nat)
    requires i in t && i < n && p in t
    ensures Kept(t, AfterMkFile(t, p, n, name), i, [])
  {
    hide Stored;
  }

  lemma AppendKeeps(t: Tree, j: nat, data: seq<byte>, i: nat)
    requires i in t && j in t
    ensures Kept(t, AfterAppend(t, j, data), i, if j == i then data else [])
  {
  }

  lemma Unchanged(t: Tree, i: nat)
    requires i in t
    ensures Kept(t, t, i, [])
  {
    assert t[i].content + [] == t[i].content;
  }

  /** One call keeps every node, and appends to it what it says. */
  lemma StepKeeps(t: Tree, n: nat, op: Op, i: nat)
    requires i in t && i < n
    ensures Kept(t, Step(t, n, op), i, Mine(op, i))
  {
    hide AfterMkDir, AfterMkFile, AfterAppend, Kept;
    Unchanged(t, i);
    match op
    case MakeDir(p, name) =>
      if p in t || p == n {
        MkDirKeeps(t, n, p, name, i);
      }
    case MakeFile(p, name) =>
      if p in t {
        MkFileKeeps(t, n, p, name, i);
      }
    case Append(j, data) =>
      if j in t {
        AppendKeeps(t, j, data, i);
      }
  }

  /** Over any run, a node keeps its kind and its records, and its content is
      what it was followed by exactly the data appended to it. */
  lemma {:induction false} ReplayKeeps(t: Tree, n: nat, ops: seq<Op>, i: nat)
    requires i in t && i < n
    ensures Kept(t, Replay(t, n, ops), i, AppendedTo(ops, i))
    decreases |ops|
  {
    hide Step, Kept;
    if ops == [] {
      Unchanged(t, i);
    } else {
      StepKeeps(t, n, ops[0], i);
      StillThere(t, Step(t, n, ops[0]), i, Mine(ops[0], i));
      ReplayKeeps(Step(t, n, ops[0]), Next(n, ops[0]), ops[1..], i);
      KeptTwice(t, Step(t, n, ops[0]), Replay(t, n, ops), i, Mine(ops[0], i), AppendedTo(ops[1..], i));
    }
  }

  lemma StillThere(t: Tree, t': Tree, i: nat, data: seq<byte>)
    requires i in t && Kept(t, t', i, data)
    ensures i in t'
  {
  }

  lemma KeptTwice(t: Tree, t1: Tree, t2: Tree, i: nat, a: seq<byte>, b: seq<byte>)
    requires i in t && Kept(t, t1, i, a) && i in t1 && Kept(t1, t2, i, b)
    ensures Kept(t, t2, i, a + b)
  {
    assert t[i].content + a + b == t[i].content + (a + b);
  }

  /** A file made in a run ends up as the concatenation of what the rest of the
      run appends to it. */
  lemma NewFileContent(t: Tree, n: nat, p: nat, name: Name, ops: seq<Op>)
    requires p in t && n !in t
    ensures var t' := Replay(t, n, [MakeFile(p, name)] + ops);
      n in t' && t'[n].kind == Regular && t'[n].content == AppendedTo(ops, n)
  {
    hide Stored;
    var op := MakeFile(p, name);
    assert ([op] + ops)[0] == op && ([op] + ops)[1..] == ops;
    var t1 := Step(t, n, op);
    assert n in t1 && t1[n].content == [] && t1[n].kind == Regular;
    ReplayKeeps(t1, n + 1, ops, n);
  }

  lemma {:induction false} ReplaySnoc(t: Tree, n: nat, ops: seq<Op>, op: Op)
    ensures Replay(t, n, ops + [op]) == Step(Replay(t, n, ops), ReplayNext(n, ops), op)
    ensures ReplayNext(n, ops + [op]) == Next(ReplayNext(n, ops), op)
    decreases |ops|
  {
    if ops == [] {
      assert [op][1..] == [] && ops + [op] == [op];
    } else {
      assert (ops + [op])[1..] == ops[1..] + [op];
      ReplaySnoc(Step(t, n, ops[0]), Next(n, ops[0]), ops[1..], op);
    }
  }

  /* ----- a directory that fills up ----- */

  lemma OneFile(t: Tree, n: nat, p: nat, name: Name)
    requires p in t && p != n && CanInsert(t, p, name)
    ensures var t' := Step(t, n, MakeFile(p, name));
      && p in t' && t'[p].kind.Directory? && t'[p].content == []
      && Space(t'[p].entries) == Space(t[p].entries) + Needed(name)
  {
    hide Stored, Space, UsedFor;
    SpaceAppend(t[p].entries, Entry(n, Stored(name)));
    StoredSpace(name);
  }

  function FourFiles(p: nat, a: Name, b: Name, c: Name, d: Name): seq<Op> {
    [MakeFile(p, a), MakeFile(p, b), MakeFile(p, c), MakeFile(p, d)]
  }

  /** A directory with its two dots is filled up to the last byte by three names
      of 1023 bytes and one of 864, none of which is refused. */
  lemma FillsUp(t: Tree, n: nat, p: nat, a: Name, b: Name, c: Name, d: Name)
    requires p in t && p < n && t[p].kind.Directory? && t[p].content == [] && Space(t[p].entries) == 64
    requires |a| == |b| == |c| == 1023 && |d| == 864
    ensures CanInsert(t, p, a) && FullDir(Replay(t, n, FourFiles(p, a, b, c, d)), p)
    ensures var t1 := Step(t, n, MakeFile(p, a)); var t2 := Step(t1, n + 1, MakeFile(p, b));
      var t3 := Step(t2, n + 2, MakeFile(p, c));
      CanInsert(t1, p, b) && CanInsert(t2, p, c) && CanInsert(t3, p, d)
  {
    hide Step, Space;
    OneFile(t, n, p, a);
    var t1 := Step(t, n, MakeFile(p, a));
    OneFile(t1, n + 1, p, b);
    var t2 := Step(t1, n + 1, MakeFile(p, b));
    OneFile(t2, n + 2, p, c);
    var t3 := Step(t2, n + 2, MakeFile(p, c));
    OneFile(t3, n + 3, p, d);
    var ops := FourFiles(p, a, b, c, d);
    assert ops == [ops[0]] + [ops[1]] + [ops[2]] + [ops[3]];
    ReplaySnoc(t, n, [], ops[0]);
    ReplaySnoc(t, n, [] + [ops[0]], ops[1]);
    ReplaySnoc(t, n, [] + [ops[0]] + [ops[1]], ops[2]);
    ReplaySnoc(t, n, [] + [ops[0]] + [ops[1]] + [ops[2]], ops[3]);
    assert [] + [ops[0]] + [ops[1]] + [ops[2]] + [ops[3]] == ops;
  }

  /** The first directory of a new file system is one. */
  lemma LostFoundFillsUp(lostFound: Name, a: Name, b: Name, c: Name, d: Name)
    requires |a| == |b| == |c| == 1023 && |d| == 864
    ensures var t := AfterMkDir(NewDir(map[], ROOT, ROOT), ROOT, ROOT + 1, lostFound);
      FullDir(Replay(t, ROOT + 2, FourFiles(ROOT + 1, a, b, c, d)), ROOT + 1)
  {
    hide Replay, Stored;
    DotEntries(ROOT + 1, ROOT, 0);
    var t := AfterMkDir(NewDir(map[], ROOT, ROOT), ROOT, ROOT + 1, lostFound);
    assert t[ROOT + 1] == Node(Directory, 2, [Entry(ROOT + 1, DOT), Entry(ROOT, DOTDOT)], []);
    FillsUp(t, ROOT + 2, ROOT + 1, a, b, c, d);
  }

  predicate OpOk(cap: nat, op: Op) {
    match op
    case MakeDir(p, _) => p < cap
    case MakeFile(p, _) => p < cap
    case Append(i, data) => i < cap && |data| + BSIZE <= 0x1000_0000_0000
  }

  lemma HasRoot(img: DiskImage)
    requires img.Valid()
    ensures !img.NoRoot()
  {
    hide ViewOf, Layout, Sound, NamesAll, RefsOk;
    assert RootOk(img.T());
  }

  /** The image has room for the call. */
  ghost predicate Possible(img: DiskImage, op: Op)
    reads img
    requires img.Whole()
  {
    match op
    case MakeDir(p, name) => img.RoomForDir(p, name)
    case MakeFile(p, name) => img.V().db.ifree > 0 && CanInsert(img.T(), p, name)
    case Append(i, data) => i in img.T() && RoomFor(img.g, img.V(), i, |data|)
  }

  /** One call: it is done exactly when there is room. */
  method Call(img: DiskImage, op: Op) returns (o: Outcome)
    requires img.Valid() && OpOk(img.g.InodeCap(), op)
    modifies img
    ensures o == Done ==> img.Valid() && img.T() == Step(old(img.T()), |old(img.V()).iused|, op)
    ensures o == Done ==> |img.V().iused| == Next(|old(img.V()).iused|, op)
    ensures o == Done <==> old(Possible(img, op))
  {
    hide ViewOf, Layout, Sound, TreeOf, LinksOk, AfterMkDir, AfterMkFile, Space, Needed;
    ghost var t, cap := img.T(), img.g.InodeCap();
    HasRoot(img);
    match op
    case MakeDir(p, name) =>
      var n;
      o, n := img.MkDir(p, name);
    case MakeFile(p, name) =>
      var n;
      o, n := img.MkFile(p, name);
    case Append(i, data) =>
      o := img.AppendToFile(i, data);
      if o == Done {
        AppendKeepsLinks(t, cap, i, data);
      }
  }

  /** Any sequence of calls on a consistent image; an abort ends the run.  The
      image stays consistent and is the one the calls describe. */
  method Perform(img: DiskImage, ops: seq<Op>) returns (o: Outcome)
    requires img.Valid() && forall k :: 0 <= k < |ops| ==> OpOk(img.g.InodeCap(), ops[k])
    modifies img
    ensures o == Done ==> img.Valid() && img.T() == Replay(old(img.T()), |old(img.V()).iused|, ops)
  {
    hide Replay, ReplayNext, Step, Layout, ViewOf, Sound, TreeOf, LinksOk;
    ghost var t0, n0 := img.T(), |img.V().iused|;
    o := Done;
    assert ops[..0] == [] && Replay(t0, n0, []) == t0 && ReplayNext(n0, []) == n0 by { ReplayNone(t0, n0); }
    for k := 0 to |ops|
      invariant o == Done && img.Valid()
      invariant img.T() == Replay(t0, n0, ops[..k]) && |img.V().iused| == ReplayNext(n0, ops[..k])
    {
      o := Call(img, ops[k]);
      if o != Done {
        return;
      }
      ReplaySnoc(t0, n0, ops[..k], ops[k]);
      assert ops[..k + 1] == ops[..k] + [ops[k]];
    }
    assert ops[..|ops|] == ops;
  }

  lemma ReplayNone(t: Tree, n: nat)
    ensures Replay(t, n, []) == t && ReplayNext(n, []) == n
  {
  }

  /** No block is lost: those in use are exactly the lowest ones, the metadata
      first and then the blocks of the files, each of one file. */
  lemma NoLeaks(g: Geo, v: View, owner: Owner, b: nat)
    requires Sound(g, v, owner, -1)
    ensures b in v.used <==> b < |v.used|
    ensures b in v.used <==>
              b < g.MetaEnd() || exists i, k :: 0 <= i < |v.inodes| && 0 <= k < |Blocks(v, i)| && Blocks(v, i)[k] == b
  {
    hide BlockList, Ready, INodesOk;
    assert b in v.used <==> b in Upto(|v.used|);
    if b in v.used && b >= g.MetaEnd() {
      assert OwnedBy(v, owner, b);
    }
  }

  /** What a consistent image guarantees about its blocks and counters. */
  lemma BlockFacts(g: Geo, v: View, owner: Owner, i: nat, k: nat, j: nat, l: nat)
    requires Sound(g, v, owner, -1)
    requires i < |v.inodes| && k < |Blocks(v, i)| && j < |v.inodes| && l < |Blocks(v, j)|
    ensures var b := Blocks(v, i)[k];
      && b in v.used && g.MetaEnd() <= b < g.disk
      && ((i, k) != (j, l) ==> b != Blocks(v, j)[l])
    ensures v.db.avail == v.db.tfree == g.disk - |v.used|
    ensures v.db.ifree == v.db.iregFree == g.inodeCnt - |v.iused|
    ensures v.db.ninode == (|v.iused| + TWO64 - 2) % TWO64
  {
    hide BlockList, Ready, INodesOk;
    if (i, k) != (j, l) {
      ExtentsDisjoint(g, v, owner, i, k, j, l);
    }
    assert Blocks(v, i)[k] in Upto(g.disk);
  }

  lemma ImageFacts(img: DiskImage, i: nat, k: nat, j: nat, l: nat)
    requires img.Whole()
    requires i < |img.V().inodes| && k < |Blocks(img.V(), i)|
    requires j < |img.V().inodes| && l < |Blocks(img.V(), j)|
    ensures var v := img.V(); var b := Blocks(v, i)[k];
      && b in v.used && img.g.MetaEnd() <= b < img.g.disk
      && ((i, k) != (j, l) ==> b != Blocks(v, j)[l])
      && v.db.avail == v.db.tfree == img.g.disk - |v.used|
      && v.db.ifree == v.db.iregFree == img.g.inodeCnt - |v.iused|
      && v.db.ninode == (|v.iused| + TWO64 - 2) % TWO64
  {
    hide ViewOf, Layout, TreeOf, BlockList, Sound;
    BlockFacts(img.g, img.V(), img.owner, i, k, j, l);
  }

  const CHUNK: nat := 0x10_0000

  /** Copies a local file into the image, a megabyte at a time. */
  method CopyFile(img: DiskImage, parent: nat, name: Name, data: seq<byte>) returns (o: Outcome, n: nat)
    requires img.Valid() && parent < img.g.InodeCap()
    modifies img
    ensures o == Done ==> img.Valid() && n == |old(img.V()).iused| && n !in old(img.T()) && parent in old(img.T())
    ensures o == Done ==> img.T() == AfterAppend(AfterMkFile(old(img.T()), parent, n, name), n, data)
  {
    hide AfterMkFile, LinksOk, ViewOf, Layout, Sound, TreeOf, Space, Needed;
    o, n := img.MkFile(parent, name);
    if o != Done {
      return;
    }
    ghost var t1 := img.T();
    FileThere(t1, old(img.T()), parent, n, name);
    assert n < img.g.InodeCap() by { NodeInside(img, n); }
    var at, eof := 0, false;
    assert AfterAppend(t1, n, data[..0]) == t1 by { AppendNothing(t1, n); }
    while !eof
      invariant at <= |data| && (eof ==> at == |data|)
      invariant img.Valid() && img.T() == AfterAppend(t1, n, data[..at])
      decreases |data| - at, !eof
    {
      var cnt := if |data| - at < CHUNK then |data| - at else CHUNK;
      eof := cnt < CHUNK;
      ghost var t := img.T();
      o := img.AppendToFile(n, data[at..at + cnt]);
      if o != Done {
        return;
      }
      AppendKeepsLinks(t, img.g.InodeCap(), n, data[at..at + cnt]);
      AppendTwice(t1, n, data[..at], data[at..at + cnt]);
      assert data[..at + cnt] == data[..at] + data[at..at + cnt];
      at := at + cnt;
    }
    assert data[..at] == data;
  }

  lemma FileThere(t': Tree, t: Tree, p: nat, n: nat, name: Name)
    requires p in t && t' == AfterMkFile(t, p, n, name)
    ensures n in t'
  {
    hide Stored;
  }

  lemma NodeInside(img: DiskImage, n: nat)
    requires img.Valid() && n in img.T()
    ensures n < img.g.InodeCap()
  {
    hide ViewOf, Layout, Sound, TreeOf, NamesOk, RefsOk;
  }

  lemma AppendNothing(t: Tree, i: nat)
    requires i in t
    ensures AfterAppend(t, i, []) == t
  {
    assert t[i].content + [] == t[i].content;
  }

  lemma AppendTwice(t: Tree, i: nat, a: seq<byte>, b: seq<byte>)
    requires i in t
    ensures AfterAppend(AfterAppend(t, i, a), i, b) == AfterAppend(t, i, a + b)
  {
    assert t[i].content + a + b == t[i].content + (a + b);
  }
}
