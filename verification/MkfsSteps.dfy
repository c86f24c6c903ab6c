/** How the elementary changes of an image preserve the invariant and what
    they do to the tree. */
module MkfsSteps {
  import opened Bits
  import opened Words
  import opened MkfsDir
  import opened MkfsStore
  import opened MkfsView

  /** 64-bit decrement and increment. */
  function Dec(x: Word): (r: Word)
    ensures x > 0 ==> r == x - 1
    ensures x == 0 ==> r == TWO64 - 1
  {
    (x + TWO64 - 1) % TWO64
  }

  function Inc(x: Word): (r: Word)
    ensures r == if x + 1 == TWO64 then 0 else x + 1
  {
    (x + 1) % TWO64
  }

  lemma NinodeStep(n: nat)
    requires n < 0x1_0000_0000
    ensures Inc((n + TWO64 - 2) % TWO64) == (n + 1 + TWO64 - 2) % TWO64
  {
  }

  /** The view after AllocateBlock(b). */
  function TakeBlock(v: View, b: nat): View {
    v.(used := v.used + {b}, db := v.db.(avail := Dec(v.db.avail), tfree := Dec(v.db.tfree)))
  }

  /** The view after AllocateINodeIdx(i). */
  function TakeINode(v: View, i: nat): View {
    v.(iused := v.iused + {i},
       db := v.db.(ifree := Dec(v.db.ifree), ninode := Inc(v.db.ninode), iregFree := Dec(v.db.iregFree)))
  }

  function WithX(v: View, i: nat, x: INode): View
    requires i < |v.inodes|
  {
    v.(inodes := v.inodes[i := x])
  }

  lemma CountersTakeBlock(g: Geo, v: View, b: nat)
    requires BlockCounters(g, v.used, v.db) && b == |v.used| < g.disk < TWO64
    ensures BlockCounters(g, TakeBlock(v, b).used, TakeBlock(v, b).db) && v.db.avail > 0
    ensures b !in v.used && |TakeBlock(v, b).used| == b + 1
  {
    assert b !in Upto(b);
    assert |v.used + {b}| == b + 1;
    assert v.used + {b} == Upto(b + 1);
  }

  lemma CountersTakeINode(g: Geo, v: View, i: nat)
    requires INodeCounters(g, v.iused, v.db) && i == |v.iused| && i < g.inodeCnt <= MAP_BITS
    ensures INodeCounters(g, TakeINode(v, i).iused, TakeINode(v, i).db) && v.db.ifree > 0
  {
    assert i !in Upto(i);
    assert |v.iused + {i}| == i + 1;
    assert v.iused + {i} == Upto(i + 1);
    NinodeStep(i);
  }

  /** Only blocks that the map does not cover are free: first fit finds none
      inside the disk. */
  predicate NoBlock(g: Geo, v: View) {
    v.db.avail <= g.Lost()
  }

  /** How full the map is can be told from the counter. */
  lemma MapFull(g: Geo, v: View)
    requires Counters(g, v) && v.used <= Upto(g.BitCnt())
    ensures v.db.avail >= g.Lost()
    ensures Upto(g.BitCnt()) <= v.used <==> g.BitCnt() <= g.disk && v.db.avail == g.Lost()
  {
    hide Upto;
    var n, all := g.BitCnt(), Upto(g.BitCnt());
    SubsetSize(v.used, all);
    if all <= v.used {
      assert v.used == all;
      SubsetSize(all, Upto(g.disk));
    }
  }

  /** First fit stays inside the disk exactly as long as the free counter is
      positive. */
  lemma FirstFitInside(g: Geo, v: View, r: nat)
    requires Counters(g, v) && r !in v.used
    requires forall j :: 0 <= j < r ==> j in v.used
    ensures r == |v.used|
    ensures r < g.disk <==> v.db.avail > 0
  {
    FirstFit(v.used, r);
  }

  lemma FirstFitINode(g: Geo, v: View, r: nat)
    requires Counters(g, v) && r !in v.iused
    requires forall j :: 0 <= j < r ==> j in v.iused
    ensures r == |v.iused|
    ensures r < g.inodeCnt <==> v.db.ifree > 0
  {
    FirstFit(v.iused, r);
  }

  /* ----- giving a block to a file ----- */

  /** x keeps everything of the old inode but gains block b at its end. */
  predicate Grown(v: View, i: nat, x: INode, b: nat)
    requires i < |v.inodes|
  {
    AddrOk(x.addr) && x.kind == v.inodes[i].kind && BlockList(x.addr) == Blocks(v, i) + [b]
  }

  function GrowView(v: View, i: nat, x: INode, b: nat): View
    requires i < |v.inodes|
  {
    WithX(TakeBlock(v, b), i, x)
  }

  lemma GrowOwned(g: Geo, v: View, owner: Owner, i: nat, x: INode, b: nat)
    requires Owned(g, v, owner) && i < |v.inodes| && Grown(v, i, x, b)
    requires b !in v.used && b >= g.MetaEnd()
    ensures Owned(g, GrowView(v, i, x, b), owner[b := (i, |Blocks(v, i)|)])
  {
    var v', owner' := GrowView(v, i, x, b), owner[b := (i, |Blocks(v, i)|)];
    forall j, k | 0 <= j < |v'.inodes| && 0 <= k < |Blocks(v', j)|
      ensures var c := Blocks(v', j)[k];
        c in v'.used && c >= g.MetaEnd() && c in owner' && owner'[c] == (j, k)
    {
      if j != i || k < |Blocks(v, i)| {
        assert Blocks(v', j)[k] == Blocks(v, j)[k];
      }
    }
  }

  /** Views that differ only in the maps, the counters and inode i. */
  lemma OthersReady(v: View, v': View, i: nat)
    requires Ready(v, i) && v'.raw == v.raw && |v'.inodes| == |v.inodes|
    requires forall j: nat :: j < |v.inodes| && j != i ==> v'.inodes[j] == v.inodes[j]
    ensures Ready(v', i) && TreeOf(v', i) == TreeOf(v, i)
  {
    forall j: nat | j < |v.inodes| && j != i
      ensures NodeReady(v', j) && NodeAt(v', j) == NodeAt(v, j)
    {
      assert NodeReady(v, j);
    }
    SameTree(v, v', i);
  }

  lemma OthersOk(g: Geo, v: View, v': View, i: nat)
    requires INodesOk(g, v) && |v'.inodes| == |v.inodes| && i < |v.inodes|
    requires forall j: nat :: j < |v.inodes| && j != i ==> v'.inodes[j] == v.inodes[j]
    requires v'.iused == v.iused + {i} && AddrOk(v'.inodes[i].addr)
    ensures INodesOk(g, v')
  {
    forall j: nat | j < |v.inodes|
      ensures INodeOk(v', j)
    {
      assert INodeOk(v, j);
    }
  }

  lemma GrowSound(g: Geo, v: View, owner: Owner, i: nat, x: INode, b: nat)
    requires Sound(g, v, owner, i) && g.Ok() && i < |v.inodes| && i in v.iused && Grown(v, i, x, b)
    requires b == |v.used| < g.disk
    ensures Sound(g, GrowView(v, i, x, b), owner[b := (i, |Blocks(v, i)|)], i)
    ensures TreeOf(GrowView(v, i, x, b), i) == TreeOf(v, i)
  {
    hide Upto, BlockList, NodeReady, TreeOf;
    var v' := GrowView(v, i, x, b);
    assert b !in Upto(g.MetaEnd());
    CountersTakeBlock(g, v, b);
    GrowOwned(g, v, owner, i, x, b);
    assert v'.iused == v.iused + {i};
    OthersOk(g, v, v', i);
    OthersReady(v, v', i);
  }

  /* ----- writing a block of a file ----- */

  function WithRaw(v: View, b: nat, bytes: seq<byte>): View {
    v.(raw := v.raw[b := bytes])
  }

  /** Writing a block that inode i owns leaves every other node alone. */
  lemma WriteOther(g: Geo, v: View, owner: Owner, i: nat, k: nat, bytes: seq<byte>, j: nat)
    requires Owned(g, v, owner) && i < |v.inodes| && k < |Blocks(v, i)| && |bytes| == BSIZE
    requires j < |v.inodes| && j != i && RawOk(v.raw) && NodeReady(v, j)
    ensures var v' := WithRaw(v, Blocks(v, i)[k], bytes);
      RawOk(v'.raw) && NodeReady(v', j) && NodeAt(v', j) == NodeAt(v, j)
  {
    var raw' := WithRaw(v, Blocks(v, i)[k], bytes).raw;
    var x := v.inodes[j];
    forall l | 0 <= l < |BlockList(x.addr)|
      ensures DataAt(v.raw, BlockList(x.addr)[l]) == DataAt(raw', BlockList(x.addr)[l])
    {
      ExtentsDisjoint(g, v, owner, i, k, j, l);
    }
    NodeFrame(v.raw, raw', x);
  }

  lemma SameOwned(g: Geo, v: View, v': View, owner: Owner)
    requires Owned(g, v, owner) && |v'.inodes| == |v.inodes| && v'.used == v.used
    requires forall j: nat :: j < |v.inodes| ==> v'.inodes[j].addr == v.inodes[j].addr
    ensures Owned(g, v', owner)
  {
    forall j, k | 0 <= j < |v'.inodes| && 0 <= k < |Blocks(v', j)|
      ensures var c := Blocks(v', j)[k];
        c in v'.used && c >= g.MetaEnd() && c in owner && owner[c] == (j, k)
    {
      assert Blocks(v', j)[k] == Blocks(v, j)[k];
    }
  }

  lemma WriteReady(g: Geo, v: View, owner: Owner, i: nat, k: nat, bytes: seq<byte>)
    requires Owned(g, v, owner) && i < |v.inodes| && k < |Blocks(v, i)| && |bytes| == BSIZE
    requires Ready(v, i)
    ensures Ready(WithRaw(v, Blocks(v, i)[k], bytes), i)
    ensures TreeOf(WithRaw(v, Blocks(v, i)[k], bytes), i) == TreeOf(v, i)
  {
    var v' := WithRaw(v, Blocks(v, i)[k], bytes);
    forall j: nat | j < |v.inodes| && j != i
      ensures NodeReady(v', j) && NodeAt(v', j) == NodeAt(v, j)
    {
      assert NodeReady(v, j);
      WriteOther(g, v, owner, i, k, bytes, j);
    }
    SameTree(v, v', i);
  }

  lemma WriteSound(g: Geo, v: View, owner: Owner, i: nat, k: nat, bytes: seq<byte>)
    requires Sound(g, v, owner, i) && i < |v.inodes| && k < |Blocks(v, i)| && |bytes| == BSIZE
    ensures Sound(g, WithRaw(v, Blocks(v, i)[k], bytes), owner, i)
    ensures TreeOf(WithRaw(v, Blocks(v, i)[k], bytes), i) == TreeOf(v, i)
  {
    var v' := WithRaw(v, Blocks(v, i)[k], bytes);
    SameOwned(g, v, v', owner);
    WriteReady(g, v, owner, i, k, bytes);
    forall j: nat | j < |v.inodes|
      ensures INodeOk(v', j)
    {
      assert INodeOk(v, j);
    }
  }

  /* ----- changing the plain fields of an inode ----- */

  /** Changing the fields of an inode that stays in mid-update. */
  lemma FieldsSound(g: Geo, v: View, owner: Owner, i: nat, x: INode)
    requires Sound(g, v, owner, i) && i < |v.inodes| && i in v.iused && x.addr == v.inodes[i].addr
    ensures Sound(g, WithX(v, i, x), owner, i)
    ensures TreeOf(WithX(v, i, x), i) == TreeOf(v, i)
  {
    var v' := WithX(v, i, x);
    SameOwned(g, v, v', owner);
    assert INodeOk(v, i);
    assert v'.iused == v.iused + {i};
    OthersOk(g, v, v', i);
    OthersReady(v, v', i);
  }

  /** Ending an update: the inode is in order again and joins the tree. */
  lemma Tighten(v: View, i: nat)
    requires Ready(v, i) && i < |v.inodes| && NodeReady(v, i) && !v.inodes[i].kind.Unused?
    ensures Ready(v, -1) && TreeOf(v, -1) == TreeOf(v, i)[i := NodeAt(v, i)]
  {
    forall j: nat
      ensures InTree(v, j, -1) <==> InTree(v, j, i) || j == i
    {
    }
  }

  /** Beginning an update: the inode leaves the tree. */
  lemma Loosen(v: View, i: nat)
    requires Ready(v, -1)
    ensures Ready(v, i) && TreeOf(v, i) == TreeOf(v, -1) - {i}
  {
    forall j: nat
      ensures InTree(v, j, i) <==> InTree(v, j, -1) && j != i
      ensures j in TreeOf(v, i) <==> InTree(v, j, i)
      ensures j in TreeOf(v, -1) <==> InTree(v, j, -1)
    {
    }
  }

  /** Taking a new inode, which is then in mid-update. */
  lemma TakeINodeSound(g: Geo, v: View, owner: Owner, i: nat)
    requires Sound(g, v, owner, -1) && g.Ok() && i == |v.iused| && i < g.inodeCnt
    ensures i < |v.inodes| && v.inodes[i] == ZeroINode()
    ensures Sound(g, TakeINode(v, i), owner, i)
    ensures TreeOf(TakeINode(v, i), i) == TreeOf(v, -1)
  {
    var v' := TakeINode(v, i);
    CountersTakeINode(g, v, i);
    assert i !in v.iused;
    assert INodeOk(v, i);
    assert !InTree(v, i, -1);
    Loosen(v, i);
    SameOwned(g, v, v', owner);
    OthersOk(g, v, v', i);
    OthersReady(v, v', i);
  }

  /* ----- the end of a file ----- */

  /** The first n blocks of file i start with `bytes`. */
  predicate Holds(v: View, i: nat, n: nat, bytes: seq<byte>)
    requires i < |v.inodes| && RawOk(v.raw)
  {
    n <= |Blocks(v, i)| && |bytes| <= BSIZE * n && Flat(v.raw, Blocks(v, i)[..n])[..|bytes|] == bytes
  }

  /** Writing the last block of a file replaces just its bytes. */
  lemma WriteLast(g: Geo, v: View, owner: Owner, i: nat, bytes: seq<byte>)
    requires Owned(g, v, owner) && RawOk(v.raw) && i < |v.inodes| && |Blocks(v, i)| > 0 && |bytes| == BSIZE
    ensures var n := |Blocks(v, i)| - 1;
      var v' := WithRaw(v, Blocks(v, i)[n], bytes);
      RawOk(v'.raw) && Flat(v'.raw, Blocks(v, i)) == Flat(v.raw, Blocks(v, i)[..n]) + bytes
  {
    var bl := Blocks(v, i);
    var n := |bl| - 1;
    var raw' := WithRaw(v, bl[n], bytes).raw;
    forall k | 0 <= k < n
      ensures DataAt(v.raw, bl[..n][k]) == DataAt(raw', bl[..n][k])
    {
      ExtentsDisjoint(g, v, owner, i, k, i, n);
    }
    FlatFrame(v.raw, raw', bl[..n]);
  }

  /** Filling the half-empty last block. */
  lemma FillPartial(g: Geo, v: View, owner: Owner, i: nat, c: seq<byte>, d: seq<byte>)
    requires Owned(g, v, owner) && RawOk(v.raw) && i < |v.inodes| && |Blocks(v, i)| > 0
    requires Holds(v, i, |Blocks(v, i)|, c)
    requires |c| / BSIZE == |Blocks(v, i)| - 1 && |c| % BSIZE + |d| <= BSIZE
    ensures var b := Blocks(v, i)[|Blocks(v, i)| - 1];
      var v' := WithRaw(v, b, Splice(DataAt(v.raw, b), |c| % BSIZE, d));
      RawOk(v'.raw) && Holds(v', i, |Blocks(v, i)|, c + d)
  {
    var bl := Blocks(v, i);
    var n, p := |bl| - 1, |c| % BSIZE;
    var s := DataAt(v.raw, bl[n]);
    var s' := Splice(s, p, d);
    WriteLast(g, v, owner, i, s');
    assert bl[..|bl|] == bl;
    var front := Flat(v.raw, bl[..n]);
    assert Flat(v.raw, bl) == front + s;
    var raw' := WithRaw(v, bl[n], s').raw;
    assert |c| == |front| + p;
    PrefixJoin(front, s, s', p, c, d);
  }

  lemma PrefixJoin(front: seq<byte>, s: seq<byte>, s': seq<byte>, p: nat, c: seq<byte>, d: seq<byte>)
    requires |s| == |s'| && p + |d| <= |s| && s'[..p] == s[..p] && s'[p..p + |d|] == d
    requires |c| == |front| + p && (front + s)[..|c|] == c
    ensures (front + s')[..|c| + |d|] == c + d
  {
    assert c == front + s[..p];
    assert s'[..p + |d|] == s'[..p] + s'[p..p + |d|];
    assert (front + s')[..|c| + |d|] == front + s'[..p + |d|];
  }

  /** Filling the block that was just allocated. */
  lemma FillNew(g: Geo, v: View, owner: Owner, i: nat, c: seq<byte>, d: seq<byte>)
    requires Owned(g, v, owner) && RawOk(v.raw) && i < |v.inodes| && |Blocks(v, i)| > 0
    requires Holds(v, i, |Blocks(v, i)| - 1, c)
    requires |c| == BSIZE * (|Blocks(v, i)| - 1) && |d| <= BSIZE
    ensures var b := Blocks(v, i)[|Blocks(v, i)| - 1];
      var v' := WithRaw(v, b, Splice(DataAt(v.raw, b), 0, d));
      RawOk(v'.raw) && Holds(v', i, |Blocks(v, i)|, c + d)
  {
    var bl := Blocks(v, i);
    var n := |bl| - 1;
    var s := DataAt(v.raw, bl[n]);
    WriteLast(g, v, owner, i, Splice(s, 0, d));
    assert bl[..|bl|] == bl;
    PrefixJoin(Flat(v.raw, bl[..n]), s, Splice(s, 0, d), 0, c, d);
  }

  /** Giving a block to a file keeps what it holds. */
  lemma HoldsGrow(v: View, i: nat, x: INode, b: nat, c: seq<byte>)
    requires i < |v.inodes| && RawOk(v.raw) && Grown(v, i, x, b)
    requires Holds(v, i, |Blocks(v, i)|, c)
    ensures Holds(GrowView(v, i, x, b), i, |Blocks(v, i)|, c)
  {
    var bl := Blocks(v, i);
    assert (bl + [b])[..|bl|] == bl == bl[..|bl|];
  }

  /** The first block of a file is untouched when its content only grows. */
  lemma SameHead(raw0: RawBlocks, bl0: seq<nat>, raw: RawBlocks, bl: seq<nat>, c0: seq<byte>, c: seq<byte>)
    requires RawOk(raw0) && RawOk(raw) && |bl0| > 0 && |bl| > 0
    requires BSIZE <= |c0| <= |c| && c[..|c0|] == c0
    requires |c0| <= BSIZE * |bl0| && Flat(raw0, bl0)[..|c0|] == c0
    requires |c| <= BSIZE * |bl| && Flat(raw, bl)[..|c|] == c
    ensures DataAt(raw, bl[0]) == DataAt(raw0, bl0[0])
  {
    hide Flat, DataAt, RawOk;
    FlatHead(raw0, bl0);
    FlatHead(raw, bl);
    assert Flat(raw, bl)[..BSIZE] == c[..BSIZE] == c[..|c0|][..BSIZE];
    assert Flat(raw0, bl0)[..BSIZE] == c0[..BSIZE];
  }

  /** A complete update: the inode's fields are set and it has a meaning. */
  lemma FinishAppend(v0: View, v: View, i: nat, data: seq<byte>)
    requires i < |v0.inodes| == |v.inodes| && RawOk(v0.raw) && NodeReady(v0, i) && RawOk(v.raw)
    requires !v0.inodes[i].kind.Unused? && v.inodes[i].kind == v0.inodes[i].kind
    requires v.inodes[i].size == v0.inodes[i].size + |data| && SizeOk(v.inodes[i])
    requires v.inodes[i].nlink == v0.inodes[i].nlink
    requires Holds(v, i, |Blocks(v, i)|, Content(v0.raw, v0.inodes[i]) + data)
    ensures NodeReady(v, i)
    ensures NodeAt(v, i) == NodeAt(v0, i).(content := NodeAt(v0, i).content + data)
  {
    var x0, x := v0.inodes[i], v.inodes[i];
    var c0 := Content(v0.raw, x0);
    var bl0, bl := BlockList(x0.addr), BlockList(x.addr);
    assert bl[..|bl|] == bl;
    assert Content(v.raw, x) == c0 + data;
    if x.kind.Directory? {
      assert |bl| > 0 by { BlocksCover(x.size); }
      BlocksCover(x0.size);
      assert (c0 + data)[..|c0|] == c0;
      SameHead(v0.raw, bl0, v.raw, bl, c0, c0 + data);
      assert (c0 + data)[BSIZE..] == c0[BSIZE..] + data;
    }
  }

  /** Inode i is being appended to: every other node is as in t0, only the
      extents of i have changed, and its first n blocks hold c. */
  predicate Appending(g: Geo, v: View, owner: Owner, i: nat, x0: INode, t0: Tree, c: seq<byte>, n: nat) {
    && Sound(g, v, owner, i)
    && i < |v.inodes| && i in v.iused
    && TreeOf(v, i) == t0
    && v.inodes[i] == x0.(addr := v.inodes[i].addr)
    && Holds(v, i, n, c)
  }

  /** memcpy of d to offset ofs of the last block of the file. */
  lemma FillStep(g: Geo, v: View, owner: Owner, i: nat, x0: INode, t0: Tree, c: seq<byte>, n: nat,
                 ofs: nat, d: seq<byte>)
    requires Appending(g, v, owner, i, x0, t0, c, n) && ofs + |d| <= BSIZE
    requires |Blocks(v, i)| > 0
    requires || (n == |Blocks(v, i)| && |c| / BSIZE == n - 1 && ofs == |c| % BSIZE)
             || (n == |Blocks(v, i)| - 1 && |c| == BSIZE * n && ofs == 0)
    ensures var b := Blocks(v, i)[|Blocks(v, i)| - 1];
      var v' := WithRaw(v, b, Splice(DataAt(v.raw, b), ofs, d));
      Appending(g, v', owner, i, x0, t0, c + d, |Blocks(v, i)|)
  {
    hide BlockList, Flat, DirOk, NodeReady, TreeOf, Counters, Owned, INodesOk;
    var b := Blocks(v, i)[|Blocks(v, i)| - 1];
    WriteSound(g, v, owner, i, |Blocks(v, i)| - 1, Splice(DataAt(v.raw, b), ofs, d));
    if n == |Blocks(v, i)| {
      FillPartial(g, v, owner, i, c, d);
    } else {
      FillNew(g, v, owner, i, c, d);
    }
  }

  /** One more block for the file. */
  lemma ExtendStep(g: Geo, v: View, owner: Owner, i: nat, x0: INode, t0: Tree, c: seq<byte>, x: INode, b: nat)
    requires i < |v.inodes| && Appending(g, v, owner, i, x0, t0, c, |Blocks(v, i)|) && g.Ok()
    requires Grown(v, i, x, b) && x == v.inodes[i].(addr := x.addr)
    requires b == |v.used| < g.disk
    ensures var v' := GrowView(v, i, x, b);
      Appending(g, v', owner[b := (i, |Blocks(v, i)|)], i, x0, t0, c, |Blocks(v, i)|)
      && Blocks(v', i) == Blocks(v, i) + [b]
  {
    GrowSound(g, v, owner, i, x, b);
    HoldsGrow(v, i, x, b, c);
  }

  /* ----- the cursor of AppendToFile ----- */

  /** idx is the last live extent (0 if there is none) and ends at `end`. */
  predicate AtEnd(addr: seq<Extent>, idx: nat, end: nat) {
    && |addr| == MAX_EXTENTS && idx < MAX_EXTENTS
    && end == addr[idx].blk + addr[idx].nblks
    && (forall j :: idx < j < MAX_EXTENTS ==> addr[j].nblks == 0)
    && (idx > 0 ==> addr[idx].nblks > 0)
  }

  lemma LastBlock(addr: seq<Extent>, idx: nat, end: nat)
    requires AtEnd(addr, idx, end) && addr[idx].nblks > 0
    ensures |BlockList(addr)| > 0 && BlockList(addr)[|BlockList(addr)| - 1] == end - 1
  {
    BlockListTail(addr, idx + 1);
    BlockListStep(addr, idx);
  }

  /** One more block behind the last extent. */
  lemma MergeExtent(addr: seq<Extent>, idx: nat, b: nat)
    requires AddrOk(addr) && AtEnd(addr, idx, b) && addr[idx].nblks > 0
    ensures var addr' := addr[idx := addr[idx].(nblks := addr[idx].nblks + 1)];
      AddrOk(addr') && AtEnd(addr', idx, b + 1) && BlockList(addr') == BlockList(addr) + [b]
  {
    var e := addr[idx].(nblks := addr[idx].nblks + 1);
    assert Run(e) == Run(addr[idx]) + [b];
    BlockListGrow(addr, idx, e, b);
  }

  /** A new extent of one block. */
  lemma NewExtent(addr: seq<Extent>, idx: nat, b: nat)
    requires AddrOk(addr) && idx < MAX_EXTENTS
    requires forall j :: idx <= j < MAX_EXTENTS ==> addr[j].nblks == 0
    requires idx > 0 ==> addr[idx - 1].nblks > 0
    ensures var addr' := addr[idx := Extent(b, 1)];
      AddrOk(addr') && AtEnd(addr', idx, b + 1) && BlockList(addr') == BlockList(addr) + [b]
  {
    assert Run(Extent(b, 1)) == Run(addr[idx]) + [b];
    BlockListGrow(addr, idx, Extent(b, 1), b);
  }

  /* ----- room for an append ----- */

  /** The next block can be added to file i: it is the file's first one, or lies
      right behind its last one, or an extent is left for it. */
  predicate Extensible(v: View, i: nat) {
    && i < |v.inodes| && |v.inodes[i].addr| == MAX_EXTENTS
    && (|| Blocks(v, i) == []
        || Blocks(v, i)[|Blocks(v, i)| - 1] + 1 == |v.used|
        || v.inodes[i].addr[MAX_EXTENTS - 1].nblks == 0)
  }

  /** File i can get n more blocks. */
  predicate FitsBlocks(g: Geo, v: View, i: nat, n: int) {
    n <= 0 || (n <= v.db.avail - g.Lost() && Extensible(v, i))
  }

  /** And n more bytes. */
  predicate RoomFor(g: Geo, v: View, i: nat, n: nat) {
    i < |v.inodes| && FitsBlocks(g, v, i, BlocksFor(v.inodes[i].size + n) - BlocksFor(v.inodes[i].size))
  }

  /** What PlaceBlock looks at says the same. */
  lemma EndExtensible(v: View, i: nat, idx: nat, end: nat)
    requires i < |v.inodes| && AtEnd(v.inodes[i].addr, idx, end) && AddrOk(v.inodes[i].addr)
    ensures Extensible(v, i) <==>
              || (end == |v.used| && v.inodes[i].addr[idx].nblks > 0)
              || v.inodes[i].addr[idx].nblks == 0
              || v.inodes[i].addr[MAX_EXTENTS - 1].nblks == 0
  {
    hide BlockList;
    var addr := v.inodes[i].addr;
    if addr[idx].nblks > 0 {
      LastBlock(addr, idx, end);
    } else {
      NoBlocks(addr);
    }
  }

  /** A file that cannot be extended has all of its eight extents in use. */
  lemma AllExtentsUsed(v: View, i: nat)
    requires i < |v.inodes| && AddrOk(v.inodes[i].addr) && !Extensible(v, i)
    ensures |v.inodes[i].addr| == 8 && forall j :: 0 <= j < 8 ==> v.inodes[i].addr[j].nblks > 0
  {
    hide BlockList;
  }

  /** Once a block is added the next one lies behind it: there is room for one
      block less, if there was. */
  lemma GrowFits(g: Geo, v: View, i: nat, x: INode, b: nat, n: nat)
    requires BlockCounters(g, v.used, v.db) && b == |v.used| < g.disk < TWO64 && i < |v.inodes| && Grown(v, i, x, b)
    requires n > 0 && !NoBlock(g, v) && Extensible(v, i)
    ensures FitsBlocks(g, GrowView(v, i, x, b), i, n - 1) <==> FitsBlocks(g, v, i, n)
  {
    hide BlockList;
    CountersTakeBlock(g, v, b);
    var v' := GrowView(v, i, x, b);
    assert Blocks(v', i)[|Blocks(v', i)| - 1] == b;
  }

  /** The blocks that n bytes take behind the last one of a file of this size. */
  lemma BlocksBehind(size: nat, n: nat)
    ensures var left := size % BSIZE;
      var rest := if left == 0 then n else if BSIZE - left < n then n - (BSIZE - left) else 0;
      BlocksFor(size + n) - BlocksFor(size) == BlocksFor(rest)
  {
    var q, left := size / BSIZE, size % BSIZE;
    assert size == q * BSIZE + left;
  }

  datatype Cursor = Cursor(idx: nat, curr: nat, end: nat, cnt: nat, total: nat)

  /** Between two steps of AppendToFile: c is stored, and either the file is
      allocated exactly up to it (curr == end) or one further, still unwritten,
      block has been allocated.  `more` says that data is left over. */
  predicate AtCursor(g: Geo, v: View, owner: Owner, i: nat, x0: INode, t0: Tree, c: seq<byte>,
                     k: Cursor, more: bool) {
    && i < |v.inodes|
    && AtEnd(v.inodes[i].addr, k.idx, k.end)
    && k.total == |Blocks(v, i)|
    && (k.cnt == 0 <==> v.inodes[i].addr[k.idx].nblks == 0)
    && if k.curr == k.end then
         && Appending(g, v, owner, i, x0, t0, c, |Blocks(v, i)|)
         && |Blocks(v, i)| == BlocksFor(|c|)
         && (more ==> |c| == BSIZE * |Blocks(v, i)|)
       else
         && k.end == k.curr + 1 && k.cnt > 0 && more
         && |c| == BSIZE * (|Blocks(v, i)| - 1)
         && Appending(g, v, owner, i, x0, t0, c, |Blocks(v, i)| - 1)
  }

  lemma CursorFill(g: Geo, v: View, owner: Owner, i: nat, x0: INode, t0: Tree, c: seq<byte>,
                   k: Cursor, d: seq<byte>, more: bool)
    requires AtCursor(g, v, owner, i, x0, t0, c, k, true) && k.curr != k.end
    requires 0 < |d| <= BSIZE && (more ==> |d| == BSIZE)
    ensures k.curr >= g.MetaEnd()
    ensures AtCursor(g, WithRaw(v, k.curr, Splice(DataAt(v.raw, k.curr), 0, d)), owner, i, x0, t0, c + d,
                     k.(curr := k.curr + 1), more)
  {
    hide Sound, Holds, BlockList, TreeOf;
    LastBlock(v.inodes[i].addr, k.idx, k.end);
    LastIsData(g, v, owner, i);
    FillStep(g, v, owner, i, x0, t0, c, |Blocks(v, i)| - 1, 0, d);
  }

  lemma LastIsData(g: Geo, v: View, owner: Owner, i: nat)
    requires Sound(g, v, owner, i) && i < |v.inodes| && |Blocks(v, i)| > 0
    ensures Blocks(v, i)[|Blocks(v, i)| - 1] >= g.MetaEnd()
  {
  }

  lemma CursorExtend(g: Geo, v: View, owner: Owner, i: nat, x0: INode, t0: Tree, c: seq<byte>,
                     k: Cursor, x: INode, b: nat, idx': nat)
    requires AtCursor(g, v, owner, i, x0, t0, c, k, true) && k.curr == k.end && g.Ok()
    requires Grown(v, i, x, b) && x == v.inodes[i].(addr := x.addr)
    requires b == |v.used| < g.disk
    requires AtEnd(x.addr, idx', b + 1) && x.addr[idx'].nblks > 0
    ensures AtCursor(g, GrowView(v, i, x, b), owner[b := (i, |Blocks(v, i)|)], i, x0, t0, c,
                     Cursor(idx', b, b + 1, 1, k.total + 1), true)
  {
    hide Sound, Holds, TreeOf;
    ExtendStep(g, v, owner, i, x0, t0, c, x, b);
  }

  /** Before the first step the file holds its content. */
  lemma StartAppending(g: Geo, v: View, owner: Owner, i: nat)
    requires Sound(g, v, owner, -1) && i < |v.inodes| && !v.inodes[i].kind.Unused?
    ensures Ready(v, i) && RawOk(v.raw) && NodeReady(v, i) && SizeOk(v.inodes[i])
    ensures Sound(g, v, owner, i)
    ensures Appending(g, v, owner, i, v.inodes[i], TreeOf(v, i), Content(v.raw, v.inodes[i]), |Blocks(v, i)|)
    ensures |Blocks(v, i)| == BlocksFor(v.inodes[i].size)
  {
    hide BlockCounters, INodeCounters, Owned, BlockList, Flat, DirOk;
    var x := v.inodes[i];
    assert INodeOk(v, i) && NodeReady(v, i);
    Loosen(v, i);
    assert Blocks(v, i)[..|Blocks(v, i)|] == Blocks(v, i);
    BlocksCover(x.size);
  }

  /** The cursor FindEnd leaves when the last block is full. */
  lemma CursorStart(g: Geo, v: View, owner: Owner, i: nat, k: Cursor, more: bool)
    requires Sound(g, v, owner, -1) && i < |v.inodes| && !v.inodes[i].kind.Unused?
    requires AtEnd(v.inodes[i].addr, k.idx, k.end) && k.cnt == v.inodes[i].addr[k.idx].nblks
    requires k.total == |Blocks(v, i)| && v.inodes[i].size % BSIZE == 0 && k.curr == k.end
    ensures Ready(v, i) && NodeReady(v, i)
    ensures AtCursor(g, v, owner, i, v.inodes[i], TreeOf(v, i), Content(v.raw, v.inodes[i]), k, more)
  {
    hide Sound, Appending, BlockList, NodeReady, Ready;
    StartAppending(g, v, owner, i);
  }

  /** The cursor after a half-empty last block has been filled. */
  lemma CursorPartial(g: Geo, v: View, owner: Owner, i: nat, d: seq<byte>, k: Cursor, more: bool)
    requires Sound(g, v, owner, -1) && i < |v.inodes| && !v.inodes[i].kind.Unused?
    requires AtEnd(v.inodes[i].addr, k.idx, k.end) && k.cnt == v.inodes[i].addr[k.idx].nblks
    requires k.total == |Blocks(v, i)|
    requires v.inodes[i].size % BSIZE != 0 && k.curr == k.end - 1 && k.cnt > 0
    requires v.inodes[i].size % BSIZE + |d| <= BSIZE
    requires more ==> v.inodes[i].size % BSIZE + |d| == BSIZE
    ensures Ready(v, i) && NodeReady(v, i) && k.curr >= g.MetaEnd()
    ensures AtCursor(g, WithRaw(v, k.curr, Splice(DataAt(v.raw, k.curr), v.inodes[i].size % BSIZE, d)), owner, i,
                     v.inodes[i], TreeOf(v, i), Content(v.raw, v.inodes[i]) + d, k.(curr := k.end), more)
  {
    hide Sound, Appending, BlockList, NodeReady, Ready;
    var x := v.inodes[i];
    StartAppending(g, v, owner, i);
    LastBlock(x.addr, k.idx, k.end);
    LastIsData(g, v, owner, i);
    FillStep(g, v, owner, i, x, TreeOf(v, i), Content(v.raw, x), |Blocks(v, i)|, x.size % BSIZE, d);
  }

  lemma LoosenSound(g: Geo, v: View, owner: Owner, i: nat)
    requires Sound(g, v, owner, -1)
    ensures Sound(g, v, owner, i)
  {
    hide Counters, INodesOk, Owned;
    Loosen(v, i);
  }

  /** The last step: size and block count are written. */
  lemma CursorFinish(g: Geo, v0: View, v: View, owner: Owner, i: nat, data: seq<byte>, k: Cursor)
    requires i < |v0.inodes| == |v.inodes| && Ready(v0, -1) && NodeReady(v0, i) && !v0.inodes[i].kind.Unused?
    requires Ready(v0, i)
    requires AtCursor(g, v, owner, i, v0.inodes[i], TreeOf(v0, i), Content(v0.raw, v0.inodes[i]) + data, k, false)
    ensures var x := v.inodes[i].(blocks := k.total, size := v0.inodes[i].size + |data|);
      var v' := WithX(v, i, x);
      && Sound(g, v', owner, -1)
      && TreeOf(v', -1) == TreeOf(v0, -1)[i := NodeAt(v0, i).(content := NodeAt(v0, i).content + data)]
  {
    hide BlockCounters, INodeCounters, INodesOk, Owned, BlockList, Holds;
    var x := v.inodes[i].(blocks := k.total, size := v0.inodes[i].size + |data|);
    var v' := WithX(v, i, x);
    FieldsSound(g, v, owner, i, x);
    HoldsFields(v, i, x, |Blocks(v, i)|, Content(v0.raw, v0.inodes[i]) + data);
    FinishAppend(v0, v', i, data);
    Tighten(v', i);
    Loosen(v0, i);
  }

  lemma HoldsFields(v: View, i: nat, x: INode, n: nat, c: seq<byte>)
    requires i < |v.inodes| && RawOk(v.raw) && x.addr == v.inodes[i].addr && Holds(v, i, n, c)
    ensures Holds(WithX(v, i, x), i, n, c)
  {
  }

  lemma CursorFacts(g: Geo, v: View, owner: Owner, i: nat, x0: INode, t0: Tree, c: seq<byte>, k: Cursor, more: bool)
    requires AtCursor(g, v, owner, i, x0, t0, c, k, more)
    ensures Counters(g, v) && RawOk(v.raw) && i < |v.inodes| == g.InodeCap() && AddrOk(v.inodes[i].addr)
    ensures AtEnd(v.inodes[i].addr, k.idx, k.end) && k.total == |Blocks(v, i)|
    ensures k.cnt == 0 <==> v.inodes[i].addr[k.idx].nblks == 0
  {
    assert INodeOk(v, i);
  }

  lemma Chunk(c0: seq<byte>, data: seq<byte>, done: nat, room: nat)
    requires done + room <= |data|
    ensures c0 + data[..done] + data[done..][..room] == c0 + data[..done + room]
    ensures data[done..][room..] == data[done + room..]
  {
  }

  /** The tree after appending data to node i. */
  function AfterAppend(t: Tree, i: nat, data: seq<byte>): Tree
    requires i in t
  {
    t[i := t[i].(content := t[i].content + data)]
  }

  /** An unwritten block is only there when data is left for it. */
  lemma StillData(g: Geo, v: View, owner: Owner, i: nat, x0: INode, t0: Tree, c: seq<byte>, k: Cursor, more: bool)
    requires AtCursor(g, v, owner, i, x0, t0, c, k, more) && k.curr != k.end
    ensures more && k.end == k.curr + 1
  {
  }

  /* ----- directories ----- */

  /** The inode of a directory that has been set up but has no block yet. */
  function FreshDir(nlink: nat): INode {
    ZeroINode().(kind := Directory, nlink := nlink)
  }

  /** A directory inode with its single block b. */
  function DirINode(nlink: nat, b: nat): INode {
    FreshDir(nlink).(addr := ZeroINode().addr[0 := Extent(b, 1)], size := BSIZE, blocks := 1)
  }

  lemma FreshGrown(v: View, i: nat, nlink: nat, b: nat)
    requires i < |v.inodes| && v.inodes[i] == FreshDir(nlink) && b > 0
    ensures AddrOk(ZeroINode().addr)
    ensures Blocks(v, i) == [] && Grown(v, i, DirINode(nlink, b), b) && SizeOk(DirINode(nlink, b))
    ensures BlockList(DirINode(nlink, b).addr) == [b]
  {
    NoBlocks(ZeroINode().addr);
    NewExtent(ZeroINode().addr, 0, b);
  }

  /** A block with one record that fills it is a directory of one entry. */
  lemma OneEntry(bytes: seq<byte>, ino: Word, name: Name)
    requires |bytes| == BSIZE && RecAt(bytes, 0) == NewRec(0, ino, name) && Needed(name) <= BSIZE
    ensures IsChain(Table(bytes), 0) && Entries(Table(bytes), 0) == [Entry(ino, Stored(name))]
  {
    assert Table(bytes)(0) == RecAt(bytes, 0);
  }

  lemma OneBlockDir(raw: RawBlocks, nlink: nat, b: nat, ino: Word, name: Name)
    requires RawOk(raw) && BlockList(DirINode(nlink, b).addr) == [b] && SizeOk(DirINode(nlink, b))
    requires RecAt(DataAt(raw, b), 0) == NewRec(0, ino, name) && Needed(name) <= BSIZE
    ensures DirOk(raw, DirINode(nlink, b))
    ensures NodeOf(raw, DirINode(nlink, b)) == Node(Directory, nlink, [Entry(ino, Stored(name))], [])
  {
    OneEntry(DataAt(raw, b), ino, name);
  }

  /** The first entry of a new directory. */
  lemma FirstEntryStep(
    g: Geo, v: View, owner: Owner, i: nat, nlink: nat, b: nat, bytes: seq<byte>, ino: Word, name: Name)
    requires Sound(g, v, owner, i) && g.Ok() && i < |v.inodes| && i in v.iused
    requires v.inodes[i] == FreshDir(nlink) && b == |v.used| < g.disk
    requires |bytes| == BSIZE && RecAt(bytes, 0) == NewRec(0, ino, name) && Needed(name) <= BSIZE
    ensures b >= g.MetaEnd() && |ZeroINode().addr| == MAX_EXTENTS
    ensures var v' := WithRaw(GrowView(v, i, DirINode(nlink, b), b), b, bytes);
      Sound(g, v', owner[b := (i, 0)], -1)
      && TreeOf(v', -1) == TreeOf(v, i)[i := Node(Directory, nlink, [Entry(ino, Stored(name))], [])]
  {
    hide Owned, INodesOk, BlockList, DirOk, IsChain, SizeOk, RecAt;
    assert b !in Upto(g.MetaEnd());
    FreshGrown(v, i, nlink, b);
    var v1 := GrowView(v, i, DirINode(nlink, b), b);
    GrowSound(g, v, owner, i, DirINode(nlink, b), b);
    WriteSound(g, v1, owner[b := (i, 0)], i, 0, bytes);
    var v2 := WithRaw(v1, b, bytes);
    assert DataAt(v2.raw, b) == bytes;
    OneBlockDir(v2.raw, nlink, b, ino, name);
    Tighten(v2, i);
  }

  /** The tree after one more entry in directory i. */
  function AfterEntry(t: Tree, i: nat, e: Entry): Tree
    requires i in t
  {
    t[i := t[i].(entries := t[i].entries + [e])]
  }

  /** A directory of one block with room for the name. */
  predicate CanInsert(t: Tree, i: nat, name: Name) {
    && i in t && t[i].kind.Directory? && t[i].content == []
    && Space(t[i].entries) + Needed(name) <= BSIZE
  }

  /** A directory of one block that is filled up to its last byte: the search
      for its last record runs past the block. */
  predicate FullDir(t: Tree, i: nat) {
    i in t && t[i].kind.Directory? && t[i].content == [] && Space(t[i].entries) == BSIZE
  }

  /** Rewriting block k of node i changes the tree at i only. */
  lemma RewriteStep(g: Geo, v: View, owner: Owner, i: nat, k: nat, bytes: seq<byte>, n: Node)
    requires Sound(g, v, owner, -1) && i < |v.inodes| && k < |Blocks(v, i)| && |bytes| == BSIZE
    requires !v.inodes[i].kind.Unused?
    requires var v' := WithRaw(v, Blocks(v, i)[k], bytes);
      RawOk(v'.raw) && NodeReady(v', i) && NodeAt(v', i) == n
    ensures Sound(g, WithRaw(v, Blocks(v, i)[k], bytes), owner, -1)
    ensures TreeOf(WithRaw(v, Blocks(v, i)[k], bytes), -1) == TreeOf(v, -1)[i := n]
  {
    hide Counters, Owned, INodesOk, BlockList, NodeReady, NodeAt, RawOk, AddrOk;
    LoosenSound(g, v, owner, i);
    WriteSound(g, v, owner, i, k, bytes);
    Tighten(WithRaw(v, Blocks(v, i)[k], bytes), i);
    Loosen(v, i);
  }

  /** The node after one more record in its single block. */
  lemma EntryNode(v: View, i: nat, b: nat, bytes: seq<byte>, e: Entry)
    requires i < |v.inodes| && v.inodes[i].kind.Directory? && v.inodes[i].size == BSIZE
    requires RawOk(v.raw) && Blocks(v, i) == [b] && |bytes| == BSIZE && NodeReady(v, i)
    requires IsChain(Table(bytes), 0) && Entries(Table(bytes), 0) == Entries(Table(DataAt(v.raw, b)), 0) + [e]
    ensures var v' := WithRaw(v, b, bytes);
      RawOk(v'.raw) && NodeReady(v', i) && NodeAt(v', i) == NodeAt(v, i).(entries := NodeAt(v, i).entries + [e])
  {
    hide BlockList, IsChain, Entries, RecAt, Table, Flat;
    var v' := WithRaw(v, b, bytes);
    assert DataAt(v'.raw, b) == bytes;
    assert DirOk(v.raw, v.inodes[i]);
  }

  /** One more entry for a directory of one block. */
  lemma NextEntryStep(g: Geo, v: View, owner: Owner, i: nat, b: nat, bytes: seq<byte>, e: Entry)
    requires Sound(g, v, owner, -1) && i < |v.inodes| && v.inodes[i].kind.Directory?
    requires v.inodes[i].size == BSIZE && Blocks(v, i) == [b] && |bytes| == BSIZE
    requires Ready(v, i) && NodeReady(v, i) && i in TreeOf(v, -1) && TreeOf(v, -1)[i] == NodeAt(v, i)
    requires IsChain(Table(bytes), 0) && Entries(Table(bytes), 0) == Entries(Table(DataAt(v.raw, b)), 0) + [e]
    ensures Sound(g, WithRaw(v, b, bytes), owner, -1)
    ensures TreeOf(WithRaw(v, b, bytes), -1) == AfterEntry(TreeOf(v, -1), i, e)
  {
    hide Counters, Owned, INodesOk, BlockList, IsChain, Entries, RecAt, Table, NodeReady, NodeOf, TreeOf, Sound,
      AddrOk;
    EntryNode(v, i, b, bytes, e);
    RewriteStep(g, v, owner, i, 0, bytes, NodeAt(v, i).(entries := NodeAt(v, i).entries + [e]));
  }

  /** The single block of a directory whose size is one block. */
  lemma SingleBlock(x: INode)
    requires AddrOk(x.addr) && SizeOk(x) && x.size > 0
    ensures x.addr[0].nblks > 0
    ensures x.size == BSIZE ==> x.addr[0].nblks == 1 && BlockList(x.addr) == [x.addr[0].blk]
    ensures x.addr[0].nblks == 1 && x.size == x.addr[0].nblks * BSIZE ==> x.size == BSIZE
  {
    if x.addr[0].nblks == 0 {
      NoBlocks(x.addr);
      assert false;
    }
    if x.size == BSIZE {
      BlockListMono(x.addr, 1);
      BlockListStep(x.addr, 0);
      BlockListStep(x.addr, 1);
      BlockListMono(x.addr, 2);
      BlockListTail(x.addr, 1);
      assert Run(x.addr[0])[0] == x.addr[0].blk;
    }
  }

  /* ----- new nodes ----- */

  lemma ZeroSize()
    ensures AddrOk(ZeroINode().addr) && BlockList(ZeroINode().addr) == []
  {
    NoBlocks(ZeroINode().addr);
  }

  /** A new inode, set up as an empty regular file. */
  lemma NewFileStep(g: Geo, v: View, owner: Owner, n: nat, x: INode)
    requires Sound(g, v, owner, -1) && g.Ok() && n == |v.iused| && n < g.inodeCnt
    requires x == ZeroINode().(kind := Regular, nlink := 1)
    ensures n < |v.inodes| && n !in TreeOf(v, -1) && v.inodes[n] == ZeroINode()
    ensures var v' := WithX(TakeINode(v, n), n, x);
      Sound(g, v', owner, -1) && TreeOf(v', -1) == TreeOf(v, -1)[n := Node(Regular, 1, [], [])]
  {
    hide Counters, Owned, INodesOk, BlockList, AddrOk;
    TakeINodeSound(g, v, owner, n);
    assert !InTree(v, n, -1);
    ZeroSize();
    var v1 := TakeINode(v, n);
    FieldsSound(g, v1, owner, n, x);
    Tighten(WithX(v1, n, x), n);
  }

  /** A new inode, set up as a directory without entries: still in update. */
  lemma NewDirStep(g: Geo, v: View, owner: Owner, n: nat)
    requires Sound(g, v, owner, -1) && g.Ok() && n == |v.iused| && n < g.inodeCnt
    ensures n < |v.inodes| && n !in TreeOf(v, -1) && v.inodes[n] == ZeroINode()
    ensures var v' := WithX(TakeINode(v, n), n, FreshDir(2));
      Sound(g, v', owner, n) && TreeOf(v', n) == TreeOf(v, -1) && n in v'.iused
  {
    hide Counters, Owned, INodesOk, BlockList, AddrOk;
    TakeINodeSound(g, v, owner, n);
    assert !InTree(v, n, -1);
    FieldsSound(g, TakeINode(v, n), owner, n, FreshDir(2));
  }

  /** Every node of the tree is an inode in use. */
  lemma NodesInUse(g: Geo, v: View, owner: Owner, p: nat)
    requires Sound(g, v, owner, -1) && p in TreeOf(v, -1)
    ensures p < |v.iused| && p < |v.inodes|
  {
    assert InTree(v, p, -1) && INodeOk(v, p);
    assert p in Upto(|v.iused|);
  }

  /** Changing the link count of a node. */
  lemma LinkStep(g: Geo, v: View, owner: Owner, p: nat, nlink: nat)
    requires Sound(g, v, owner, -1) && p in TreeOf(v, -1) && p < |v.inodes|
    ensures var v' := WithX(v, p, v.inodes[p].(nlink := nlink));
      Sound(g, v', owner, -1)
      && TreeOf(v', -1) == TreeOf(v, -1)[p := TreeOf(v, -1)[p].(nlink := nlink)]
      && TreeOf(v, -1)[p].nlink == v.inodes[p].nlink
  {
    hide Counters, Owned, BlockList, AddrOk, DirOk, SizeOk;
    var x := v.inodes[p].(nlink := nlink);
    assert InTree(v, p, -1) && INodeOk(v, p) && NodeReady(v, p);
    LoosenSound(g, v, owner, p);
    FieldsSound(g, v, owner, p, x);
    var v' := WithX(v, p, x);
    NodeLink(v.raw, v.inodes[p], nlink);
    Tighten(v', p);
    Loosen(v, p);
  }

  lemma NodeLink(raw: RawBlocks, x: INode, nlink: nat)
    requires RawOk(raw) && SizeOk(x) && (x.kind.Directory? ==> DirOk(raw, x))
    ensures SizeOk(x.(nlink := nlink)) && (x.kind.Directory? ==> DirOk(raw, x.(nlink := nlink)))
    ensures NodeOf(raw, x.(nlink := nlink)) == NodeOf(raw, x).(nlink := nlink)
  {
  }

  /* ----- the empty image ----- */

  /** The view right after the super block and the dynamic block are written. */
  function BlankView(g: Geo): (v: View)
    requires g.Ok()
  {
    View({}, {}, DynBlock(g.disk, g.inodeCnt, TWO64 - 2, g.inodeCnt, g.disk),
         seq(g.InodeCap(), _ => ZeroINode()), map[])
  }

  /** The blank view with the blocks of s allocated. */
  function Taken(g: Geo, s: set<nat>): View
    requires g.Ok() && s <= Upto(g.MetaEnd())
  {
    TakenSize(g, s);
    BlankView(g).(used := s, db := BlankView(g).db.(avail := g.disk - |s|, tfree := g.disk - |s|))
  }

  lemma TakenSize(g: Geo, s: set<nat>)
    requires g.Ok() && s <= Upto(g.MetaEnd())
    ensures |s| <= g.MetaEnd() < g.disk < TWO64
  {
    SubsetSize(s, Upto(g.MetaEnd()));
  }

  lemma TakeOne(g: Geo, s: set<nat>, b: nat)
    requires g.Ok() && s <= Upto(g.MetaEnd()) && b < g.MetaEnd() && b !in s
    ensures s + {b} <= Upto(g.MetaEnd()) && TakeBlock(Taken(g, s), b) == Taken(g, s + {b})
  {
    assert |s + {b}| == |s| + 1;
    TakenSize(g, s + {b});
  }

  /** All metadata blocks and the two reserved inodes taken: the empty image. */
  lemma EmptyImage(g: Geo)
    requires g.Ok()
    ensures var v := TakeINode(TakeINode(Taken(g, Upto(g.MetaEnd())), 0), 1);
      Sound(g, v, map[], -1) && TreeOf(v, -1) == map[] && |v.iused| == 2
  {
    TakenSize(g, Upto(g.MetaEnd()));
    var v := TakeINode(TakeINode(Taken(g, Upto(g.MetaEnd())), 0), 1);
    EmptyCounters(g);
    ZeroSize();
    assert INodesOk(g, v) && Owned(g, v, map[]) by {
      forall i: nat | i < |v.inodes|
        ensures INodeOk(v, i) && Blocks(v, i) == []
      {
      }
    }
    forall i: nat | i < |v.inodes|
      ensures NodeReady(v, i) && !InTree(v, i, -1)
    {
    }
  }

  lemma EmptyCounters(g: Geo)
    requires g.Ok()
    ensures Counters(g, TakeINode(TakeINode(Taken(g, Upto(g.MetaEnd())), 0), 1))
  {
    TakenSize(g, Upto(g.MetaEnd()));
    var v := TakeINode(TakeINode(Taken(g, Upto(g.MetaEnd())), 0), 1);
    assert v.iused == {0, 1};
    assert |v.iused| == 2;
    assert v.iused == Upto(2);
    assert Upto(g.MetaEnd()) <= Upto(g.disk);
  }

  lemma RoomForTwo(g: Geo, v: View)
    requires g.Ok() && Counters(g, v) && |v.used| <= g.MetaEnd() + 1 && |v.iused| <= 3
    ensures v.db.ifree > 0 && !NoBlock(g, v)
  {
  }
}
