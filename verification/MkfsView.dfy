/** The meaning of an image: which blocks a file owns, what it contains, and
    the invariant that ties maps, counters, extents and directories. */
module MkfsView {
  import opened Bits
  import opened MkfsDir
  import opened MkfsStore

  /* ----- extents ----- */

  function Run(e: Extent): (s: seq<nat>)
    ensures |s| == e.nblks
  {
    seq(e.nblks, i requires 0 <= i => e.blk + i)
  }

  /** The block numbers of a file, in file order. */
  function BlockList(addr: seq<Extent>): seq<nat> {
    if addr == [] then [] else BlockList(addr[..|addr| - 1]) + Run(addr[|addr| - 1])
  }

  /** Eight extents, the unused ones zero and at the end. */
  predicate AddrOk(addr: seq<Extent>) {
    && |addr| == MAX_EXTENTS
    && (forall i, j :: 0 <= i < j < |addr| && addr[j].nblks > 0 ==> addr[i].nblks > 0)
    && (forall j :: 0 <= j < |addr| && addr[j].nblks == 0 ==> addr[j].blk == 0)
  }

  lemma {:induction false} BlockListTail(addr: seq<Extent>, n: nat)
    requires n <= |addr| && forall j :: n <= j < |addr| ==> addr[j].nblks == 0
    ensures BlockList(addr) == BlockList(addr[..n])
  {
    if n == |addr| {
      assert addr[..n] == addr;
    } else {
      var front := addr[..|addr| - 1];
      BlockListTail(front, n);
      assert front[..n] == addr[..n];
    }
  }

  lemma BlockListStep(addr: seq<Extent>, n: nat)
    requires n < |addr|
    ensures BlockList(addr[..n + 1]) == BlockList(addr[..n]) + Run(addr[n])
  {
    assert addr[..n + 1][..n] == addr[..n];
  }

  /** Extending the last live extent, or starting the next one, adds one block
      at the end of the file. */
  lemma BlockListGrow(addr: seq<Extent>, idx: nat, e: Extent, b: nat)
    requires idx < |addr| && forall j :: idx < j < |addr| ==> addr[j].nblks == 0
    requires Run(e) == Run(addr[idx]) + [b]
    ensures BlockList(addr[idx := e]) == BlockList(addr) + [b]
  {
    BlockListTail(addr, idx + 1);
    BlockListTail(addr[idx := e], idx + 1);
    BlockListStep(addr, idx);
    BlockListStep(addr[idx := e], idx);
    assert addr[idx := e][..idx] == addr[..idx];
  }

  lemma {:induction false} BlockListMono(addr: seq<Extent>, n: nat)
    requires n <= |addr|
    ensures |BlockList(addr[..n])| <= |BlockList(addr)|
    ensures n < |addr| && addr[n].nblks > 0 ==> |BlockList(addr[..n])| < |BlockList(addr)|
  {
    if n == |addr| {
      assert addr[..n] == addr;
    } else {
      var front := addr[..|addr| - 1];
      assert front[..n] == addr[..n];
      BlockListMono(front, n);
    }
  }

  lemma NoBlocks(addr: seq<Extent>)
    requires forall j :: 0 <= j < |addr| ==> addr[j].nblks == 0
    ensures BlockList(addr) == []
  {
    BlockListTail(addr, 0);
  }

  /* ----- contents ----- */

  type RawBlocks = map<nat, seq<byte>>

  predicate RawOk(raw: RawBlocks) {
    forall k :: k in raw ==> |raw[k]| == BSIZE
  }

  function DataAt(raw: RawBlocks, b: nat): (s: seq<byte>)
    requires RawOk(raw)
    ensures |s| == BSIZE
  {
    if b in raw then raw[b] else ZeroBytes()
  }

  function Flat(raw: RawBlocks, bl: seq<nat>): (s: seq<byte>)
    requires RawOk(raw)
    ensures |s| == BSIZE * |bl|
  {
    if bl == [] then [] else Flat(raw, bl[..|bl| - 1]) + DataAt(raw, bl[|bl| - 1])
  }

  lemma {:induction false} FlatFrame(raw: RawBlocks, raw': RawBlocks, bl: seq<nat>)
    requires RawOk(raw) && RawOk(raw')
    requires forall k :: 0 <= k < |bl| ==> DataAt(raw, bl[k]) == DataAt(raw', bl[k])
    ensures Flat(raw, bl) == Flat(raw', bl)
  {
    if bl != [] {
      FlatFrame(raw, raw', bl[..|bl| - 1]);
    }
  }

  lemma {:induction false} FlatHead(raw: RawBlocks, bl: seq<nat>)
    requires RawOk(raw) && |bl| > 0
    ensures Flat(raw, bl)[..BSIZE] == DataAt(raw, bl[0])
  {
    if |bl| == 1 {
      assert Flat(raw, bl[..0]) == [];
      assert Flat(raw, bl) == DataAt(raw, bl[0]);
    } else {
      var front := bl[..|bl| - 1];
      FlatHead(raw, front);
      assert BSIZE <= BSIZE * |front|;
      assert Flat(raw, bl)[..BSIZE] == Flat(raw, front)[..BSIZE];
    }
  }

  function BlocksFor(size: nat): nat {
    (size + BSIZE - 1) / BSIZE
  }

  predicate SizeOk(x: INode) {
    x.blocks == |BlockList(x.addr)| == BlocksFor(x.size)
  }

  lemma BlocksCover(size: nat)
    ensures size <= BSIZE * BlocksFor(size)
    ensures BlocksFor(size) > 0 ==> BSIZE * (BlocksFor(size) - 1) < size
  {
  }

  function Content(raw: RawBlocks, x: INode): (s: seq<byte>)
    requires RawOk(raw) && SizeOk(x)
    ensures |s| == x.size
  {
    BlocksCover(x.size);
    Flat(raw, BlockList(x.addr))[..x.size]
  }

  /* ----- the invariant ----- */

  function Upto(n: nat): (s: set<nat>)
    ensures |s| == n
    ensures forall b :: b in s <==> 0 <= b < n
  {
    if n == 0 then {} else Upto(n - 1) + {n - 1}
  }

  predicate BlockCounters(g: Geo, used: set<nat>, db: DynBlock) {
    && used == Upto(|used|) && g.MetaEnd() <= |used| <= g.disk
    && db.avail == db.tfree == g.disk - |used|
  }

  predicate INodeCounters(g: Geo, iused: set<nat>, db: DynBlock) {
    && iused == Upto(|iused|) && 2 <= |iused| <= g.inodeCnt
    && db.ifree == db.iregFree == g.inodeCnt - |iused|
    && db.ninode == (|iused| + TWO64 - 2) % TWO64
  }

  predicate Counters(g: Geo, v: View) {
    BlockCounters(g, v.used, v.db) && INodeCounters(g, v.iused, v.db)
  }

  /** For each data block in use, the inode that owns it and its place there. */
  type Owner = map<nat, (nat, nat)>

  function Blocks(v: View, i: nat): seq<nat>
    requires i < |v.inodes|
  {
    BlockList(v.inodes[i].addr)
  }

  /** Every block of a file is in use and has it as its owner, and every block in
      use behind the metadata is a block of its owner: none is leaked. */
  predicate Owned(g: Geo, v: View, owner: Owner) {
    && (forall i, k :: 0 <= i < |v.inodes| && 0 <= k < |Blocks(v, i)| ==>
          var b := Blocks(v, i)[k];
          b in v.used && b >= g.MetaEnd() && b in owner && owner[b] == (i, k))
    && (forall b :: b in v.used && b >= g.MetaEnd() ==> OwnedBy(v, owner, b))
  }

  predicate OwnedBy(v: View, owner: Owner, b: nat) {
    && b in owner && owner[b].0 < |v.inodes|
    && owner[b].1 < |Blocks(v, owner[b].0)| && Blocks(v, owner[b].0)[owner[b].1] == b
  }

  function DirTable(raw: RawBlocks, x: INode): nat -> Rec
    requires RawOk(raw) && |BlockList(x.addr)| > 0
  {
    Table(DataAt(raw, BlockList(x.addr)[0]))
  }

  predicate DirOk(raw: RawBlocks, x: INode)
    requires RawOk(raw)
  {
    |BlockList(x.addr)| > 0 && BSIZE <= x.size && IsChain(DirTable(raw, x), 0)
  }

  predicate INodeOk(v: View, i: nat)
    requires i < |v.inodes|
  {
    AddrOk(v.inodes[i].addr) && (i !in v.iused ==> v.inodes[i] == ZeroINode())
  }

  /** The inode has a meaning: its size fits its blocks, its directory block
      is a chain. */
  predicate NodeReady(v: View, i: nat)
    requires i < |v.inodes| && RawOk(v.raw)
  {
    var x := v.inodes[i];
    SizeOk(x) && (x.kind.Directory? ==> DirOk(v.raw, x))
  }

  predicate Ready(v: View, loose: int) {
    RawOk(v.raw) && forall i :: 0 <= i < |v.inodes| && i != loose ==> NodeReady(v, i)
  }

  predicate INodesOk(g: Geo, v: View) {
    |v.inodes| == g.InodeCap() && forall i :: 0 <= i < |v.inodes| ==> INodeOk(v, i)
  }

  /** The image invariant; `loose` is an inode in the middle of an update. */
  predicate Sound(g: Geo, v: View, owner: Owner, loose: int) {
    Counters(g, v) && INodesOk(g, v) && Owned(g, v, owner) && Ready(v, loose)
  }

  /** No two places of any two files share a block. */
  lemma ExtentsDisjoint(g: Geo, v: View, owner: Owner, i: nat, k: nat, j: nat, l: nat)
    requires Owned(g, v, owner)
    requires i < |v.inodes| && j < |v.inodes| && k < |Blocks(v, i)| && l < |Blocks(v, j)|
    requires (i, k) != (j, l)
    ensures Blocks(v, i)[k] != Blocks(v, j)[l]
  {
    assert owner[Blocks(v, i)[k]] == (i, k);
    assert owner[Blocks(v, j)[l]] == (j, l);
  }

  /* ----- first fit ----- */

  /** The lowest clear bit of a map is at most the number of set bits. */
  lemma FirstFit(used: set<nat>, r: nat)
    requires forall j :: 0 <= j < r ==> j in used
    ensures r <= |used|
  {
    assert Upto(r) <= used;
    SubsetSize(Upto(r), used);
  }

  lemma {:induction false} SubsetSize<T>(a: set<T>, b: set<T>)
    requires a <= b
    ensures |a| <= |b|
    ensures |a| == |b| ==> a == b
    decreases a
  {
    if x :| x in a {
      SubsetSize(a - {x}, b - {x});
      assert |a - {x}| == |a| - 1 && |b - {x}| == |b| - 1;
      if |a| == |b| {
        assert a == (a - {x}) + {x} == b;
      }
    }
  }

  /* ----- what an image means ----- */

  datatype Node = Node(kind: Kind, nlink: nat, entries: seq<Entry>, content: seq<byte>)

  type Tree = map<nat, Node>

  /** Content of a directory: the bytes behind its first block, if any. */
  function NodeOf(raw: RawBlocks, x: INode): Node
    requires RawOk(raw) && SizeOk(x) && (x.kind.Directory? ==> DirOk(raw, x))
  {
    if x.kind.Directory? then
      Node(x.kind, x.nlink, Entries(DirTable(raw, x), 0), Content(raw, x)[BSIZE..])
    else Node(x.kind, x.nlink, [], Content(raw, x))
  }

  function NodeAt(v: View, i: nat): Node
    requires i < |v.inodes| && RawOk(v.raw) && NodeReady(v, i)
  {
    NodeOf(v.raw, v.inodes[i])
  }

  predicate InTree(v: View, i: nat, loose: int) {
    i < |v.inodes| && i != loose && !v.inodes[i].kind.Unused?
  }

  /** The tree an image stands for, an inode in mid-update left out. */
  function TreeOf(v: View, loose: int): Tree
    requires Ready(v, loose)
  {
    map i: nat | 0 <= i < |v.inodes| && InTree(v, i, loose) :: NodeAt(v, i)
  }

  /** Node by node comparison of two trees. */
  lemma SameTree(v: View, v': View, loose: int)
    requires Ready(v, loose) && Ready(v', loose) && |v'.inodes| == |v.inodes|
    requires forall j: nat :: j < |v.inodes| && j != loose ==>
               v'.inodes[j] == v.inodes[j] && NodeAt(v', j) == NodeAt(v, j)
    ensures TreeOf(v', loose) == TreeOf(v, loose)
  {
    forall j: nat
      ensures InTree(v, j, loose) <==> InTree(v', j, loose)
      ensures InTree(v, j, loose) ==> NodeAt(v', j) == NodeAt(v, j)
    {
    }
  }

  /** A file none of whose blocks changed means what it meant. */
  lemma NodeFrame(raw: RawBlocks, raw': RawBlocks, x: INode)
    requires RawOk(raw) && RawOk(raw') && SizeOk(x) && (x.kind.Directory? ==> DirOk(raw, x))
    requires forall k :: 0 <= k < |BlockList(x.addr)| ==>
               DataAt(raw, BlockList(x.addr)[k]) == DataAt(raw', BlockList(x.addr)[k])
    ensures x.kind.Directory? ==> DirOk(raw', x)
    ensures NodeOf(raw', x) == NodeOf(raw, x)
  {
    FlatFrame(raw, raw', BlockList(x.addr));
    if x.kind.Directory? {
      assert DataAt(raw, BlockList(x.addr)[0]) == DataAt(raw', BlockList(x.addr)[0]);
    }
  }
}
