/** The block store of the UNICOS file system image: where the super block,
    the allocation maps, the inodes and the data live in one sparse map of
    blocks, and what the primitive updates do to the decoded view of it. */
module MkfsStore {
  import opened Bits
  import opened MkfsDir

  const MAP_BITS: nat := 32768     // bits in one map block
  const NC1NSUPER: nat := 10
  const SUPERB: nat := 1
  const INODES_PER_BLOCK: nat := 16
  const MAX_EXTENTS: nat := 8

  datatype Extent = Extent(blk: nat, nblks: nat)

  datatype Kind = Unused | Directory | Regular

  datatype INode = INode(kind: Kind, nlink: nat, size: nat, blocks: nat, addr: seq<Extent>)

  function ZeroINode(): INode {
    INode(Unused, 0, 0, 0, seq(MAX_EXTENTS, _ => Extent(0, 0)))
  }

  datatype SuperBlock = SuperBlock(isize: nat, dboff: nat, root: nat, mapoff: nat, mapblks: nat, ireg: Extent)

  /** Free counters: db_tfree, db_ifree, db_ninode, fd_ireg[0], bmp_avail. */
  datatype DynBlock = DynBlock(tfree: Word, ifree: Word, ninode: Word, iregFree: Word, avail: Word)

  datatype Block =
    | Super(sb: SuperBlock)
    | Dynamic(db: DynBlock)
    | Bitmap(bits: seq<bool>)
    | INodes(inodes: seq<INode>)
    | Raw(bytes: seq<byte>)

  type Store = map<nat, Block>

  function ZeroBits(): (s: seq<bool>)
    ensures |s| == MAP_BITS && forall i :: 0 <= i < MAP_BITS ==> !s[i]
  {
    seq(MAP_BITS, _ => false)
  }

  function ZeroBytes(): (s: seq<byte>)
    ensures |s| == BSIZE
  {
    seq(BSIZE, _ => 0)
  }

  function ZeroINodes(): (s: seq<INode>)
    ensures |s| == INODES_PER_BLOCK && forall i :: 0 <= i < |s| ==> s[i] == ZeroINode()
  {
    seq(INODES_PER_BLOCK, _ => ZeroINode())
  }

  /* ----- geometry ----- */

  /** Where everything is, as CreateSuperBlock lays it out. */
  datatype Geo = Geo(disk: nat, mapBlocks: nat, inodeCnt: nat, inoBlocks: nat) {
    function MapStart(): nat { SUPERB + NC1NSUPER }
    function Dyn(): nat { MapStart() + mapBlocks }
    function InoStart(): nat { Dyn() + 1 }
    function Sfs(): nat { InoStart() + inoBlocks }
    function MetaEnd(): nat { Sfs() + 1 }
    function InodeCap(): nat { INODES_PER_BLOCK * if inoBlocks == 0 then 0 else inoBlocks - 1 }
    function BitCnt(): nat { mapBlocks * MAP_BITS }

    /** Blocks at the end of the disk that the block map does not cover. */
    function Lost(): nat { if BitCnt() < disk then disk - BitCnt() else 0 }

    predicate Ok() {
      && 1 <= mapBlocks && 1 <= inoBlocks
      && 4 <= inodeCnt <= MAP_BITS && inodeCnt <= InodeCap()
      && MetaEnd() + 2 <= disk < 0x1_0000_0000
      && MetaEnd() + 2 <= BitCnt()
    }
  }

  function Geometry(disk: nat, ratio: nat): Geo
    requires ratio > 0
  {
    var mapSize := disk / 64;
    var inodeCnt := if disk / ratio <= MAP_BITS then disk / ratio else MAP_BITS;
    Geo(disk, (mapSize + 511) / 512, inodeCnt, 1 + (inodeCnt * 32 + 511) / 512)
  }

  lemma GeometryOk(disk: nat, ratio: nat)
    requires 256 <= disk < 0x1_0000_0000 && ratio > 0 && 4 <= disk / ratio
    ensures Geometry(disk, ratio).Ok() && Geometry(disk, ratio).disk == disk
  {
    var n := disk / ratio;
    assert n <= disk by {
      MulMono(1, ratio, n);
      assert n * ratio <= disk;
    }
  }

  /** The map has whole words only: it misses the end of the disk exactly when
      fewer than 64 blocks are left behind the last full map block. */
  lemma MapCovers(disk: nat, ratio: nat)
    requires ratio > 0
    ensures Geometry(disk, ratio).Lost() == if disk % MAP_BITS < 64 then disk % MAP_BITS else 0
  {
    MapBlocks(disk);
    var g := Geometry(disk, ratio);
    assert g.disk == disk && g.BitCnt() == disk / MAP_BITS * MAP_BITS + if disk % MAP_BITS < 64 then 0 else MAP_BITS;
  }

  lemma MapBlocks(disk: nat)
    ensures (disk / 64 + 511) / 512 == disk / MAP_BITS + if disk % MAP_BITS < 64 then 0 else 1
  {
    var q, r := disk / MAP_BITS, disk % MAP_BITS;
    DivUnique(disk, 64, q * 512 + r / 64, r % 64);
    var words := r / 64;
    assert words < 512 && (words == 0 <==> r < 64);
    DivUnique(disk / 64 + 511, 512, if words == 0 then q else q + 1, if words == 0 then 511 else words - 1);
  }

  /** There are such disks: the last 32 of 32800 blocks are never handed out. */
  lemma UncoveredDisk()
    ensures Geometry(32800, 4).Ok() && Geometry(32800, 4).Lost() == 32
  {
    GeometryOk(32800, 4);
  }

  function SbOf(g: Geo): SuperBlock {
    SuperBlock(g.inodeCnt, g.Dyn(), 2, g.MapStart(), g.mapBlocks, Extent(g.InoStart(), g.inoBlocks))
  }

  /* ----- typing of the store ----- */

  predicate TypeOk(g: Geo, k: nat, b: Block) {
    if k == SUPERB then b == Super(SbOf(g))
    else if g.MapStart() <= k < g.Dyn() then b.Bitmap? && |b.bits| == MAP_BITS
    else if k == g.Dyn() then b.Dynamic?
    else if k == g.InoStart() then b.Bitmap? && |b.bits| == MAP_BITS
    else if g.InoStart() < k < g.Sfs() then b.INodes? && |b.inodes| == INODES_PER_BLOCK
    else if k == 0 || k >= g.Sfs() then b.Raw? && |b.bytes| == BSIZE
    else b.Super?
  }

  predicate Layout(g: Geo, st: Store) {
    && g.Ok()
    && SUPERB in st && g.Dyn() in st
    && forall k :: k in st ==> TypeOk(g, k, st[k])
  }

  /* ----- bit order of the maps ----- */

  /** GetMapBit: the position inside its 64-bit word of the map bit b. */
  function BitPos(b: nat): (p: nat)
    requires b < 64
    ensures p < 64
  {
    (7 - b % 8) + b / 8 * 8
  }

  /** Position in a map block of the bit for the i-th unit. */
  function RawPos(i: nat): (p: nat)
    requires i < MAP_BITS
    ensures p < MAP_BITS
  {
    i / 64 * 64 + BitPos(i % 64)
  }

  lemma RawPosInjective(i: nat, j: nat)
    requires i < MAP_BITS && j < MAP_BITS && RawPos(i) == RawPos(j)
    ensures i == j
  {
    assert i / 64 == j / 64;
    assert BitPos(i % 64) == BitPos(j % 64);
    assert i % 64 / 8 == j % 64 / 8;
  }

  function BitsAt(st: Store, k: nat): (s: seq<bool>)
    requires k in st ==> st[k].Bitmap? && |st[k].bits| == MAP_BITS
    ensures |s| == MAP_BITS
  {
    if k in st then st[k].bits else ZeroBits()
  }

  /** Bit i of the map that starts at block `start`. */
  predicate MapBit(st: Store, start: nat, i: nat)
    requires var k := start + i / MAP_BITS; k in st ==> st[k].Bitmap? && |st[k].bits| == MAP_BITS
  {
    BitsAt(st, start + i / MAP_BITS)[RawPos(i % MAP_BITS)]
  }

  predicate TypedMap(st: Store, start: nat, cnt: nat) {
    forall k :: start <= k < start + cnt && k in st ==> st[k].Bitmap? && |st[k].bits| == MAP_BITS
  }

  /** The first n units of a map of cnt blocks are all taken. */
  predicate AllSet(st: Store, start: nat, cnt: nat, n: nat)
    requires TypedMap(st, start, cnt) && n <= cnt * MAP_BITS
  {
    forall j: nat :: j < n ==> MapBit(st, start, j)
  }

  /* ----- the decoded view ----- */

  datatype View = View(
    used: set<nat>,                  // set bits of FREEMAP
    iused: set<nat>,                 // set bits of the inode map
    db: DynBlock,
    inodes: seq<INode>,
    raw: map<nat, seq<byte>>)        // data blocks written so far

  function Used(g: Geo, st: Store): set<nat>
    requires Layout(g, st)
  {
    set b: nat | 0 <= b < g.BitCnt() && MapBit(st, g.MapStart(), b)
  }

  function IUsed(g: Geo, st: Store): set<nat>
    requires Layout(g, st)
  {
    set i: nat | 0 <= i < MAP_BITS && MapBit(st, g.InoStart(), i)
  }

  /** What a scan of the maps that stopped at n has seen. */
  lemma TakenBelow(g: Geo, st: Store, n: nat)
    requires Layout(g, st) && n <= g.BitCnt() && AllSet(st, g.MapStart(), g.mapBlocks, n)
    ensures forall j :: 0 <= j < n ==> j in Used(g, st)
    ensures n < g.BitCnt() ==> (n in Used(g, st) <==> MapBit(st, g.MapStart(), n))
  {
    forall j: nat | j < n
      ensures j in Used(g, st)
    {
      assert MapBit(st, g.MapStart(), j);
    }
  }

  lemma ITakenBelow(g: Geo, st: Store, n: nat)
    requires Layout(g, st) && n <= MAP_BITS && AllSet(st, g.InoStart(), 1, n)
    ensures forall j :: 0 <= j < n ==> j in IUsed(g, st)
    ensures n < MAP_BITS ==> (n in IUsed(g, st) <==> MapBit(st, g.InoStart(), n))
  {
    forall j: nat | j < n
      ensures j in IUsed(g, st)
    {
      assert MapBit(st, g.InoStart(), j);
    }
  }

  function INodeAt(g: Geo, st: Store, i: nat): INode
    requires Layout(g, st) && i < g.InodeCap()
  {
    var k := g.InoStart() + 1 + i / INODES_PER_BLOCK;
    if k in st then st[k].inodes[i % INODES_PER_BLOCK] else ZeroINode()
  }

  function INodesOf(g: Geo, st: Store): (s: seq<INode>)
    requires Layout(g, st)
    ensures |s| == g.InodeCap() && forall i :: 0 <= i < |s| ==> s[i] == INodeAt(g, st, i)
  {
    seq(g.InodeCap(), i requires 0 <= i < g.InodeCap() => INodeAt(g, st, i))
  }

  function RawOf(g: Geo, st: Store): map<nat, seq<byte>>
    requires Layout(g, st)
  {
    map k | k in st && k >= g.MetaEnd() :: st[k].bytes
  }

  function ViewOf(g: Geo, st: Store): View
    requires Layout(g, st)
  {
    View(Used(g, st), IUsed(g, st), st[g.Dyn()].db, INodesOf(g, st), RawOf(g, st))
  }

  /* ----- what each kind of block update does to the view ----- */

  function WithBit(st: Store, start: nat, i: nat): Store
    requires var k := start + i / MAP_BITS; k in st ==> st[k].Bitmap? && |st[k].bits| == MAP_BITS
  {
    var k := start + i / MAP_BITS;
    st[k := Bitmap(BitsAt(st, k)[RawPos(i % MAP_BITS) := true])]
  }

  lemma WithBitBits(st: Store, start: nat, i: nat, j: nat)
    requires forall k :: start <= k <= start + i / MAP_BITS || start <= k <= start + j / MAP_BITS ==>
                           k in st ==> st[k].Bitmap? && |st[k].bits| == MAP_BITS
    ensures MapBit(WithBit(st, start, i), start, j) <==> MapBit(st, start, j) || j == i
  {
    if j / MAP_BITS == i / MAP_BITS && j != i {
      if RawPos(i % MAP_BITS) == RawPos(j % MAP_BITS) {
        RawPosInjective(i % MAP_BITS, j % MAP_BITS);
      }
    }
  }

  /** A change confined to blocks outside a region keeps what is decoded there. */
  lemma FreeMapSet(g: Geo, st: Store, b: nat)
    requires Layout(g, st) && b < g.BitCnt()
    ensures var st' := WithBit(st, g.MapStart(), b);
      Layout(g, st') && ViewOf(g, st') == ViewOf(g, st).(used := Used(g, st) + {b})
  {
    var k := g.MapStart() + b / MAP_BITS;
    assert k < g.Dyn();
    var st' := WithBit(st, g.MapStart(), b);
    assert Layout(g, st');
    forall j: nat | j < g.BitCnt()
      ensures MapBit(st', g.MapStart(), j) <==> MapBit(st, g.MapStart(), j) || j == b
    {
      WithBitBits(st, g.MapStart(), b, j);
    }
    assert Used(g, st') == Used(g, st) + {b};
    assert IUsed(g, st') == IUsed(g, st);
    assert INodesOf(g, st') == INodesOf(g, st);
    assert RawOf(g, st') == RawOf(g, st);
  }

  lemma INodeMapSet(g: Geo, st: Store, i: nat)
    requires Layout(g, st) && i < MAP_BITS
    ensures var st' := WithBit(st, g.InoStart(), i);
      Layout(g, st') && ViewOf(g, st') == ViewOf(g, st).(iused := IUsed(g, st) + {i})
  {
    var st' := WithBit(st, g.InoStart(), i);
    assert Layout(g, st');
    forall j: nat | j < MAP_BITS
      ensures MapBit(st', g.InoStart(), j) <==> MapBit(st, g.InoStart(), j) || j == i
    {
      WithBitBits(st, g.InoStart(), i, j);
    }
    assert IUsed(g, st') == IUsed(g, st) + {i};
    assert Used(g, st') == Used(g, st);
    assert INodesOf(g, st') == INodesOf(g, st);
    assert RawOf(g, st') == RawOf(g, st);
  }

  lemma DynamicSet(g: Geo, st: Store, db: DynBlock)
    requires Layout(g, st)
    ensures var st' := st[g.Dyn() := Dynamic(db)];
      Layout(g, st') && ViewOf(g, st') == ViewOf(g, st).(db := db)
  {
    var st' := st[g.Dyn() := Dynamic(db)];
    assert Layout(g, st');
    assert Used(g, st') == Used(g, st);
    assert IUsed(g, st') == IUsed(g, st);
    assert INodesOf(g, st') == INodesOf(g, st);
    assert RawOf(g, st') == RawOf(g, st);
  }

  function WithINode(g: Geo, st: Store, i: nat, x: INode): Store
    requires Layout(g, st) && i < g.InodeCap()
  {
    var k := g.InoStart() + 1 + i / INODES_PER_BLOCK;
    var inodes := if k in st then st[k].inodes else ZeroINodes();
    st[k := INodes(inodes[i % INODES_PER_BLOCK := x])]
  }

  lemma INodeSet(g: Geo, st: Store, i: nat, x: INode)
    requires Layout(g, st) && i < g.InodeCap()
    ensures var st' := WithINode(g, st, i, x);
      Layout(g, st') && ViewOf(g, st') == ViewOf(g, st).(inodes := INodesOf(g, st)[i := x])
  {
    var st' := WithINode(g, st, i, x);
    assert Layout(g, st');
    assert Used(g, st') == Used(g, st);
    assert IUsed(g, st') == IUsed(g, st);
    assert RawOf(g, st') == RawOf(g, st);
    forall j | 0 <= j < g.InodeCap()
      ensures INodeAt(g, st', j) == if j == i then x else INodeAt(g, st, j)
    {
      if j / INODES_PER_BLOCK == i / INODES_PER_BLOCK && j % INODES_PER_BLOCK == i % INODES_PER_BLOCK {
        assert j == i;
      }
    }
    assert INodesOf(g, st') == INodesOf(g, st)[i := x];
  }

  lemma RawSet(g: Geo, st: Store, k: nat, bytes: seq<byte>)
    requires Layout(g, st) && k >= g.MetaEnd() && |bytes| == BSIZE
    ensures var st' := st[k := Raw(bytes)];
      Layout(g, st') && ViewOf(g, st') == ViewOf(g, st).(raw := RawOf(g, st)[k := bytes])
  {
    var st' := st[k := Raw(bytes)];
    assert Layout(g, st');
    assert Used(g, st') == Used(g, st);
    assert IUsed(g, st') == IUsed(g, st);
    assert INodesOf(g, st') == INodesOf(g, st);
    assert RawOf(g, st') == RawOf(g, st)[k := bytes];
  }

  /** The store with just the super block, the dynamic block and the SFS block. */
  function BlankStore(g: Geo): Store
    requires g.Ok()
  {
    map[SUPERB := Super(SbOf(g)),
        g.Dyn() := Dynamic(DynBlock(g.disk, g.inodeCnt, TWO64 - 2, g.inodeCnt, g.disk)),
        g.Sfs() := Raw(ZeroBytes())]
  }

  lemma BlankLayout(g: Geo)
    requires g.Ok()
    ensures Layout(g, BlankStore(g))
  {
    assert BlankStore(g).Keys == {SUPERB, g.Dyn(), g.Sfs()};
  }

  lemma BlankMaps(g: Geo)
    requires g.Ok() && Layout(g, BlankStore(g))
    ensures Used(g, BlankStore(g)) == {} && IUsed(g, BlankStore(g)) == {}
  {
    hide Layout;
    var st := BlankStore(g);
    assert st.Keys == {SUPERB, g.Dyn(), g.Sfs()};
    assert forall b: nat :: b < g.BitCnt() ==> !MapBit(st, g.MapStart(), b);
    assert forall i: nat :: i < MAP_BITS ==> !MapBit(st, g.InoStart(), i);
  }

  lemma BlankIsBlank(g: Geo)
    requires g.Ok()
    ensures Layout(g, BlankStore(g))
    ensures var v := ViewOf(g, BlankStore(g));
      && v.used == {} && v.iused == {} && v.raw == map[]
      && v.db == DynBlock(g.disk, g.inodeCnt, TWO64 - 2, g.inodeCnt, g.disk)
      && v.inodes == seq(g.InodeCap(), _ => ZeroINode())
  {
    hide Layout, Used, IUsed;
    BlankLayout(g);
    BlankMaps(g);
    var st := BlankStore(g);
    assert st.Keys == {SUPERB, g.Dyn(), g.Sfs()};
    assert INodesOf(g, st) == seq(g.InodeCap(), _ => ZeroINode());
  }
}
