/** What is on the disk, byte by byte: the maps, the directory records, and the
    regions of the smallest file system. */
module MkfsBytes {
  import opened Bits
  import opened Words
  import opened MkfsDir
  import opened MkfsStore
  import opened MkfsView
  import opened MkfsTree
  import opened Mkfs

  /* ----- the maps ----- */

  function Bit(b: bool, weight: nat): nat {
    if b then weight else 0
  }

  /** Byte k of a map block: position 8k + j has weight 2^j. */
  function MapByte(bits: seq<bool>, k: nat): (b: nat)
    requires 8 * k + 8 <= |bits|
    ensures b < 256
  {
    Bit(bits[8 * k], 1) + Bit(bits[8 * k + 1], 2) + Bit(bits[8 * k + 2], 4) + Bit(bits[8 * k + 3], 8)
    + Bit(bits[8 * k + 4], 16) + Bit(bits[8 * k + 5], 32) + Bit(bits[8 * k + 6], 64) + Bit(bits[8 * k + 7], 128)
  }

  function Weight(j: nat): (w: nat)
    requires j < 8
    ensures w > 0
  {
    if j == 0 then 1 else if j == 1 then 2 else if j == 2 then 4 else if j == 3 then 8
    else if j == 4 then 16 else if j == 5 then 32 else if j == 6 then 64 else 128
  }

  lemma RawPosIs(u: nat)
    requires u < MAP_BITS
    ensures RawPos(u) == 8 * (u / 8) + (7 - u % 8)
  {
    assert u % 64 % 8 == u % 8 && u / 64 * 8 + u % 64 / 8 == u / 8;
  }

  lemma ByteBit(bits: seq<bool>, k: nat, j: nat)
    requires 8 * k + 8 <= |bits| && j < 8
    ensures MapByte(bits, k) / Weight(j) % 2 == 1 <==> bits[8 * k + j]
  {
    hide Nibble, MapByte, Weight;
    TwoNibbles(bits, k);
    InByte(Nibble(bits, 8 * k), Nibble(bits, 8 * k + 4), j);
    if j < 4 {
      NibbleBit(bits, 8 * k, j);
    } else {
      NibbleBit(bits, 8 * k + 4, j - 4);
    }
  }

  lemma TwoNibbles(bits: seq<bool>, k: nat)
    requires 8 * k + 8 <= |bits|
    ensures MapByte(bits, k) == Nibble(bits, 8 * k) + 16 * Nibble(bits, 8 * k + 4)
  {
  }

  function Nibble(bits: seq<bool>, p: nat): (n: nat)
    requires p + 4 <= |bits|
    ensures n < 16
  {
    Bit(bits[p], 1) + Bit(bits[p + 1], 2) + Bit(bits[p + 2], 4) + Bit(bits[p + 3], 8)
  }

  lemma NibbleBit(bits: seq<bool>, p: nat, j: nat)
    requires p + 4 <= |bits| && j < 4
    ensures Nibble(bits, p) / Weight(j) % 2 == 1 <==> bits[p + j]
  {
  }

  lemma InByte(lo: nat, hi: nat, j: nat)
    requires lo < 16 && hi < 16 && j < 8
    ensures (lo + 16 * hi) / Weight(j) % 2 == if j < 4 then lo / Weight(j) % 2 else hi / Weight(j - 4) % 2
  {
    if j < 4 {
      LowNibble(lo, hi, j);
    } else {
      HighNibble(lo, hi, j);
    }
  }

  lemma LowNibble(lo: nat, hi: nat, j: nat)
    requires lo < 16 && j < 4
    ensures (lo + 16 * hi) / Weight(j) % 2 == lo / Weight(j) % 2
  {
    if j == 1 {
      Halves(lo, hi);
    } else if j == 2 {
      Quarters(lo, hi);
    } else if j == 3 {
      Eighths(lo, hi);
    }
  }

  lemma Halves(lo: nat, hi: nat)
    ensures (lo + 16 * hi) / 2 % 2 == lo / 2 % 2
  {
    DivUnique(lo + 16 * hi, 2, 8 * hi + lo / 2, lo % 2);
    EvenMore(4 * hi, lo / 2);
  }

  lemma Quarters(lo: nat, hi: nat)
    ensures (lo + 16 * hi) / 4 % 2 == lo / 4 % 2
  {
    DivUnique(lo + 16 * hi, 4, 4 * hi + lo / 4, lo % 4);
    EvenMore(2 * hi, lo / 4);
  }

  lemma Eighths(lo: nat, hi: nat)
    ensures (lo + 16 * hi) / 8 % 2 == lo / 8 % 2
  {
    DivUnique(lo + 16 * hi, 8, 2 * hi + lo / 8, lo % 8);
    EvenMore(hi, lo / 8);
  }

  lemma EvenMore(h: nat, x: nat)
    ensures (2 * h + x) % 2 == x % 2
  {
    DivUnique(2 * h + x, 2, h + x / 2, x % 2);
  }

  lemma HighNibble(lo: nat, hi: nat, j: nat)
    requires lo < 16 && 4 <= j < 8
    ensures (lo + 16 * hi) / Weight(j) == hi / Weight(j - 4)
  {
    var w := Weight(j - 4);
    assert Weight(j) == 16 * w;
    DivDiv(lo + 16 * hi, 16, w);
  }

  /** Units stand in the map from the most significant bit of the first byte on:
      unit u of a map block is taken exactly when byte u / 8 has the bit of
      weight 2^(7 - u % 8). */
  lemma UnitInByte(bits: seq<bool>, u: nat)
    requires |bits| == MAP_BITS && u < MAP_BITS
    ensures bits[RawPos(u)] <==> MapByte(bits, u / 8) / Weight(7 - u % 8) % 2 == 1
  {
    hide MapByte, Weight, RawPos;
    RawPosIs(u);
    ByteBit(bits, u / 8, 7 - u % 8);
  }

  /** Byte k of a map whose first n units are taken. */
  function FilledByte(n: int, k: nat): nat {
    if n >= 8 * k + 8 then 255 else if n <= 8 * k then 0 else 256 - Weight(8 * k + 8 - n)
  }

  lemma FilledBytes(bits: seq<bool>, n: int, k: nat)
    requires |bits| == MAP_BITS && k < BSIZE
    requires forall u :: 0 <= u < MAP_BITS ==> (bits[RawPos(u)] <==> u < n)
    ensures MapByte(bits, k) == FilledByte(n, k)
  {
    hide RawPos;
    UnitAt(bits, n, k, 0);
    UnitAt(bits, n, k, 1);
    UnitAt(bits, n, k, 2);
    UnitAt(bits, n, k, 3);
    UnitAt(bits, n, k, 4);
    UnitAt(bits, n, k, 5);
    UnitAt(bits, n, k, 6);
    UnitAt(bits, n, k, 7);
  }

  lemma UnitAt(bits: seq<bool>, n: int, k: nat, j: nat)
    requires |bits| == MAP_BITS && k < BSIZE && j < 8
    requires forall u :: 0 <= u < MAP_BITS ==> (bits[RawPos(u)] <==> u < n)
    ensures bits[8 * k + j] <==> 8 * k + 7 - j < n
  {
    hide RawPos;
    var u := 8 * k + 7 - j;
    RawPosIs(u);
  }

  /** The block map of a consistent image: ones for the blocks in use, from the
      most significant bit of the first byte on, and then zeros. */
  lemma BlockMapBytes(img: DiskImage, page: nat, k: nat)
    requires img.Whole() && page < img.g.mapBlocks && k < BSIZE
    ensures TypedMap(img.storage, img.g.MapStart(), img.g.mapBlocks)
    ensures MapByte(BitsAt(img.storage, img.g.MapStart() + page), k)
         == FilledByte(|img.V().used| - page * MAP_BITS, k)
  {
    hide Layout, ViewOf, Used, RawPos, MapByte, FilledByte, BlockCounters;
    var g, st, used := img.g, img.storage, img.V().used;
    assert Layout(g, st) && used == Used(g, st) && used == Upto(|used|) by { UsedFacts(img); }
    UnitOfPage(g, st, page, 0);
    PageBytes(g, st, used, page, k);
  }

  lemma UsedFacts(img: DiskImage)
    requires img.Whole()
    ensures Layout(img.g, img.storage) && img.V().used == Used(img.g, img.storage) == Upto(|img.V().used|)
    ensures img.V().iused == IUsed(img.g, img.storage) == Upto(|img.V().iused|)
  {
    hide Layout, Used, IUsed, INodesOf, RawOf, Ready, INodesOk, Owned, Upto;
  }

  lemma PageBytes(g: Geo, st: Store, used: set<nat>, page: nat, k: nat)
    requires Layout(g, st) && page < g.mapBlocks && k < BSIZE && used == Used(g, st) == Upto(|used|)
    requires TypedMap(st, g.MapStart(), g.mapBlocks)
    ensures MapByte(BitsAt(st, g.MapStart() + page), k) == FilledByte(|used| - page * MAP_BITS, k)
  {
    hide Layout, Used, RawPos, MapByte, FilledByte, Upto;
    var bits, n := BitsAt(st, g.MapStart() + page), |used|;
    forall u | 0 <= u < MAP_BITS
      ensures bits[RawPos(u)] <==> u < n - page * MAP_BITS
    {
      UnitOfPage(g, st, page, u);
      assert page * MAP_BITS + u in used <==> page * MAP_BITS + u in Upto(n);
    }
    FilledBytes(bits, n - page * MAP_BITS, k);
  }

  lemma UnitOfPage(g: Geo, st: Store, page: nat, u: nat)
    requires Layout(g, st) && page < g.mapBlocks && u < MAP_BITS
    ensures TypedMap(st, g.MapStart(), g.mapBlocks)
    ensures BitsAt(st, g.MapStart() + page)[RawPos(u)] <==> page * MAP_BITS + u in Used(g, st)
  {
    hide RawPos, BitsAt;
    var b := page * MAP_BITS + u;
    DivUnique(b, MAP_BITS, page, u);
    assert b < g.BitCnt() by { MulMono(page + 1, g.mapBlocks, MAP_BITS); }
  }

  /** Likewise the map of the inodes. */
  lemma INodeMapBytes(img: DiskImage, k: nat)
    requires img.Whole() && k < BSIZE
    ensures TypedMap(img.storage, img.g.InoStart(), 1)
    ensures MapByte(BitsAt(img.storage, img.g.InoStart()), k) == FilledByte(|img.V().iused|, k)
  {
    hide Layout, ViewOf, IUsed, RawPos, MapByte, FilledByte, INodeCounters;
    var g, st, n := img.g, img.storage, |img.V().iused|;
    assert Layout(g, st) && IUsed(g, st) == Upto(n) by { UsedFacts(img); }
    INodeUnit(g, st, 0);
    var bits := BitsAt(st, g.InoStart());
    forall u | 0 <= u < MAP_BITS
      ensures bits[RawPos(u)] <==> u < n
    {
      INodeUnit(g, st, u);
      assert u in IUsed(g, st) <==> u in Upto(n);
    }
    FilledBytes(bits, n, k);
  }

  lemma INodeUnit(g: Geo, st: Store, u: nat)
    requires Layout(g, st) && u < MAP_BITS
    ensures TypedMap(st, g.InoStart(), 1)
    ensures BitsAt(st, g.InoStart())[RawPos(u)] <==> u in IUsed(g, st)
  {
    hide RawPos, BitsAt;
  }

  /* ----- directory records ----- */

  /** Where the fields of a directory record are: the inode in the first word,
      the lengths in the last four bytes of the third, 22 and 10 bits. */
  lemma RecordFields(b: seq<byte>, p: nat)
    requires Fits(b, p)
    ensures Ino(b, p) == WordAt(b, p)
    ensures RecLen(b, p) == Top(b[p + 20], 0x4000) + Top(b[p + 21], 0x40) + b[p + 22] / 4
    ensures NameLen(b, p) == Top(b[p + 22] % 4, 0x100) + b[p + 23]
  {
    hide WordAt, Pow2;
    WordValue(b, p + 16);
    FieldPlaces();
    LowBytes(WordAt(b, p + 16), b[p + 20], b[p + 21], b[p + 22], b[p + 23],
      Top(b[p + 16], 0x100_0000) + Top(b[p + 17], 0x1_0000) + Top(b[p + 18], 0x100) + b[p + 19]);
  }

  lemma FieldPlaces()
    ensures Pow2(0) == 1 && Pow2(10) == 1024 && Pow2(22) == 0x40_0000
  {
    hide Pow2;
    var h := 11;
    assert Pow2(0) == 1 && Pow2(10) == 1024 && Pow2(11) == 2048 by { SmallPowers(); }
    Pow2Add(h, h);
  }

  lemma SmallPowers()
    ensures Pow2(0) == 1 && Pow2(10) == 1024 && Pow2(11) == 2048
  {
  }

  lemma LowBytes(w: Word, c: byte, d: byte, e: byte, f: byte, high: nat)
    requires w == high * 0x1_0000_0000 + Top(c, 0x100_0000) + Top(d, 0x1_0000) + Top(e, 0x100) + f
    ensures w % 1024 == Top(e % 4, 0x100) + f
    ensures w / 1024 % 0x40_0000 == Top(c, 0x4000) + Top(d, 0x40) + e / 4
  {
    var n, m := Top(c, 0x4000) + Top(d, 0x40) + e / 4, Top(e % 4, 0x100) + f;
    DivUnique(w, 1024, high * 0x40_0000 + n, m);
    DivUnique(high * 0x40_0000 + n, 0x40_0000, high, n);
  }

  /** A new record in numbers: the inode, the rest of the block as its length,
      the length of the name, and the name. */
  lemma NewRecordBytes(b: seq<byte>, at: nat, ino: Word, name: Name)
    requires |b| == BSIZE && at + Needed(name) <= BSIZE
    ensures IsNewRecord(PutEntry(b, at, ino, name), at, ino, name)
  {
    hide PutEntry, WordAt, RecLen, NameLen, Ino;
    var r := PutEntry(b, at, ino, name);
    assert RecAt(r, at) == NewRec(at, ino, name);
    RecordFields(r, at);
    NameFits(r, at, ino, name);
  }

  lemma NameFits(r: seq<byte>, at: nat, ino: Word, name: Name)
    requires |r| == BSIZE && at + Needed(name) <= BSIZE && RecAt(r, at) == NewRec(at, ino, name)
    ensures Fits(r, at) && at + 24 + |name| % 1024 <= BSIZE && NameLen(r, at) == |name| % 1024
    ensures r[at + 24..at + 24 + |name| % 1024] == name[..|name| % 1024]
    ensures Ino(r, at) == ino && RecLen(r, at) == BSIZE - at
  {
    hide Ino, RecLen, NameLen, UsedFor;
    assert |Stored(name)| == |name| % 1024;
  }

  predicate IsNewRecord(r: seq<byte>, at: nat, ino: Word, name: Name)
  {
    var n := |name| % 1024;
    && |r| == BSIZE && at + 24 + n <= BSIZE && WordAt(r, at) == ino && r[at + 24..at + 24 + n] == name[..n]
    && Top(r[at + 20], 0x4000) + Top(r[at + 21], 0x40) + r[at + 22] / 4 == BSIZE - at
    && Top(r[at + 22] % 4, 0x100) + r[at + 23] == n
  }

  /* ----- the regions ----- */

  /** The regions are as long as they have to be and not longer: 512 map words
      and 16 inodes of 32 words a block, one inode for `ratio` blocks, but no
      more than one map block has bits. */
  lemma GeometrySizes(disk: nat, ratio: nat)
    requires ratio > 0
    ensures var g := Geometry(disk, ratio);
      && g.inodeCnt == (if disk / ratio <= 512 * 64 then disk / ratio else 512 * 64)
      && 512 * (g.mapBlocks - 1) < disk / 64 + 1 && disk / 64 <= 512 * g.mapBlocks
      && 512 * (g.inoBlocks - 2) < 32 * g.inodeCnt + 1 && 32 * g.inodeCnt <= 512 * (g.inoBlocks - 1)
      && (g.inoBlocks > 0 ==> 32 * g.InodeCap() == 512 * (g.inoBlocks - 1))
  {
  }

  /** The smallest disk: sector 0, ten super blocks, and the regions behind them. */
  lemma SmallestDisk()
    ensures var g := Geometry(256, 4);
      && g == Geo(256, 1, 64, 5) && g.MapStart() == 11 && g.Dyn() == 12 && g.InoStart() == 13 && g.Sfs() == 18
      && g.MetaEnd() == 19 && SbOf(g) == SuperBlock(64, 12, 2, 11, 1, Extent(13, 5))
  {
  }

  /** What making a file and a directory does to the parent's entries and adds,
      the name cut to the ten bits of its length. */
  lemma NewNodes(t: Tree, p: nat, n: nat, name: Name)
    requires p in t && n !in t
    ensures var e, f, d := Entry(n, name[..|name| % 1024]), AfterMkFile(t, p, n, name), AfterMkDir(t, p, n, name);
      && f == t[n := Node(Regular, 1, [], [])][p := t[p].(entries := t[p].entries + [e])]
      && d == t[n := Node(Directory, 2, [Entry(n, [46]), Entry(p, [46, 46])], [])][
                p := t[p].(entries := t[p].entries + [e], nlink := (t[p].nlink + 1) % 0x2_0000)]
  {
  }

  /** The tree of a new file system. */
  lemma NewTree(lostFound: Name)
    ensures AfterMkDir(NewDir(map[], ROOT, ROOT), ROOT, ROOT + 1, lostFound) ==
      map[2 := Node(Directory, 3, [Entry(2, [46]), Entry(2, [46, 46]), Entry(3, Stored(lostFound))], []),
          3 := Node(Directory, 2, [Entry(3, [46]), Entry(2, [46, 46])], [])]
  {
    hide Stored;
    var e, f, c := Entry(2, [46]), Entry(2, [46, 46]), Entry(3, Stored(lostFound));
    assert [e, f] + [c] == [e, f, c];
  }
}
