/** The UNICOS file system builder: `DiskImage_c` of mkfs_unicos. */
module Mkfs {
  import opened Wrappers
  import opened Bits
  import opened Words
  import opened MkfsDir
  import opened MkfsStore
  import opened MkfsView
  import opened MkfsSteps
  import opened MkfsTree

  /** How a call ends.  AssertFailed and DiskFull end the source's run; PastEnd
      and Overrun are where the source would leave its own data structures. */
  datatype Outcome = Done | AssertFailed | DiskFull | PastEnd | Overrun

  class DiskImage {
    var storage: Store
    const diskBlocks: nat
    ghost const g: Geo
    ghost var owner: Owner

    ghost predicate Rep()
      reads this
    {
      Layout(g, storage) && diskBlocks == g.disk
    }

    ghost function V(): View
      reads this
      requires Rep()
    {
      ViewOf(g, storage)
    }

    /** The image is consistent. */
    ghost predicate Whole()
      reads this
    {
      Rep() && Sound(g, V(), owner, -1)
    }

    /** The tree the image stands for. */
    ghost function T(): Tree
      reads this
      requires Whole()
    {
      TreeOf(V(), -1)
    }

    /* ----- allocation maps ----- */

    /** Sets map bit `idx`; false when the source's assertion would fire. */
    method AllocateInMap(idx: nat, mapStart: nat) returns (ok: bool)
      requires var k := mapStart + idx / MAP_BITS;
        k in storage ==> storage[k].Bitmap? && |storage[k].bits| == MAP_BITS
      modifies this`storage
      ensures ok <==> !MapBit(old(storage), mapStart, idx)
      ensures storage == if ok then WithBit(old(storage), mapStart, idx) else old(storage)
    {
      var mapOfs := idx / 64;
      var mapPage := mapOfs / 512;
      mapOfs := mapOfs % 512;
      var pos := mapOfs * 64 + BitPos(idx % 64);
      PlaceOfBit(idx);
      var bits := BitsAt(storage, mapStart + mapPage);
      ok := !bits[pos];
      if ok {
        storage := storage[mapStart + mapPage := Bitmap(bits[pos := true])];
      }
    }

    lemma PlaceOfBit(idx: nat)
      ensures idx / 64 / 512 == idx / MAP_BITS
      ensures idx / 64 % 512 * 64 + BitPos(idx % 64) == RawPos(idx % MAP_BITS)
    {
      DivDiv(idx, 64, 512);
      var r := idx % MAP_BITS;
      assert r == idx / 64 % 512 * 64 + idx % 64;
      DivUnique(r, 64, idx / 64 % 512, idx % 64);
    }

    /** All 64 bits of map word `idx` are set. */
    predicate WordFull(bitmap: seq<bool>, idx: nat)
      requires |bitmap| == MAP_BITS && idx < 512
    {
      forall p :: idx * 64 <= p < idx * 64 + 64 ==> bitmap[p]
    }

    /** First fit: the lowest clear bit of the map, words that are full being
        skipped. */
    method GetFreeEntry(mapStart: nat, mapBlockCnt: nat) returns (r: Option<nat>)
      requires TypedMap(storage, mapStart, mapBlockCnt)
      ensures r.Some? ==> r.value < mapBlockCnt * MAP_BITS && !MapBit(storage, mapStart, r.value)
      ensures AllSet(storage, mapStart, mapBlockCnt, if r.Some? then r.value else mapBlockCnt * MAP_BITS)
    {
      hide AllSet, MapBit, WordFull, RawPos;
      assert AllSet(storage, mapStart, mapBlockCnt, 0) by { NothingScanned(mapStart, mapBlockCnt); }
      for page := 0 to mapBlockCnt
        invariant AllSet(storage, mapStart, mapBlockCnt, page * MAP_BITS)
      {
        var bitmap := BitsAt(storage, mapStart + page);
        for idx := 0 to 512
          invariant AllSet(storage, mapStart, mapBlockCnt, page * MAP_BITS + idx * 64)
        {
          if !WordFull(bitmap, idx) {
            for bit := 0 to 64
              invariant AllSet(storage, mapStart, mapBlockCnt, page * MAP_BITS + idx * 64 + bit)
            {
              NextBit(mapStart, mapBlockCnt, page, idx, bit);
              if !bitmap[idx * 64 + BitPos(bit)] {
                return Some((page * 512 + idx) * 64 + bit);
              }
            }
          } else {
            FullWordSet(mapStart, mapBlockCnt, page, idx);
          }
        }
      }
      return None;
    }

    lemma NothingScanned(mapStart: nat, cnt: nat)
      requires TypedMap(storage, mapStart, cnt)
      ensures AllSet(storage, mapStart, cnt, 0)
    {
    }

    /** One bit of the scan. */
    lemma NextBit(mapStart: nat, cnt: nat, page: nat, idx: nat, bit: nat)
      requires TypedMap(storage, mapStart, cnt) && page < cnt && idx < 512 && bit < 64
      requires AllSet(storage, mapStart, cnt, page * MAP_BITS + idx * 64 + bit)
      ensures (page * 512 + idx) * 64 + bit == page * MAP_BITS + idx * 64 + bit
      ensures var taken := BitsAt(storage, mapStart + page)[idx * 64 + BitPos(bit)];
        if taken then AllSet(storage, mapStart, cnt, page * MAP_BITS + idx * 64 + bit + 1)
        else !MapBit(storage, mapStart, page * MAP_BITS + idx * 64 + bit)
    {
      PlaceInMap(page, idx, bit);
    }

    lemma FullWordSet(mapStart: nat, cnt: nat, page: nat, idx: nat)
      requires TypedMap(storage, mapStart, cnt) && page < cnt && idx < 512
      requires AllSet(storage, mapStart, cnt, page * MAP_BITS + idx * 64)
      requires WordFull(BitsAt(storage, mapStart + page), idx)
      ensures AllSet(storage, mapStart, cnt, page * MAP_BITS + idx * 64 + 64)
    {
      var base := page * MAP_BITS + idx * 64;
      forall j: nat | base <= j < base + 64
        ensures MapBit(storage, mapStart, j)
      {
        PlaceInMap(page, idx, j - base);
      }
    }

    lemma PlaceInMap(page: nat, idx: nat, bit: nat)
      requires idx < 512 && bit < 64
      ensures var j := page * MAP_BITS + idx * 64 + bit;
        j / MAP_BITS == page && RawPos(j % MAP_BITS) == idx * 64 + BitPos(bit)
    {
      DivUnique(page * MAP_BITS + idx * 64 + bit, MAP_BITS, page, idx * 64 + bit);
    }

    /** Marks a block occupied and takes it off both free counters. */
    method AllocateBlock(b: nat) returns (ok: bool)
      requires Rep() && b < g.BitCnt()
      modifies this`storage
      ensures Rep()
      ensures ok <==> b !in old(V()).used
      ensures V() == if ok then TakeBlock(old(V()), b) else old(V())
    {
      var sb := storage[SUPERB].sb;
      ok := AllocateInMap(b, sb.mapoff);
      FreeMapSet(g, old(storage), b);
      if ok {
        var db := storage[sb.dboff].db;
        DynamicSet(g, storage, db.(avail := Dec(db.avail), tfree := Dec(db.tfree)));
        storage := storage[sb.dboff := Dynamic(db.(avail := Dec(db.avail), tfree := Dec(db.tfree)))];
      }
    }

    method AllocateINodeIdx(i: nat) returns (ok: bool)
      requires Rep() && i < MAP_BITS
      modifies this`storage
      ensures Rep()
      ensures ok <==> i !in old(V()).iused
      ensures V() == if ok then TakeINode(old(V()), i) else old(V())
    {
      var sb := storage[SUPERB].sb;
      ok := AllocateInMap(i, sb.ireg.blk);
      INodeMapSet(g, old(storage), i);
      if ok {
        var db := storage[sb.dboff].db;
        var db' := db.(ifree := Dec(db.ifree), ninode := Inc(db.ninode), iregFree := Dec(db.iregFree));
        DynamicSet(g, storage, db');
        storage := storage[sb.dboff := Dynamic(db')];
      }
    }

    /** A free block, first fit.  The source goes on with a block behind the
        end of the disk once the free counter is zero; here that is PastEnd. */
    method GetFreeBlock() returns (o: Outcome, b: nat)
      requires Rep() && Counters(g, V())
      modifies this`storage
      ensures Rep()
      ensures o == Done ==> b == |old(V()).used| < g.disk && V() == TakeBlock(old(V()), b)
      ensures o == Done <==> !NoBlock(g, old(V()))
      ensures o != Done ==> storage == old(storage)
      ensures o == Done || o == DiskFull || o == PastEnd
      ensures o == PastEnd <==> old(V()).db.avail == 0 && g.BitCnt() > g.disk
      ensures o == DiskFull <==> old(V()).db.avail == g.Lost() && g.BitCnt() <= g.disk
    {
      hide MapBit, AllSet, Counters, Used, INodesOf, RawOf;
      var sb := storage[SUPERB].sb;
      var r := GetFreeEntry(sb.mapoff, sb.mapblks);
      TakenBelow(g, storage, if r.Some? then r.value else g.BitCnt());
      UsedInMap();
      MapFull(g, V());
      if r.None? {
        return DiskFull, 0;
      }
      b := r.value;
      FirstFitInside(g, V(), b);
      if b >= diskBlocks {
        return PastEnd, 0;
      }
      var ok := AllocateBlock(b);
      o := Done;
    }

    /** The map has no bits behind its end. */
    lemma UsedInMap()
      requires Rep()
      ensures V().used <= Upto(g.BitCnt())
    {
      UptoHas(g.BitCnt());
    }

    /** A free inode, first fit; PastEnd when it is outside the inode region. */
    method GetFreeINodeIdx() returns (o: Outcome, i: nat)
      requires Rep() && Counters(g, V())
      modifies this`storage
      ensures Rep()
      ensures o == Done ==> i == |old(V()).iused| && i < g.inodeCnt && V() == TakeINode(old(V()), i)
      ensures o != Done ==> storage == old(storage)
      ensures o == Done <==> old(V()).db.ifree > 0
      ensures o == DiskFull || o == PastEnd || o == Done
    {
      hide MapBit, AllSet, IUsed, INodesOf, RawOf;
      var sb := storage[SUPERB].sb;
      var r := GetFreeEntry(sb.ireg.blk, 1);
      ITakenBelow(g, storage, if r.Some? then r.value else MAP_BITS);
      if r.None? {
        FirstFit(V().iused, g.inodeCnt);
        return DiskFull, 0;
      }
      i := r.value;
      FirstFitINode(g, V(), i);
      if i >= sb.isize {
        return PastEnd, 0;
      }
      var ok := AllocateINodeIdx(i);
      o := Done;
    }

    /* ----- inodes and data blocks ----- */

    method ReadINode(i: nat) returns (x: INode)
      requires Rep() && i < g.InodeCap()
      ensures x == V().inodes[i]
    {
      var k := storage[SUPERB].sb.ireg.blk + 1 + i / INODES_PER_BLOCK;
      x := if k in storage then storage[k].inodes[i % INODES_PER_BLOCK] else ZeroINode();
      assert x == INodeAt(g, storage, i);
    }

    method WriteINode(i: nat, x: INode)
      requires Rep() && i < g.InodeCap()
      modifies this`storage
      ensures Rep() && V() == WithX(old(V()), i, x)
    {
      INodeSet(g, storage, i, x);
      var k := storage[SUPERB].sb.ireg.blk + 1 + i / INODES_PER_BLOCK;
      var inodes := if k in storage then storage[k].inodes else ZeroINodes();
      storage := storage[k := INodes(inodes[i % INODES_PER_BLOCK := x])];
    }

    method ReadBlock(b: nat) returns (s: seq<byte>)
      requires Rep() && b >= g.MetaEnd()
      ensures RawOk(V().raw) && s == DataAt(V().raw, b)
    {
      s := if b in storage then storage[b].bytes else ZeroBytes();
    }

    method WriteBlock(b: nat, s: seq<byte>)
      requires Rep() && b >= g.MetaEnd() && |s| == BSIZE
      modifies this`storage
      ensures Rep() && V() == WithRaw(old(V()), b, s)
    {
      RawSet(g, storage, b, s);
      storage := storage[b := Raw(s)];
    }

    /* ----- appending to a file ----- */

    /** Walks the extents to the one that holds the end of the file.  `curr` is
        the block the end of file falls into (`end` when that block is full). */
    method FindEnd(x: INode) returns (idx: nat, curr: nat, end: nat, cnt: nat, left: nat, total: nat)
      requires AddrOk(x.addr) && SizeOk(x)
      ensures AtEnd(x.addr, idx, end) && cnt == x.addr[idx].nblks
      ensures total == |BlockList(x.addr)|
      ensures left % BSIZE == x.size % BSIZE
      ensures curr == if x.size % BSIZE == 0 then end else end - 1
      ensures x.size % BSIZE != 0 ==> cnt > 0
    {
      left := x.size;
      idx, total := 0, 0;
      cnt := x.addr[0].nblks;
      curr := x.addr[0].blk;
      BlocksCover(x.size);
      while left > cnt * BSIZE
        invariant idx < MAX_EXTENTS && cnt == x.addr[idx].nblks && curr == x.addr[idx].blk
        invariant total == |BlockList(x.addr[..idx])| && left + BSIZE * total == x.size
        invariant idx > 0 ==> left > 0
        decreases MAX_EXTENTS - idx
      {
        BlockListStep(x.addr, idx);
        NotLast(x, idx);
        left := left - cnt * BSIZE;
        idx := idx + 1;
        total := total + cnt;
        cnt := x.addr[idx].nblks;
        curr := x.addr[idx].blk;
      }
      end := curr + cnt;
      curr := curr + left / BSIZE;
      BlockListStep(x.addr, idx);
      total := total + cnt;
      WalkDone(x, idx);
    }

    lemma NotLast(x: INode, idx: nat)
      requires AddrOk(x.addr) && SizeOk(x) && idx < MAX_EXTENTS
      requires x.size > BSIZE * |BlockList(x.addr[..idx + 1])|
      ensures idx + 1 < MAX_EXTENTS
    {
      BlocksCover(x.size);
      assert x.addr[..idx + 1] == x.addr || idx + 1 < MAX_EXTENTS;
    }

    /** The walk stops at the last live extent. */
    lemma WalkDone(x: INode, idx: nat)
      requires AddrOk(x.addr) && SizeOk(x) && idx < MAX_EXTENTS
      requires x.size <= BSIZE * |BlockList(x.addr[..idx + 1])|
      requires idx > 0 ==> x.size > BSIZE * |BlockList(x.addr[..idx])|
      ensures forall j :: idx < j < MAX_EXTENTS ==> x.addr[j].nblks == 0
      ensures BlockList(x.addr) == BlockList(x.addr[..idx + 1])
      ensures idx > 0 ==> x.addr[idx].nblks > 0
    {
      BlocksCover(x.size);
      BlockListStep(x.addr, idx);
      if idx + 1 < MAX_EXTENTS {
        BlockListMono(x.addr, idx + 1);
      }
      BlockListTail(x.addr, idx + 1);
    }

    /** memcpy of d into a data block. */
    method CopyInto(b: nat, ofs: nat, d: seq<byte>)
      requires Rep() && b >= g.MetaEnd() && ofs + |d| <= BSIZE
      modifies this`storage
      ensures Rep() && RawOk(old(V()).raw)
      ensures V() == WithRaw(old(V()), b, Splice(DataAt(old(V()).raw, b), ofs, d))
    {
      var s := ReadBlock(b);
      WriteBlock(b, Splice(s, ofs, d));
    }

    /** Merges block b with the last extent, or starts the next extent with
        it; not ok when all extents are in use. */
    method PlaceBlock(addr: seq<Extent>, idx: nat, curr: nat, cnt: nat, b: nat)
      returns (ok: bool, idx': nat, addr': seq<Extent>)
      requires AddrOk(addr) && AtEnd(addr, idx, curr) && b > 0
      requires cnt == 0 <==> addr[idx].nblks == 0
      ensures ok ==> AddrOk(addr') && BlockList(addr') == BlockList(addr) + [b]
      ensures ok ==> AtEnd(addr', idx', b + 1) && addr'[idx'].nblks > 0
      ensures ok <==> curr == b || cnt == 0 || addr[MAX_EXTENTS - 1].nblks == 0
    {
      idx', addr', ok := idx, addr, true;
      if curr == b {
        MergeExtent(addr, idx, b);
        addr' := addr[idx := addr[idx].(nblks := addr[idx].nblks + 1)];
      } else {
        if !(curr == 0 && cnt == 0) {
          idx' := idx + 1;
        }
        if idx' >= MAX_EXTENTS {
          ok := false;
        } else {
          NewExtent(addr, idx', b);
          addr' := addr[idx' := Extent(b, 1)];
        }
      }
    }

    /** Allocates one block for the end of file i. */
    method Extend(i: nat, idx: nat, curr: nat, cnt: nat)
      returns (o: Outcome, idx': nat, b: nat, x: INode)
      requires Rep() && Counters(g, V()) && i < g.InodeCap() == |V().inodes| && AddrOk(V().inodes[i].addr)
      requires AtEnd(V().inodes[i].addr, idx, curr)
      requires cnt == 0 <==> V().inodes[i].addr[idx].nblks == 0
      modifies this`storage
      ensures Rep()
      ensures o == Done ==> Grown(old(V()), i, x, b) && x == old(V()).inodes[i].(addr := x.addr)
      ensures o == Done ==> b == |old(V()).used| < g.disk && V() == GrowView(old(V()), i, x, b)
      ensures o == Done ==> AtEnd(x.addr, idx', b + 1) && x.addr[idx'].nblks > 0
      ensures o == Done <==> !NoBlock(g, old(V())) && Extensible(old(V()), i)
      ensures o == AssertFailed ==> !Extensible(old(V()), i)
      ensures o == Done ==> Extensible(V(), i)
      ensures o == PastEnd || o == DiskFull ==> V() == old(V()) && NoBlock(g, V())
      ensures o != Overrun
    {
      hide ViewOf, Layout, Extensible, NoBlock;
      EndExtensible(V(), i, idx, curr);
      o, b := GetFreeBlock();
      x := ReadINode(i);
      idx' := idx;
      if o == Done {
        assert b > 0 by {
          assert 0 in Upto(g.MetaEnd());
        }
        var ok, addr';
        ok, idx', addr' := PlaceBlock(x.addr, idx, curr, cnt, b);
        if ok {
          x := x.(addr := addr');
          GrowExtends(old(V()), i, x, b);
          WriteINode(i, x);
        } else {
          o := AssertFailed;
        }
      }
    }

    lemma GrowExtends(v: View, i: nat, x: INode, b: nat)
      requires Rep() && Counters(g, v) && b == |v.used| < g.disk && i < |v.inodes| && Grown(v, i, x, b)
      ensures Extensible(GrowView(v, i, x, b), i)
    {
      hide BlockList;
      CountersTakeBlock(g, v, b);
      assert Blocks(GrowView(v, i, x, b), i)[|Blocks(v, i)|] == b;
    }

    /** In the middle of AppendToFile: `rest` of the data is still to be
        written, the part before it is stored behind the old content c0. */
    ghost predicate Mid(i: nat, x0: INode, t0: Tree, c0: seq<byte>, data: seq<byte>, rest: seq<byte>, k: Cursor)
      reads this
    {
      && Rep() && |rest| <= |data| && rest == data[|data| - |rest|..]
      && AtCursor(g, V(), owner, i, x0, t0, c0 + data[..|data| - |rest|], k, |rest| > 0)
    }

    /** The cursor at the end of file x of image v. */
    ghost predicate FoundEnd(v: View, i: nat, k: Cursor)
    {
      && i < |v.inodes| && |v.inodes[i].addr| == MAX_EXTENTS && AtEnd(v.inodes[i].addr, k.idx, k.end)
      && k.cnt == v.inodes[i].addr[k.idx].nblks && k.total == |Blocks(v, i)|
      && k.curr == (if v.inodes[i].size % BSIZE == 0 then k.end else k.end - 1)
      && (v.inodes[i].size % BSIZE != 0 ==> k.cnt > 0)
    }

    /** Fills the rest of the file's last block. */
    method FillLast(i: nat, left: nat, data: seq<byte>, k: Cursor, ghost x0: INode, ghost t0: Tree, ghost c0: seq<byte>)
      returns (rest: seq<byte>)
      requires Whole() && i < |V().inodes| && x0 == V().inodes[i] && !x0.kind.Unused?
      requires Ready(V(), i) && SizeOk(x0) && t0 == TreeOf(V(), i) && c0 == Content(V().raw, x0)
      requires FoundEnd(V(), i, k) && left == x0.size % BSIZE != 0
      modifies this`storage
      ensures Rep() && Mid(i, x0, t0, c0, data, rest, k.(curr := k.end)) && SameMaps(V(), old(V()))
      ensures |rest| == if BSIZE - left < |data| then |data| - (BSIZE - left) else 0
    {
      hide ViewOf, Layout, Counters, INodesOk, Owned, BlockList, DirOk, Holds, Appending, AtCursor;
      var room := if BSIZE - left < |data| then BSIZE - left else |data|;
      CursorPartial(g, V(), owner, i, data[..room], k, room < |data|);
      CopyInto(k.curr, left, data[..room]);
      rest := data[room..];
    }

    /** Nothing but data blocks differs. */
    ghost predicate SameMaps(v: View, v': View) {
      v'.used == v.used && v'.iused == v.iused && v'.db == v.db && v'.inodes == v.inodes
    }

    /** The blocks still to be allocated for the rest of the data. */
    ghost function ToCome(rest: nat, k: Cursor): int {
      BlocksFor(rest) - if k.curr == k.end then 0 else 1
    }

    /** Finds the end of the file and fills its last block. */
    method BeginAppend(i: nat, x0: INode, data: seq<byte>, ghost t0: Tree, ghost c0: seq<byte>)
      returns (k: Cursor, rest: seq<byte>)
      requires Whole() && i < g.InodeCap() && i in T() && x0 == V().inodes[i]
      requires Ready(V(), i) && SizeOk(x0) && t0 == TreeOf(V(), i) && c0 == Content(V().raw, x0)
      modifies this`storage
      ensures Rep() && Mid(i, x0, t0, c0, data, rest, k)
      ensures |rest| <= |data| && k.curr == k.end && SameMaps(V(), old(V()))
      ensures FitsBlocks(g, V(), i, ToCome(|rest|, k)) <==> RoomFor(g, old(V()), i, |data|)
    {
      hide ViewOf, Layout, Counters, INodesOk, Owned, BlockList, DirOk, Holds, Appending, AtCursor, BlocksFor;
      Facts(i);
      BlocksBehind(x0.size, |data|);
      ghost var v0 := V();
      var idx, curr, end, cnt, left, total := FindEnd(x0);
      assert x0.blocks == total;   // the source asserts this when data is left
      rest := data;
      if curr != end {
        left := left % BSIZE;
        rest := FillLast(i, left, rest, Cursor(idx, curr, end, cnt, total), x0, t0, c0);
        curr := curr + 1;
      } else {
        CursorStart(g, v0, owner, i, Cursor(idx, curr, end, cnt, total), |rest| > 0);
        assert c0 + data[..0] == c0;
      }
      k := Cursor(idx, curr, end, cnt, total);
    }

    /** Writes the next chunk into the block that is allocated but unwritten. */
    method FillNext(
      i: nat, rest: seq<byte>, k: Cursor, ghost x0: INode, ghost t0: Tree, ghost c0: seq<byte>, ghost data: seq<byte>)
      returns (rest': seq<byte>, k': Cursor)
      requires Mid(i, x0, t0, c0, data, rest, k) && k.curr != k.end
      modifies this`storage
      ensures Rep() && Mid(i, x0, t0, c0, data, rest', k') && k'.curr == k'.end == k.end
      ensures 0 < |rest| <= |data| && |rest'| == (if BSIZE < |rest| then |rest| - BSIZE else 0)
      ensures SameMaps(V(), old(V())) && ToCome(|rest'|, k') == ToCome(|rest|, k)
    {
      hide ViewOf, Layout, AtCursor;
      var room := if BSIZE < |rest| then BSIZE else |rest|;
      ghost var c := c0 + data[..|data| - |rest|];
      StillData(g, V(), owner, i, x0, t0, c, k, |rest| > 0);
      CursorFacts(g, V(), owner, i, x0, t0, c, k, true);
      CursorFill(g, V(), owner, i, x0, t0, c, k, rest[..room], room < |rest|);
      Chunk(c0, data, |data| - |rest|, room);
      CopyInto(k.curr, 0, rest[..room]);
      rest' := rest[room..];
      k' := k.(curr := k.curr + 1);
    }

    /** Allocates the next block. */
    method ExtendNext(
      i: nat, k: Cursor, ghost rest: seq<byte>, ghost x0: INode, ghost t0: Tree, ghost c0: seq<byte>,
      ghost data: seq<byte>)
      returns (o: Outcome, k': Cursor)
      requires Mid(i, x0, t0, c0, data, rest, k) && k.curr == k.end && |rest| > 0
      modifies this
      ensures Rep()
      ensures o == Done ==> Mid(i, x0, t0, c0, data, rest, k') && k'.end == k'.curr + 1
      ensures o == Done ==> V().iused == old(V()).iused
      ensures if o == Done then
                FitsBlocks(g, V(), i, ToCome(|rest|, k')) <==> FitsBlocks(g, old(V()), i, ToCome(|rest|, k))
              else !FitsBlocks(g, old(V()), i, ToCome(|rest|, k))
      ensures o == Done ==> Extensible(V(), i)
      ensures o == AssertFailed ==> !Extensible(old(V()), i)
      ensures o == PastEnd || o == DiskFull ==> NoBlock(g, V())
      ensures o != Overrun
    {
      hide ViewOf, AtCursor, Counters, BlockList, Extensible, FitsBlocks, BlocksFor;
      ghost var v, w, c := V(), owner, c0 + data[..|data| - |rest|];
      CursorFacts(g, v, w, i, x0, t0, c, k, true);
      assert g.Ok();
      NeedsBlock(v, i, |rest|);
      var idx', b, x;
      o, idx', b, x := Extend(i, k.idx, k.curr, k.cnt);
      k' := Cursor(idx', b, b + 1, 1, k.total + 1);
      if o == Done {
        CursorExtend(g, v, w, i, x0, t0, c, k, x, b, idx');
        Fewer(v, i, x, b, BlocksFor(|rest|));
        owner := w[b := (i, |Blocks(v, i)|)];
      }
    }

    lemma NeedsBlock(v: View, i: nat, rest: nat)
      requires rest > 0
      ensures BlocksFor(rest) > 0
      ensures FitsBlocks(g, v, i, BlocksFor(rest)) ==> !NoBlock(g, v) && Extensible(v, i)
    {
      BlocksCover(rest);
    }

    lemma Fewer(v: View, i: nat, x: INode, b: nat, n: nat)
      requires Counters(g, v) && g.Ok() && b == |v.used| < g.disk && i < |v.inodes| && Grown(v, i, x, b)
      requires n > 0 && !NoBlock(g, v) && Extensible(v, i)
      ensures FitsBlocks(g, GrowView(v, i, x, b), i, n - 1) <==> FitsBlocks(g, v, i, n)
    {
      GrowFits(g, v, i, x, b, n);
    }

    /** Appends data to file or directory i. */
    method AppendToFile(i: nat, data: seq<byte>) returns (o: Outcome)
      requires Whole() && i < g.InodeCap()
      requires |data| + BSIZE <= 0x1000_0000_0000   // the block count needed fits 32 bits
      modifies this
      ensures Rep()
      ensures o == Done ==> Whole() && V().iused == old(V().iused)
      ensures o == Done ==> i in old(T()) && T() == AfterAppend(old(T()), i, data)
      ensures o == Done <==> i in old(T()) && RoomFor(g, old(V()), i, |data|)
      ensures o == AssertFailed ==> i !in old(T()) || !Extensible(old(V()), i)
      ensures o == PastEnd || o == DiskFull ==> NoBlock(g, V())
      ensures o != Overrun
    {
      hide ViewOf, Layout, Counters, INodesOk, Owned, BlockList, DirOk, Mid, TreeOf, Content, FitsBlocks, RoomFor,
        ToCome, Extensible, NoBlock;
      ghost var v0 := V();
      Facts(i);
      var x0 := ReadINode(i);
      if x0.kind.Unused? {
        return AssertFailed;
      }
      var newSize := x0.size + |data|;
      ghost var c0, t0 := Content(v0.raw, x0), TreeOf(v0, i);
      var k, rest := BeginAppend(i, x0, data, t0, c0);
      SameFits(v0, V(), i);
      while |rest| > 0
        invariant Rep() && Mid(i, x0, t0, c0, data, rest, k) && V().iused == v0.iused
        invariant |rest| <= |data| && (k.curr != k.end ==> k.end == k.curr + 1)
        invariant FitsBlocks(g, V(), i, ToCome(|rest|, k)) <==> RoomFor(g, v0, i, |data|)
        invariant Extensible(v0, i) ==> Extensible(V(), i)
        decreases |rest|, k.curr == k.end
      {
        var blocksNeeded := BlocksFor(|rest|) % 0x1_0000_0000;
        FewBlocks(|rest|);
        ghost var left, full := |rest|, k.curr == k.end;
        while k.curr != k.end
          invariant Rep() && Mid(i, x0, t0, c0, data, rest, k) && V().iused == v0.iused
          invariant |rest| <= left && blocksNeeded == BlocksFor(|rest|)
          invariant if k.curr == k.end then full || |rest| < left else !full && |rest| == left
          invariant FitsBlocks(g, V(), i, ToCome(|rest|, k)) <==> RoomFor(g, v0, i, |data|)
          invariant Extensible(v0, i) ==> Extensible(V(), i)
          decreases k.curr != k.end
        {
          ghost var v := V();
          rest, k := FillNext(i, rest, k, x0, t0, c0, data);
          SameFits(v, V(), i);
          blocksNeeded := blocksNeeded - 1;
          if |rest| == 0 {
            break;
          }
        }
        if blocksNeeded != 0 {
          o, k := ExtendNext(i, k, rest, x0, t0, c0, data);
          if o != Done {
            return;
          }
        }
      }
      NothingToCome(V(), i, k);
      MidDone(i, x0, t0, c0, data, k);
      CursorFinish(g, v0, V(), owner, i, data, k);
      var x := ReadINode(i);
      WriteINode(i, x.(blocks := k.total, size := newSize));
      o := Done;
    }

    lemma SameFits(v: View, v': View, i: nat)
      requires SameMaps(v', v)
      ensures forall n :: FitsBlocks(g, v, i, n) <==> FitsBlocks(g, v', i, n)
      ensures Extensible(v, i) <==> Extensible(v', i)
    {
    }

    lemma NothingToCome(v: View, i: nat, k: Cursor)
      ensures FitsBlocks(g, v, i, ToCome(0, k))
    {
    }

    lemma FewBlocks(n: nat)
      requires n + BSIZE <= 0x1000_0000_0000
      ensures BlocksFor(n) % 0x1_0000_0000 == BlocksFor(n)
    {
    }

    lemma MidDone(i: nat, x0: INode, t0: Tree, c0: seq<byte>, data: seq<byte>, k: Cursor)
      requires Mid(i, x0, t0, c0, data, [], k)
      ensures Rep() && AtCursor(g, V(), owner, i, x0, t0, c0 + data, k, false) && |V().inodes| == g.InodeCap()
    {
      hide ViewOf, Layout;
      assert data[..|data|] == data;
    }

    lemma Facts(i: nat)
      requires Rep() && Sound(g, V(), owner, -1) && i < g.InodeCap()
      ensures g.Ok() && |V().inodes| == g.InodeCap() && RawOk(V().raw) && AddrOk(V().inodes[i].addr)
      ensures NodeReady(V(), i) && Ready(V(), i)
      ensures i in TreeOf(V(), -1) <==> !V().inodes[i].kind.Unused?
      ensures i in TreeOf(V(), -1) ==> TreeOf(V(), -1)[i] == NodeAt(V(), i)
    {
      assert INodeOk(V(), i) && NodeReady(V(), i);
      assert i in TreeOf(V(), -1) <==> InTree(V(), i, -1);
      Loosen(V(), i);
    }

    /* ----- directories ----- */

    /** The directory part of AppendToDir: finds the last record, tightens it
        and writes the new one behind it. */
    static method InsertEntry(s0: seq<byte>, ino: Word, name: Name) returns (o: Outcome, s: seq<byte>)
      requires |s0| == BSIZE && IsChain(Table(s0), 0)
      ensures o == Done <==> Needed(name) <= Slack(Table(s0))
      ensures o == Done ==> s == Appended(s0, ino, name)
      ensures o == Overrun <==> Slack(Table(s0)) == 0
      ensures o == Done || o == Overrun || o == AssertFailed
    {
      hide RecAt, Table, SetRecLen, RecLen, UsedLength, PutEntry, GetBitsReverse, WordAt;
      s := s0;
      var loc := 0;
      ghost var t := Table(s0);
      ghost var q := LastRec(t, 0);
      while true
        invariant s == s0 && loc <= BSIZE
        invariant if loc < BSIZE then IsChain(t, loc) && LastRec(t, loc) == q else Slack(t) == 0
        decreases BSIZE - loc
      {
        if loc + 24 > BSIZE {
          return Overrun, s;
        }
        ChainFields(s0, loc);
        var used := UsedLength(s, loc);
        if loc + used > BSIZE {
          return AssertFailed, s;
        }
        if IsLast(s, loc) {
          s := SetRecLen(s, loc, used);
          loc := loc + used;
          break;
        }
        loc := loc + used;
      }
      if loc + Needed(name) > BSIZE {
        return AssertFailed, s;
      }
      s := PutEntry(s, loc, ino, name);
      o := Done;
    }

    /** The fields read at a record are those of the decoded record. */
    static lemma ChainFields(s: seq<byte>, p: nat)
      requires |s| == BSIZE && IsChain(Table(s), p)
      ensures Fits(s, p) && Table(s)(p).used == UsedLength(s, p) && Table(s)(p).len == RecLen(s, p)
    {
      assert Record(Table(s), p) && Table(s)(p) == RecAt(s, p);
    }

    /** Inode i is a directory that was set up but has no block yet. */
    ghost predicate IsFresh(i: nat)
      reads this
    {
      Rep() && Sound(g, V(), owner, i) && i < |V().inodes| && i in V().iused
      && V().inodes[i] == FreshDir(V().inodes[i].nlink)
    }

    /** The branch of AppendToDir that gives a new directory its block. */
    method FirstEntry(i: nat, ino: Word, name: Name, ghost nlink: nat) returns (o: Outcome)
      requires IsFresh(i) && nlink == V().inodes[i].nlink
      modifies this
      ensures Rep()
      ensures o == Done ==> Whole() && V().iused == old(V().iused)
      ensures o == Done ==> T() == old(TreeOf(V(), i))[i := Node(Directory, nlink, [Entry(ino, Stored(name))], [])]
      ensures o == Done ==> |V().used| == |old(V().used)| + 1
      ensures o == Done || o == DiskFull || o == PastEnd
      ensures o == Done <==> !NoBlock(g, old(V()))
    {
      hide ViewOf, Owned, Counters, BlockList, IsChain, TreeOf, NoBlock, PutEntry, Stored;
      ghost var v, w := V(), owner;
      assert Counters(g, v) && g.Ok() && |v.inodes| == g.InodeCap();
      var b;
      o, b := GetFreeBlock();
      if o != Done {
        return;
      }
      NeededFits(name);
      assert b > 0 && b >= g.MetaEnd() && b !in v.used by { NotMeta(v, b); }
      FreshGrown(v, i, nlink, b);
      var x := ReadINode(i);
      WriteINode(i, x.(addr := x.addr[0 := Extent(b, 1)], size := BSIZE, blocks := 1));
      assert V() == GrowView(v, i, DirINode(nlink, b), b);
      var s := ReadBlock(b);
      s := PutEntry(s, 0, ino, name);
      WriteBlock(b, s);
      FirstEntryStep(g, v, w, i, nlink, b, s, ino, name);
      owner := w[b := (i, 0)];
    }

    lemma NotMeta(v: View, b: nat)
      requires Counters(g, v) && b == |v.used|
      ensures b >= g.MetaEnd() && b !in v.used
    {
      assert b !in Upto(b);
    }

    static lemma NeededFits(name: Name)
      ensures Needed(name) <= BSIZE
    {
    }

    lemma FreshFacts(i: nat)
      requires IsFresh(i)
      ensures |V().inodes| == g.InodeCap() && i < g.InodeCap() && |V().inodes[i].addr| == MAX_EXTENTS
      ensures V().inodes[i].addr[0] == Extent(0, 0) && V().inodes[i].size == 0 && V().inodes[i].kind.Directory?
      ensures !Whole()
    {
      hide ViewOf;
      assert Whole() ==> NodeReady(V(), i);
      NoBlocks(ZeroINode().addr);
    }

    /** The checks AppendToDir makes on inode i. */
    predicate DirChecks(x: INode)
      requires |x.addr| > 0
    {
      x.kind.Directory? && x.size == x.addr[0].nblks * BSIZE && x.addr[0].nblks <= 1
    }

    /** When they pass for a whole image: a directory of a single block. */
    lemma DirFacts(i: nat)
      requires Whole() && i < g.InodeCap()
      ensures !IsFresh(i) && |V().inodes| == g.InodeCap() && |V().inodes[i].addr| == MAX_EXTENTS
      ensures DirChecks(V().inodes[i]) <==> i in T() && T()[i].kind.Directory? && T()[i].content == []
      ensures DirChecks(V().inodes[i]) ==> V().inodes[i].addr[0].nblks == 1
    {
      hide ViewOf, Counters, BlockList, IsChain;
      if IsFresh(i) { FreshFacts(i); }
      Facts(i);
      var x := V().inodes[i];
      if x.kind.Directory? {
        SingleBlock(x);
        assert |T()[i].content| == x.size - BSIZE;
      }
    }

    /** The branch of AppendToDir for a directory that has its block. */
    method NextEntry(i: nat, b: nat, ino: Word, name: Name) returns (o: Outcome)
      requires Whole() && i < g.InodeCap() && i in T() && T()[i].kind.Directory? && T()[i].content == []
      requires |V().inodes| == g.InodeCap() && |V().inodes[i].addr| > 0 && b == V().inodes[i].addr[0].blk
      modifies this`storage
      ensures Rep()
      ensures o == Done ==> Whole() && V().iused == old(V().iused) && V().used == old(V().used)
      ensures o == Done <==> CanInsert(old(T()), i, name)
      ensures o == Overrun <==> FullDir(old(T()), i)
      ensures o == Done ==> T() == AfterEntry(old(T()), i, Entry(ino, Stored(name)))
      ensures o == Done || o == Overrun || o == AssertFailed
    {
      hide ViewOf, Layout, Counters, BlockList, IsChain, Owned, RecAt, Entries, Flat, Appended;
      ghost var v := V();
      Facts(i);
      SingleBlock(v.inodes[i]);
      assert |T()[i].content| == v.inodes[i].size - BSIZE;
      assert b >= g.MetaEnd() by { LastIsData(g, v, owner, i); }
      var s := ReadBlock(b);
      SlackIsSpace(s);
      o, s := InsertEntry(s, ino, name);
      if o == Done {
        NextEntryStep(g, v, owner, i, b, s, Entry(ino, Stored(name)));
        WriteBlock(b, s);
      }
    }

    /** Adds a record to directory i. */
    method AppendToDir(i: nat, ino: Word, name: Name) returns (o: Outcome)
      requires Rep() && i < g.InodeCap() && (Whole() || IsFresh(i))
      modifies this
      ensures Rep()
      ensures o == Done ==> Whole() && V().iused == old(V().iused)
      ensures old(Whole()) ==> (o == Done <==> CanInsert(old(T()), i, name))
      ensures old(Whole()) ==> (o == Overrun <==> FullDir(old(T()), i))
      ensures old(Whole()) && o == Done ==> T() == AfterEntry(old(T()), i, Entry(ino, Stored(name)))
      ensures old(IsFresh(i)) && o == Done ==>
                T() == old(TreeOf(V(), i))[
                  i := Node(Directory, old(V()).inodes[i].nlink, [Entry(ino, Stored(name))], [])]
      ensures old(IsFresh(i)) ==> o == Done || o == DiskFull || o == PastEnd
      ensures old(IsFresh(i)) ==> (o == Done <==> !NoBlock(g, old(V())))
      ensures o == PastEnd || o == DiskFull ==> !old(Whole()) && NoBlock(g, old(V()))
      ensures o == Done ==> |V().used| == |old(V().used)| + if old(Whole()) then 0 else 1
    {
      hide ViewOf, Layout, Sound, TreeOf, DirOk, BlockList, AddrOk, IsFresh, NodeReady;
      if Whole() {
        DirFacts(i);
      } else {
        FreshFacts(i);
      }
      var x := ReadINode(i);
      if !x.kind.Directory? {
        return AssertFailed;
      }
      var currBlock, cnt := x.addr[0].blk, x.addr[0].nblks;
      if x.size != cnt * BSIZE || cnt > 1 {
        return AssertFailed;
      }
      if cnt == 0 {
        o := FirstEntry(i, ino, name, x.nlink);
      } else {
        o := NextEntry(i, currBlock, ino, name);
      }
    }

    /* ----- making nodes ----- */

    /** A consistent image whose link counts are exact. */
    ghost predicate Valid()
      reads this
    {
      Whole() && LinksOk(T(), g.InodeCap())
    }

    /** A new, empty regular file. */
    method MkFile(parent: nat, name: Name) returns (o: Outcome, n: nat)
      requires Valid() && parent < g.InodeCap()
      modifies this
      ensures Rep()
      ensures o == Done ==> Valid() && n == |old(V()).iused| && n !in old(T())
      ensures o == Done ==> CanInsert(old(T()), parent, name) && T() == AfterMkFile(old(T()), parent, n, name)
      ensures o == Done ==> |V().iused| == |old(V()).iused| + 1
      ensures o == Done <==> old(V()).db.ifree > 0 && CanInsert(old(T()), parent, name)
      ensures o == Overrun <==> old(V()).db.ifree > 0 && FullDir(old(T()), parent)
    {
      hide ViewOf, Layout, Sound, TreeOf, LinksOk, Space, Needed;
      n := 0;
      assert g.Ok() && Counters(g, V()) && 0 !in T() by { ValidFacts(); }
      if parent == 0 {
        return AssertFailed, 0;
      }
      ghost var v, t := V(), T();
      o, n := GetFreeINodeIdx();
      if o != Done {
        return;
      }
      NewFileStep(g, v, owner, n, ZeroINode().(kind := Regular, nlink := 1));
      assert |v.iused + {n}| == |v.iused| + 1 by { NewInUse(v, n); }
      assert |v.inodes| == g.InodeCap() by { ValidFacts'(v); }
      var x := ReadINode(n);
      WriteINode(n, x.(kind := Regular, nlink := 1, size := 0));
      assert CanInsert(T(), parent, name) <==> CanInsert(t, parent, name);
      assert FullDir(T(), parent) <==> FullDir(t, parent);
      o := AppendToDir(parent, n, name);
      if o == Done {
        MkFileKeepsLinks(t, g.InodeCap(), parent, n, name);
      }
    }

    lemma ValidFacts()
      requires Valid()
      ensures g.Ok() && Counters(g, V()) && 0 !in T() && 1 !in T() && |V().inodes| == g.InodeCap()
      ensures 2 <= |V().iused| < 0x1_0000
    {
      hide ViewOf;
    }

    lemma ValidFacts'(v: View)
      requires Sound(g, v, owner, -1)
      ensures |v.inodes| == g.InodeCap()
    {
    }

    /** An image without any node: the state before MakeRoot. */
    ghost predicate NoRoot()
      reads this
    {
      Whole() && T() == map[] && |V().iused| == ROOT
    }

    /** Gives the fresh directory n its "." and ".." records. */
    method AddDots(n: nat, up: nat, ghost t0: Tree) returns (o: Outcome)
      requires Rep() && IsFresh(n) && n < g.InodeCap() && V().inodes[n].nlink == 2 && t0 == TreeOf(V(), n)
      requires n < TWO64 && up < TWO64
      modifies this
      ensures Rep()
      ensures o == Done ==> Whole() && T() == NewDir(t0, n, up) && V().iused == old(V().iused)
      ensures o == Done ==> |V().used| == |old(V().used)| + 1
      ensures o == Done || o == DiskFull || o == PastEnd
      ensures o == Done <==> !NoBlock(g, old(V()))
    {
      hide ViewOf, Layout, Sound, TreeOf, Space, Needed, IsFresh, CanInsert;
      FreshFacts(n);
      o := AppendToDir(n, n, DOT);
      if o == Done {
        assert Stored(DOT) == DOT;
        ghost var t1 := T();
        DotFits(t1, n);
        o := AppendToDir(n, up, DOTDOT);
        assert T() == AfterEntry(t1, n, Entry(up, DOTDOT));
        assert t1[n].entries + [Entry(up, DOTDOT)] == [Entry(n, DOT), Entry(up, DOTDOT)];
      }
    }

    lemma RootTaken()
      requires Valid() || NoRoot()
      ensures Whole() && g.Ok() && Counters(g, V()) && ROOT < g.inodeCnt
      ensures ROOT !in V().iused <==> NoRoot()
      ensures |V().inodes| == g.InodeCap() && 2 <= |V().iused| <= MAP_BITS
    {
      hide ViewOf, NamesAll, RefsOk, Owned;
      assert Counters(g, V());
      if Valid() {
        assert RootOk(T());
        assert ROOT in TreeOf(V(), -1);
        NodesInUse(g, V(), owner, ROOT);
      }
      assert ROOT in V().iused <==> ROOT in Upto(|V().iused|);
    }

    /** The inode number of the root directory, from the super block. */
    method RootINode() returns (n: nat)
      requires Rep()
      ensures n == ROOT
    {
      n := storage[SUPERB].sb.root;
    }

    /** The inode for a new directory: the root's, or the first free one. */
    method TakeDirINode(parent: nat) returns (o: Outcome, n: nat)
      requires Valid() || (parent == 0 && NoRoot())
      modifies this`storage
      ensures Rep()
      ensures o == Done ==> n == |old(V()).iused| && 2 <= n < g.inodeCnt && V() == TakeINode(old(V()), n)
      ensures o == Done <==> if parent != 0 then old(V()).db.ifree > 0 else old(NoRoot())
      ensures o == AssertFailed ==> parent == 0
      ensures o != Overrun
      ensures o == PastEnd || o == DiskFull ==> parent != 0
    {
      hide ViewOf, Layout, Sound, TreeOf, LinksOk;
      RootTaken();
      if parent != 0 {
        o, n := GetFreeINodeIdx();
      } else {
        n := RootINode();
        var ok := AllocateINodeIdx(n);
        o := if ok then Done else AssertFailed;
      }
    }

    /** Sets up the inode just taken as a directory without records. */
    method SetUpDir(n: nat, ghost v: View)
      requires Rep() && Sound(g, v, owner, -1) && n == |v.iused| && n < g.inodeCnt && V() == TakeINode(v, n)
      modifies this`storage
      ensures Rep() && IsFresh(n) && n < g.InodeCap() < TWO64 && V().inodes[n].nlink == 2
      ensures TreeOf(V(), n) == TreeOf(v, -1) && n !in TreeOf(v, -1)
      ensures V().iused == v.iused + {n} && V().used == v.used && V().db.avail == v.db.avail
    {
      hide ViewOf, Sound, TreeOf;
      assert g.Ok();
      NewDirStep(g, v, owner, n);
      var x := ReadINode(n);
      WriteINode(n, x.(kind := Directory, nlink := 2, size := 0, blocks := 0));
    }

    /** Takes an inode for a directory and sets it up, up to its dots. */
    method NewDirNode(parent: nat) returns (o: Outcome, n: nat)
      requires Valid() || (parent == 0 && NoRoot())
      requires parent < g.InodeCap()
      modifies this
      ensures Rep()
      ensures o == Done ==> Whole() && n == |old(V()).iused| && 2 <= n < g.InodeCap() < TWO64 && n !in old(T())
      ensures o == Done ==> T() == NewDir(old(T()), n, if parent != 0 then parent else n)
      ensures o == Done <==>
                (if parent != 0 then old(V()).db.ifree > 0 else old(NoRoot())) && !NoBlock(g, old(V()))
      ensures o != Overrun
      ensures o == Done ==> |V().used| == |old(V().used)| + 1 && |V().iused| == |old(V().iused)| + 1
      ensures o == AssertFailed ==> parent == 0 && !old(NoRoot())
    {
      hide ViewOf, Layout, Sound, TreeOf, LinksOk, Counters, Valid, NoRoot, IsFresh;
      RootTaken();
      ghost var v, t := V(), T();
      o, n := TakeDirINode(parent);
      if o == Done {
        SetUpDir(n, v);
        assert |V().iused| == |v.iused| + 1 by { NewInUse(v, n); }
        o := AddDots(n, if parent != 0 then parent else n, t);
      }
    }

    lemma NewInUse(v: View, n: nat)
      requires Counters(g, v) && n == |v.iused|
      ensures |v.iused + {n}| == |v.iused| + 1
    {
      assert n !in Upto(n);
    }

    /** Nothing stands in the way of MkDir: a block that the map covers is free,
        and there is no root yet, or else an inode is free and the parent has
        room for one more record. */
    ghost predicate RoomForDir(parent: nat, name: Name)
      reads this
      requires Whole()
    {
      && !NoBlock(g, V())
      && if parent == 0 then NoRoot()
         else V().db.ifree > 0 && CanInsert(NewDir(T(), |V().iused|, parent), parent, name)
    }

    /** MakeRoot (parent 0), or a new directory below `parent`. */
    method MkDir(parent: nat, name: Name) returns (o: Outcome, n: nat)
      requires Valid() || (parent == 0 && NoRoot())
      requires parent < g.InodeCap()
      modifies this
      ensures Rep()
      ensures o == Done ==> Valid() && n == |old(V()).iused| && n !in old(T())
      ensures o == Done && parent == 0 ==> T() == NewDir(map[], ROOT, ROOT)
      ensures o == Done && parent != 0 ==> CanInsert(NewDir(old(T()), n, parent), parent, name)
      ensures o == Done && parent != 0 ==> T() == AfterMkDir(old(T()), parent, n, name)
      ensures o == Done <==> old(RoomForDir(parent, name))
      ensures o == Overrun <==>
                parent != 0 && old(V()).db.ifree > 0 && !NoBlock(g, old(V())) && FullDir(old(T()), parent)
      ensures o == Done ==> |V().used| == |old(V().used)| + 1 && |V().iused| == |old(V().iused)| + 1
    {
      hide ViewOf, Layout, Sound, TreeOf, Space, Needed, NamesAll, RefsOk, RootOk;
      ghost var v, w, t := V(), owner, T();
      o, n := NewDirNode(parent);
      if o != Done {
        return;
      }
      if parent == 0 {
        RootLinks(g.InodeCap());
      } else {
        NewDirNotFull(t, n, parent, parent);
        o := AppendToDir(parent, n, name);
        if o == Done {
          if parent in t { NodesInUse(g, v, w, parent); }
          NodesInUse(g, V(), owner, parent);
          var up := ReadINode(parent);
          LinkStep(g, V(), owner, parent, (up.nlink + 1) % NLINK_MOD);
          WriteINode(parent, up.(nlink := (up.nlink + 1) % NLINK_MOD));
          MkDirKeepsLinks(t, g.InodeCap(), parent, n, name);
        }
      }
    }

    /* ----- a new file system ----- */

    /** The super block and the dynamic block are written; nothing is allocated. */
    ghost predicate Blank()
      reads this
    {
      Rep() && V() == BlankView(g)
    }

    method AllocateRange(first: nat, cnt: nat, ghost s: set<nat>) returns (ghost s': set<nat>)
      requires Rep() && s <= Upto(g.MetaEnd()) && V() == Taken(g, s)
      requires first + cnt <= g.MetaEnd() && forall b :: first <= b < first + cnt ==> b !in s
      modifies this`storage
      ensures Rep() && s' <= Upto(g.MetaEnd()) && V() == Taken(g, s')
      ensures forall b :: b in s' <==> b in s || first <= b < first + cnt
    {
      hide ViewOf, Taken, Upto;
      s' := s;
      for i := 0 to cnt
        invariant Rep() && s' <= Upto(g.MetaEnd()) && V() == Taken(g, s')
        invariant forall b :: b in s' <==> b in s || first <= b < first + i
      {
        assert V().used == s' by { TakenUsed(s'); }
        assert first + i < g.BitCnt();
        var ok := AllocateBlock(first + i);
        assert ok;   // no block is allocated twice
        TakeOne(g, s', first + i);
        s' := s' + {first + i};
      }
    }

    lemma TakenUsed(s: set<nat>)
      requires g.Ok() && s <= Upto(g.MetaEnd())
      ensures Taken(g, s).used == s
    {
    }

    /** The allocations CreateSuperBlock makes, in its order. */
    method AllocateMetadata()
      requires Blank()
      modifies this`storage
      ensures Rep() && g.Ok() && V() == TakeINode(TakeINode(Taken(g, Upto(g.MetaEnd())), 0), 1)
    {
      hide ViewOf, Upto;
      var sb := ReadSuper();
      ghost var s: set<nat> := {};
      assert V() == Taken(g, {});
      s := AllocateRange(0, 1, s);                      // sector 0
      s := AllocateRange(SUPERB, NC1NSUPER, s);         // the super blocks
      s := AllocateRange(sb.mapoff, sb.mapblks, s);     // the map
      s := AllocateRange(sb.dboff, 1, s);               // the dynamic block
      s := AllocateRange(sb.ireg.blk + sb.ireg.nblks, 1, s);   // the SFS block
      s := AllocateRange(sb.ireg.blk, sb.ireg.nblks, s);       // the inodes
      assert s == Upto(g.MetaEnd()) by { UptoHas(g.MetaEnd()); }
      var ok := AllocateINodeIdx(0);
      assert ok;
      ok := AllocateINodeIdx(1);
      assert ok;
    }

    lemma UptoHas(n: nat)
      ensures forall b :: b in Upto(n) <==> 0 <= b < n
    {
    }

    method ReadSuper() returns (sb: SuperBlock)
      requires Rep()
      ensures sb == SbOf(g) && g.Ok()
    {
      sb := storage[SUPERB].sb;
    }

    /** CreateSuperBlock, MakeRoot and the lost+found directory. */
    constructor (disk: nat, ratio: nat, lostFound: Name)
      requires 256 <= disk < 0x1_0000_0000 && ratio > 0 && 4 <= disk / ratio
      ensures Valid() && diskBlocks == disk && g == Geometry(disk, ratio)
      ensures T() == AfterMkDir(NewDir(map[], ROOT, ROOT), ROOT, ROOT + 1, lostFound)
      ensures |V().used| == g.MetaEnd() + 2 && |V().iused| == 4
    {
      hide ViewOf, Layout, Sound, TreeOf, Counters, LinksOk, Geometry, BlankStore, Geo.Ok;
      GeometryOk(disk, ratio);
      diskBlocks := disk;
      g := Geometry(disk, ratio);
      owner := map[];
      storage := BlankStore(Geometry(disk, ratio));
      new;
      StartBlank();
      AllocateMetadata();
      EmptyRoot();
      MakeTopDirs(lostFound);
    }

    lemma StartBlank()
      requires g.Ok() && storage == BlankStore(g) && diskBlocks == g.disk
      ensures Blank()
    {
      BlankIsBlank(g);
    }

    lemma EmptyRoot()
      requires Rep() && g.Ok() && V() == TakeINode(TakeINode(Taken(g, Upto(g.MetaEnd())), 0), 1) && owner == map[]
      ensures NoRoot() && |V().used| == g.MetaEnd()
    {
      hide ViewOf, Layout;
      EmptyImage(g);
    }

    /** MakeRoot and the first directory: enough room is left for both. */
    method MakeTopDirs(lostFound: Name)
      requires NoRoot() && |V().used| == g.MetaEnd()
      modifies this
      ensures Valid() && T() == AfterMkDir(NewDir(map[], ROOT, ROOT), ROOT, ROOT + 1, lostFound)
      ensures |V().used| == g.MetaEnd() + 2 && |V().iused| == 4
    {
      hide ViewOf, Layout, Sound, TreeOf, Counters, LinksOk, NewDir, AfterMkDir, NoBlock, CanInsert;
      RootTaken();
      RoomForTwo(g, V());
      var o, root := MkDir(0, []);
      RootTaken();
      RoomForTwo(g, V());
      RootHasRoom(lostFound);
      o, root := MkDir(root, lostFound);
    }

    static lemma RootHasRoom(name: Name)
      ensures CanInsert(NewDir(NewDir(map[], ROOT, ROOT), ROOT + 1, ROOT), ROOT, name)
    {
      DotEntries(ROOT, ROOT, ROOT);
    }
  }
}
