/** The blocked-dataset file of ds_edit: `DataSet_c`, writing through a block
    buffer and reading with a file position, and the create and extract loops. */
module DataSets {
  import opened Bits
  import opened DsWords
  import opened DsLayout
  import opened DsReader
  import opened DsExtract

  /** A read result with xs put in front. */
  function Prepend<T>(xs: seq<T>, r: Read<seq<T>>): Read<seq<T>> {
    match r
    case Got(ys, p) => Got(xs + ys, p)
    case Failed(e) => Failed(e)
  }

  lemma PrependTwice<T>(xs: seq<T>, ys: seq<T>, r: Read<seq<T>>)
    ensures Prepend(xs, Prepend(ys, r)) == Prepend(xs + ys, r)
  {
    if r.Got? {
      assert xs + ys + r.value == xs + (ys + r.value);
    }
  }

  lemma PrependNone<T>(r: Read<seq<T>>)
    ensures Prepend([], r) == r
  {
    if r.Got? {
      assert [] + r.value == r.value;
    }
  }

  class DataSet {
    var file: File               // the words on disk
    var pos: nat                 // where the next word is read
    const block: array<Word>     // the block being filled
    var blockOfs: nat
    var blockCnt: nat
    var fileStart: nat
    var recordStart: nat
    var lastCtrlWord: Word       // held back until its forward index is known

    ghost predicate Rep()
      reads this`file, this`blockOfs, this`blockCnt, this`fileStart
    {
      block.Length == BLOCK && blockOfs <= BLOCK && |file| == BLOCK * blockCnt && fileStart <= blockCnt
    }

    ghost predicate Ready()
      reads this`file, this`blockOfs, this`blockCnt, this`fileStart
    {
      Rep() && blockOfs < BLOCK
    }

    /** Everything written so far, without the control word held back. */
    ghost function Out(): File
      requires Rep()
      reads this`file, this`blockOfs, this`blockCnt, this`fileStart, block
    {
      file + block[..blockOfs]
    }

    /** Where the control word held back will stand. */
    ghost function Here(): Place
      reads this`blockOfs, this`blockCnt
    {
      Place(blockCnt, blockOfs)
    }

    /** The words up to the end of a record whose rest is still to come. */
    ghost function With(rest: seq<byte>): File
      requires Ready()
      reads this`file, this`blockOfs, this`blockCnt, this`fileStart, this`lastCtrlWord, block
    {
      hide Lay, Pack;
      Out() + Lay(Here(), lastCtrlWord, Pack(rest))
    }

    /** And where the mark behind it will stand. */
    ghost function Ends(rest: seq<byte>): Place
      requires Ready()
      reads this`file, this`blockOfs, this`blockCnt, this`fileStart
    {
      hide After, Pack;
      After(Here(), |Pack(rest)|)
    }

    /** The file there will be if only the given calls are still to come. */
    ghost function Final(calls: seq<Call>): File
      requires Ready()
      reads this, block
    {
      Out() + Render(Here(), lastCtrlWord, fileStart, calls)
    }

    /** Open for writing. */
    constructor ()
      ensures Ready() && fresh(block) && Out() == [] && Here() == Start()
      ensures lastCtrlWord == BlockWord(0) && fileStart == 0
    {
      hide BlockWord, GetBitsReverse, SetBitsReverse, Pow2, Kind, Forward, BlockNumber, SameFields;
      file, pos := [], 0;
      block := new Word[BLOCK](_ => 0);
      blockOfs, blockCnt, fileStart, recordStart := 0, 0, 0, 0;
      lastCtrlWord := BlockWord(0);
    }

    /** Open an existing file for reading. */
    constructor Open(words: File)
      ensures file == words && pos == 0 && fresh(block)
    {
      file, pos := words, 0;
      block := new Word[BLOCK](_ => 0);
      blockOfs, blockCnt, fileStart, recordStart, lastCtrlWord := 0, 0, 0, 0, 0;
    }

    /* ----- writing ----- */

    method WriteBlock(full: bool)
      requires Rep() && (full ==> blockOfs == BLOCK)
      modifies this`file, this`blockCnt, this`blockOfs, block
      ensures file == old(Out()) && blockCnt == old(blockCnt) + 1 && blockOfs == 0
      ensures forall i :: 0 <= i < block.Length ==> block[i] == 0
    {
      file := file + if full then block[..] else block[..blockOfs];
      forall i | 0 <= i < block.Length {
        block[i] := 0;
      }
      blockCnt := blockCnt + 1;
      blockOfs := 0;
    }

    /** Writes the control word held back, with its forward index, and the data
        behind it. */
    method PutChunk(d: seq<Word>)
      requires Rep() && blockOfs + 1 + |d| <= BLOCK
      modifies this`lastCtrlWord, this`blockOfs, block
      ensures Rep() && Out() == old(Out()) + [SetForward(old(lastCtrlWord), |d|)] + d
      ensures blockOfs == old(blockOfs) + 1 + |d|
    {
      hide SetForward, GetBitsReverse, SetBitsReverse, Pow2, Kind, Forward, BlockNumber, SameFields;
      lastCtrlWord := SetForward(lastCtrlWord, |d|);
      block[blockOfs] := lastCtrlWord;
      lastCtrlWord := 0;
      blockOfs := blockOfs + 1;
      forall i | 0 <= i < |d| {
        block[blockOfs + i] := d[i];
      }
      blockOfs := blockOfs + |d|;
    }

    /** When the block is full: writes it and starts the next one. */
    method NextBlock()
      requires Rep() && blockOfs > 0
      modifies this`file, this`blockCnt, this`blockOfs, block
      ensures Ready()
      ensures Out() == old(Out()) + (if old(blockOfs) == BLOCK then [BlockWord(old(blockCnt) + 1)] else [])
      ensures Here() == if old(blockOfs) == BLOCK then Place(old(blockCnt) + 1, 1) else old(Here())
    {
      hide BlockWord, GetBitsReverse, SetBitsReverse, Pow2, Kind, Forward, BlockNumber, SameFields;
      if blockOfs == block.Length {
        WriteBlock(true);
        block[blockOfs] := BlockWord(blockCnt);
        blockOfs := blockOfs + 1;
      }
    }

    /** The last piece of a record, and the end of record held back. */
    method PutLast(rest: seq<byte>)
      requires Ready() && recordStart <= blockCnt && |Pack(rest)| <= Here().Room()
      modifies this`file, this`blockCnt, this`blockOfs, this`lastCtrlWord, block
      ensures Ready() && Out() == old(With(rest)) && Here() == old(Ends(rest))
      ensures recordStart <= blockCnt
      ensures lastCtrlWord == MarkWord(EOR, Padding(Record(rest)), blockCnt - fileStart, blockCnt - recordStart)
    {
      hide SetForward, BlockWord, MarkWord, Pack, Lay, After, GetBitsReverse, SetBitsReverse, Pow2, Kind,
        Forward, BlockNumber, SameFields;
      LayLast(Here(), lastCtrlWord, Pack(rest));
      PutChunk(Pack(rest));
      NextBlock();
      var unused := ((|rest| + 7) / 8 * 8 - |rest|) * 8;
      lastCtrlWord := MarkWord(EOR, unused, blockCnt - fileStart, blockCnt - recordStart);
    }

    /** A piece of a record that fills the block, and the block control word of
        the next block held back. */
    method PutFull(rest: seq<byte>, n: nat)
      requires Ready() && n == Here().Room() && 8 * n <= |rest| && |Pack(rest)| > n
      modifies this`file, this`blockCnt, this`blockOfs, this`lastCtrlWord, block
      ensures Ready() && blockOfs == 0 && blockCnt == old(blockCnt) + 1
      ensures With(rest[8 * n..]) == old(With(rest)) && Ends(rest[8 * n..]) == old(Ends(rest))
    {
      hide SetForward, BlockWord, MarkWord, Pack, Lay, After, GetBitsReverse, SetBitsReverse, Pow2, Kind,
        Forward, BlockNumber, SameFields;
      LayPiece(Out(), Here(), lastCtrlWord, rest, n);
      PutChunk(Pack(rest[..8 * n]));
      WriteBlock(true);
      lastCtrlWord := BlockWord(blockCnt);
    }

    method WriteRecord(record: seq<byte>)
      requires Ready()
      modifies this`file, this`blockCnt, this`blockOfs, this`recordStart, this`lastCtrlWord, block
      ensures Ready() && Out() == old(With(record)) && Here() == old(Ends(record))
      ensures lastCtrlWord == Mark(Record(record), old(Here()), Here(), fileStart)
    {
      hide SetForward, BlockWord, MarkWord, Pack, Lay, With, Ends, GetBitsReverse, SetBitsReverse, Pow2, Kind,
        Forward, BlockNumber, SameFields;
      var recordOfs := 0;
      recordStart := blockCnt;
      assert record[0..] == record;
      while true
        invariant Ready() && recordOfs <= |record| && recordOfs % 8 == 0 && recordStart == old(blockCnt) <= blockCnt
        invariant With(record[recordOfs..]) == old(With(record)) && Ends(record[recordOfs..]) == old(Ends(record))
        decreases |record| - recordOfs, if blockOfs == BLOCK - 1 then 1 else 0
      {
        var recordLeft := |record| - recordOfs;
        var blockLeft := 8 * (block.Length - blockOfs);
        var roundedRecordLeft := (recordLeft + 7) / 8 * 8;
        if roundedRecordLeft <= blockLeft - 8 {
          PadRest(record, recordOfs);
          PutLast(record[recordOfs..]);
          break;
        } else {
          var n := blockLeft / 8 - 1;
          PutFull(record[recordOfs..], n);
          assert record[recordOfs..][8 * n..] == record[recordOfs + 8 * n..];
          recordOfs := recordOfs + 8 * n;
        }
      }
    }

    static lemma PadRest(r: seq<byte>, k: nat)
      requires k <= |r| && k % 8 == 0
      ensures Padding(Record(r[k..])) == Padding(Record(r))
    {
    }

    method WriteEof()
      requires Ready()
      modifies this`file, this`blockCnt, this`blockOfs, this`fileStart, this`lastCtrlWord, block
      ensures Ready() && Out() == old(With([])) && Here() == old(Ends([])) && fileStart == blockCnt
      ensures lastCtrlWord == Mark(EndFile, old(Here()), Here(), old(fileStart))
    {
      hide SetForward, BlockWord, MarkWord, GetBitsReverse, SetBitsReverse, Pow2, Kind, Forward, BlockNumber,
        SameFields;
      PutChunk([]);
      NextBlock();
      lastCtrlWord := MarkWord(EOF, 0, blockCnt - fileStart, 0);
      fileStart := blockCnt;
    }

    /** One more call: what the rest of the calls make of the file is known
        beforehand. */
    lemma Closing(out: File, at: Place, cw: Word, fs: nat, c: Call, rest: seq<Call>)
      requires Ready() && at.Ok() && fs <= at.block
      requires Out() == out + Lay(at, cw, Payload(c)) && Here() == After(at, |Payload(c)|)
      requires lastCtrlWord == Mark(c, at, Here(), fs) && fileStart == FileStart(c, Here(), fs)
      ensures Final(rest) == out + Render(at, cw, fs, [c] + rest)
    {
      hide Lay, Mark, Payload, FileStart, After, Render;
      RenderCons(at, cw, fs, c, rest);
    }

    method AddRecord(record: seq<byte>, ghost rest: seq<Call>)
      requires Ready()
      modifies this, block
      ensures Ready() && Final(rest) == old(Final([Record(record)] + rest))
    {
      hide Lay, Mark, After, Render, Pack, GetBitsReverse, SetBitsReverse;
      ghost var out, at, cw, fs := Out(), Here(), lastCtrlWord, fileStart;
      assert Payload(Record(record)) == Pack(record);
      WriteRecord(record);
      Closing(out, at, cw, fs, Record(record), rest);
    }

    method AddEof(ghost rest: seq<Call>)
      requires Ready()
      modifies this, block
      ensures Ready() && Final(rest) == old(Final([EndFile] + rest))
    {
      hide Lay, Mark, After, Render, GetBitsReverse, SetBitsReverse;
      ghost var out, at, cw, fs := Out(), Here(), lastCtrlWord, fileStart;
      assert Pack([]) == [] && Payload(EndFile) == [];
      WriteEof();
      Closing(out, at, cw, fs, EndFile, rest);
    }

    /** Closing the file. */
    method Flush()
      requires Ready()
      modifies this, block
      ensures file == old(Final([EndData]))
    {
      hide Lay, Mark, After, Render, MarkWord, BlockWord, SetForward, GetBitsReverse, SetBitsReverse, Pow2, Kind,
        Forward, BlockNumber, SameFields;
      ghost var out, at, cw, fs := Out(), Here(), lastCtrlWord, fileStart;
      LayLast(at, cw, []);
      PutChunk([]);
      NextBlock();
      assert Payload(EndData) == [];
      lastCtrlWord := MarkWord(EOD, 0, 0, 0);
      MarkOfEnd(at, Here(), fs);
      assert [EndData] + [] == [EndData];
      Closing(out, at, cw, fs, EndData, []);
      RenderNone(Here(), lastCtrlWord, fileStart);
      PutEnd();
    }

    /** The last control word, and the part of the block that is used. */
    method PutEnd()
      requires Ready()
      modifies this, block
      ensures file == old(Out()) + [old(lastCtrlWord)]
    {
      block[blockOfs] := lastCtrlWord;
      lastCtrlWord := 0;
      blockOfs := blockOfs + 1;
      WriteBlock(false);
    }

    static lemma MarkOfEnd(p: Place, e: Place, fs: nat)
      requires fs <= p.block <= e.block
      ensures Mark(EndData, p, e, fs) == MarkWord(EOD, 0, 0, 0)
    {
      hide MarkWord;
    }

    static lemma RenderNone(at: Place, cw: Word, fs: nat)
      requires at.Ok() && fs <= at.block
      ensures Render(at, cw, fs, []) == [cw]
    {
    }

    /* ----- reading ----- */

    /** The next record; the position is left before its end of record. */
    method ReadRecord() returns (r: Read<RecordBytes>)
      modifies this`pos
      ensures r == ReadRecordAt(file, old(pos))
      ensures r.Got? ==> pos == r.pos
    {
      hide Kind, Forward, Unused, Unpack, Gather, Prepend;
      if pos >= |file| {
        return Failed(CantRead);
      }
      var ctrlWord, record: seq<Word> := file[pos], [];
      pos := pos + 1;
      ghost var all := Gather(file, old(pos));
      PrependNone(all);
      while true
        invariant old(pos) < pos <= |file| && ctrlWord == file[pos - 1]
        invariant all == Prepend(record, Gather(file, pos - 1))
        decreases |file| - pos
      {
        GatherStep(file, pos - 1, record);
        if Kind(ctrlWord) == EOD {
          return Failed(EndOfDataset);
        } else if Kind(ctrlWord) != BCW && Kind(ctrlWord) != EOR && Kind(ctrlWord) != EOF {
          return Failed(UnknownWord);
        }
        var n := Forward(ctrlWord);
        if n > |file| - pos {
          return Failed(CantRead);
        }
        var data := file[pos..pos + n];
        if pos + n == |file| {
          return Failed(CantRead);
        }
        record := record + data;
        pos := pos + n;
        ctrlWord := file[pos];
        pos := pos + 1;
        if Kind(ctrlWord) == EOR {
          break;
        }
      }
      UnusedFits(ctrlWord);
      var bytes := Unpack(record);
      if |bytes| >= 8 {
        bytes := bytes[..|bytes| - Unused(ctrlWord) / 8];
      }
      pos := pos - 1;
      r := Got(bytes, pos);
    }

    /** One turn of the reading loop, how it fails and how it goes on. */
    static lemma GatherStep(f: File, p: nat, record: seq<Word>)
      requires p < |f|
      ensures var q, k := p + 1 + Forward(f[p]), Kind(f[p]);
        Prepend(record, Gather(f, p)) ==
          if k == EOD then Failed(EndOfDataset)
          else if k !in {BCW, EOR, EOF} then Failed(UnknownWord)
          else if q >= |f| then Failed(CantRead)
          else if Kind(f[q]) == EOR then Got(record + f[p + 1..q], q)
          else Prepend(record + f[p + 1..q], Gather(f, q))
    {
      hide Kind, Forward;
      var q := p + 1 + Forward(f[p]);
      if Kind(f[p]) in {BCW, EOR, EOF} && q < |f| && Kind(f[q]) != EOR {
        assert Gather(f, p) == Prepend(f[p + 1..q], Gather(f, q));
        PrependTwice(record, f[p + 1..q], Gather(f, q));
      }
    }

    method IsEof() returns (r: Read<bool>)
      modifies this`pos
      ensures r == IsEofAt(file, old(pos))
      ensures r.Got? ==> pos == r.pos
    {
      hide Kind;
      if pos >= |file| {
        return Failed(CantRead);
      }
      var ctrlWord := file[pos];
      pos := pos + 1;
      var retVal := Kind(ctrlWord) == EOF;
      if Kind(ctrlWord) == EOR {
        if pos >= |file| {
          return Failed(CantRead);
        }
        ctrlWord := file[pos];
        pos := pos + 1;
        if Kind(ctrlWord) == EOF {
          retVal := true;
        } else {
          pos := pos - 1;
        }
      }
      pos := pos - 1;
      r := Got(retVal, pos);
    }

    method IsEod() returns (r: Read<bool>)
      modifies this`pos
      ensures r == IsEodAt(file, old(pos))
      ensures r.Got? ==> pos == r.pos
    {
      hide Kind;
      if pos >= |file| {
        return Failed(CantRead);
      }
      var ctrlWord := file[pos];
      pos := pos + 1;
      var retVal := Kind(ctrlWord) == EOD;
      if Kind(ctrlWord) == EOF {
        if pos >= |file| {
          return Failed(CantRead);
        }
        ctrlWord := file[pos];
        pos := pos + 1;
        if Kind(ctrlWord) == EOD {
          retVal := true;
        } else {
          pos := pos - 1;
        }
      }
      pos := pos - 1;
      r := Got(retVal, pos);
    }

    /** The extraction loop for one file. */
    method ExtractFile() returns (r: Read<FileRecords>)
      modifies this`pos
      ensures r == ExtractFileAt(file, old(pos))
      ensures r.Got? ==> pos == r.pos
    {
      hide ReadRecordAt, IsEofAt, Prepend, ExtractFileAt;
      var records: FileRecords := [];
      PrependNone(ExtractFileAt(file, pos));
      while true
        invariant ExtractFileAt(file, old(pos)) == Prepend(records, ExtractFileAt(file, pos))
        decreases |file| - pos
      {
        ExtractFileStep(file, pos, records);
        var record := ReadRecord();
        if record.Failed? {
          return Failed(record.error);
        }
        records := records + [record.value];
        var eof := IsEof();
        if eof.Failed? {
          return Failed(eof.error);
        }
        if eof.value {
          break;
        }
      }
      r := Got(records, pos);
    }

    static lemma ExtractFileStep(f: File, p: nat, records: FileRecords)
      ensures Prepend(records, ExtractFileAt(f, p)) ==
        match ReadRecordAt(f, p)
        case Failed(e) => Failed(e)
        case Got(r, q) =>
          match IsEofAt(f, q)
          case Failed(e) => Failed(e)
          case Got(true, m) => Got(records + [r], m)
          case Got(false, _) => Prepend(records + [r], ExtractFileAt(f, q))
    {
      hide ReadRecordAt, IsEofAt;
      var r := ReadRecordAt(f, p);
      if r.Got? && IsEofAt(f, r.pos).Got? && !IsEofAt(f, r.pos).value {
        assert ExtractFileAt(f, p) == Prepend([r.value], ExtractFileAt(f, r.pos));
        PrependTwice(records, [r.value], ExtractFileAt(f, r.pos));
      }
    }

    /** The extraction loop for all files. */
    method Extract() returns (r: Read<seq<FileRecords>>)
      modifies this`pos
      ensures r.Got? <==> ExtractAt(file, 0).Got?
      ensures r.Got? ==> r.value == ExtractAt(file, 0).value
      ensures r.Failed? ==> r == ExtractAt(file, 0)
    {
      hide ExtractFileAt, IsEodAt, Prepend, ExtractAt;
      pos := 0;
      var files: seq<FileRecords> := [];
      PrependNone(ExtractAt(file, pos));
      while true
        invariant ExtractAt(file, 0) == Prepend(files, ExtractAt(file, pos))
        decreases |file| - pos
      {
        ExtractStep(file, pos, files);
        var records := ExtractFile();
        if records.Failed? {
          return Failed(records.error);
        }
        files := files + [records.value];
        var eod := IsEod();
        if eod.Failed? {
          return Failed(eod.error);
        }
        if eod.value {
          break;
        }
      }
      pos := 0;
      r := Got(files, pos);
    }

    static lemma ExtractStep(f: File, p: nat, files: seq<FileRecords>)
      ensures Prepend(files, ExtractAt(f, p)) ==
        match ExtractFileAt(f, p)
        case Failed(e) => Failed(e)
        case Got(rs, q) =>
          match IsEodAt(f, q)
          case Failed(e) => Failed(e)
          case Got(true, m) => Got(files + [rs], m)
          case Got(false, _) => Prepend(files + [rs], ExtractAt(f, q))
    {
      hide ExtractFileAt, IsEodAt;
      var r := ExtractFileAt(f, p);
      if r.Got? && IsEodAt(f, r.pos).Got? && !IsEodAt(f, r.pos).value {
        assert ExtractAt(f, p) == Prepend([r.value], ExtractAt(f, r.pos));
        PrependTwice(files, [r.value], ExtractAt(f, r.pos));
      }
    }
  }
}
