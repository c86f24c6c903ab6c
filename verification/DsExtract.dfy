/** Extracting all files of a dataset, and exactly when that gives back the
    files it was created from. */
module DsExtract {
  import opened DsWords
  import opened DsLayout
  import opened DsStructure
  import opened DsReader

  type FileRecords = seq<RecordBytes>

  /* ----- the look-ahead ----- */

  /** Is the mark at p the end of a file?  Looks at p, and behind an end of
      record also at the next word of the disk file. */
  function IsEofAt(f: File, p: nat): (r: Read<bool>)
    ensures r.Got? ==> (r.pos == p || (r.value && r.pos == p + 1)) && r.pos < |f|
  {
    hide Kind;
    if p >= |f| then Failed(CantRead)
    else if Kind(f[p]) == EOF then Got(true, p)
    else if Kind(f[p]) != EOR then Got(false, p)
    else if p + 1 >= |f| then Failed(CantRead)
    else if Kind(f[p + 1]) == EOF then Got(true, p + 1)
    else Got(false, p)
  }

  function IsEodAt(f: File, p: nat): (r: Read<bool>)
    ensures r.Got? ==> (r.pos == p || (r.value && r.pos == p + 1)) && r.pos < |f|
  {
    hide Kind;
    if p >= |f| then Failed(CantRead)
    else if Kind(f[p]) == EOD then Got(true, p)
    else if Kind(f[p]) != EOF then Got(false, p)
    else if p + 1 >= |f| then Failed(CantRead)
    else if Kind(f[p + 1]) == EOD then Got(true, p + 1)
    else Got(false, p)
  }

  /* ----- the extraction loops ----- */

  /** The records of one file: ReadRecord until IsEof. */
  function ExtractFileAt(f: File, p: nat): (r: Read<FileRecords>)
    ensures r.Got? ==> p < r.pos < |f| && r.value != []
    decreases |f| - p
  {
    hide ReadRecordAt;
    match ReadRecordAt(f, p)
    case Failed(e) => Failed(e)
    case Got(r, q) =>
      match IsEofAt(f, q)
      case Failed(e) => Failed(e)
      case Got(true, m) => Got([r], m)
      case Got(false, _) =>
        match ExtractFileAt(f, q)
        case Failed(e) => Failed(e)
        case Got(rs, m) => Got([r] + rs, m)
  }

  /** All files: the records of one file until IsEod. */
  function ExtractAt(f: File, p: nat): (r: Read<seq<FileRecords>>)
    ensures r.Got? ==> r.value != []
    decreases if p <= |f| then |f| - p else 0
  {
    hide ReadRecordAt;
    match ExtractFileAt(f, p)
    case Failed(e) => Failed(e)
    case Got(rs, q) =>
      match IsEodAt(f, q)
      case Failed(e) => Failed(e)
      case Got(true, m) => Got([rs], m)
      case Got(false, _) =>
        match ExtractAt(f, q)
        case Failed(e) => Failed(e)
        case Got(fs, m) => Got([rs] + fs, m)
  }

  /* ----- when it works ----- */

  /** The calls that write a list of files. */
  function FileCalls(files: seq<FileRecords>): seq<Call> {
    if files == [] then [] else RecordCalls(files[0]) + [EndFile] + FileCalls(files[1..])
  }

  /** The first byte of a record, seen as a control word, is no mark of the
      given kind, or the word behind the mark at `at` is no data. */
  predicate NotTaken(at: Place, r: RecordBytes, kind: nat) {
    at.Room() == 0 || r == [] || r[0] / 16 != kind
  }

  /** No end of record that closes the file is the last word of a block, and no
      later record looks like an end of file. */
  predicate SafeRecords(at: Place, rs: FileRecords)
    requires at.Ok() && rs != []
    decreases |rs|
  {
    var e := After(at, |Pack(rs[0])|);
    if |rs| == 1 then e.Room() != 0
    else NotTaken(e, rs[1], EOF) && SafeRecords(e, rs[1..])
  }

  /** Where the end-of-file word of the file that starts behind `at` stands. */
  function EofPlace(at: Place, rs: FileRecords): (q: Place)
    requires at.Ok()
    ensures q.Ok()
  {
    After(LastMark(at, rs), 0)
  }

  predicate NonEmpty(files: seq<FileRecords>) {
    files != [] && forall k :: 0 <= k < |files| ==> files[k] != []
  }

  /** And no final end of file is the last word of a block, and no first record
      of a later file looks like an end of data. */
  predicate SafeFiles(at: Place, files: seq<FileRecords>)
    requires at.Ok() && NonEmpty(files)
    decreases |files|
  {
    && SafeRecords(at, files[0])
    && var q := EofPlace(at, files[0]);
       if |files| == 1 then q.Room() != 0
       else NotTaken(q, files[1][0], EOD) && SafeFiles(q, files[1..])
  }

  /* ----- what the look-ahead sees ----- */

  /** The word behind the mark at `at`, with call c to follow. */
  lemma PeekKind(f: File, at: Place, c: Call)
    requires at.Ok() && Follows(f, at, c)
    ensures at.Index() + 1 < |f|
    ensures var k := Kind(f[at.Index() + 1]);
      if at.Room() == 0 then k == BCW
      else if c.Record? && c.bytes != [] then k == c.bytes[0] / 16
      else k == KindOf(c)
  {
    hide Kind, Unused, Next;
    if at.Room() != 0 {
      if Payload(c) != [] {
        FirstNibble(c.bytes);
      } else {
        assert After(at, 0) == Place(at.block, at.ofs + 1);
      }
    }
  }

  lemma EofSeen(f: File, at: Place, c: Call)
    requires at.Ok() && at.Index() < |f| && Kind(f[at.Index()]) == EOR && Follows(f, at, c) && !c.EndData?
    ensures IsEofAt(f, at.Index()) ==
      (if at.Room() != 0 && (c.EndFile? || (c.Record? && !NotTaken(at, c.bytes, EOF)))
       then Got(true, at.Index() + 1) else Got(false, at.Index()))
  {
    PeekKind(f, at, c);
    hide Kind, Unused, Next, Follows;
  }

  lemma EodSeen(f: File, at: Place, c: Call)
    requires at.Ok() && at.Index() < |f| && Kind(f[at.Index()]) == EOF && Follows(f, at, c) && !c.EndFile?
    ensures IsEodAt(f, at.Index()) ==
      (if at.Room() != 0 && (c.EndData? || (c.Record? && !NotTaken(at, c.bytes, EOD)))
       then Got(true, at.Index() + 1) else Got(false, at.Index()))
  {
    PeekKind(f, at, c);
    hide Kind, Unused, Next, Follows;
  }

  /* ----- one file ----- */

  /** Extracting a file starts with its first record; what comes then depends
      on the look-ahead. */
  lemma FirstRecord(f: File, at: Place, rs: FileRecords, rest: seq<Call>)
    requires rs != [] && Holds(f, at, RecordCalls(rs) + [EndFile] + rest)
    requires Kind(f[at.Index()]) in {BCW, EOR, EOF}
    ensures var e := After(at, |Pack(rs[0])|);
      && e.Index() < |f| && Kind(f[e.Index()]) == EOR
      && ReadRecordAt(f, at.Index()) == Got(rs[0], e.Index())
      && Holds(f, e, RecordCalls(rs[1..]) + [EndFile] + rest)
  {
    hide Holds, Follows, Pack, After, Kind, ReadRecordAt;
    assert RecordCalls(rs) + [EndFile] + rest == RecordCalls(rs) + ([EndFile] + rest);
    assert RecordCalls(rs[1..]) + [EndFile] + rest == RecordCalls(rs[1..]) + ([EndFile] + rest);
    HoldsHead(f, at, rs, [EndFile] + rest);
    ReadsRecord(f, at, rs[0]);
    FollowsMark(f, at, Record(rs[0]));
  }

  /** The call behind the records so far. */
  lemma NextCall(f: File, e: Place, rs: FileRecords, rest: seq<Call>)
    requires Holds(f, e, RecordCalls(rs) + [EndFile] + rest)
    ensures e.Ok() && e.Index() < |f|
    ensures Follows(f, e, if rs == [] then EndFile else Record(rs[0]))
    ensures rs == [] ==> Holds(f, After(e, 0), rest) && Kind(f[After(e, 0).Index()]) == EOF
  {
    hide Follows, After, Kind;
    var calls := RecordCalls(rs) + [EndFile] + rest;
    assert calls[0] == if rs == [] then EndFile else Record(rs[0]);
    if rs == [] {
      assert calls[1..] == rest && Payload(EndFile) == [];
      FollowsMark(f, e, EndFile);
    }
  }

  /** The file comes out as it went in, if and only if it is safe. */
  lemma {:induction false} FileExtracted(f: File, at: Place, rs: FileRecords, rest: seq<Call>)
    requires rs != [] && Holds(f, at, RecordCalls(rs) + [EndFile] + rest)
    requires Kind(f[at.Index()]) in {BCW, EOR, EOF}
    ensures SafeRecords(at, rs) ==> ExtractFileAt(f, at.Index()) == Got(rs, EofPlace(at, rs).Index())
    ensures !SafeRecords(at, rs) ==> ExtractFileAt(f, at.Index()).Failed? || ExtractFileAt(f, at.Index()).value != rs
    decreases |rs|
  {
    hide Follows, Pack, Kind, After, ReadRecordAt, NotTaken, IsEofAt;
    FirstRecord(f, at, rs, rest);
    var e := After(at, |Pack(rs[0])|);
    NextCall(f, e, rs[1..], rest);
    if |rs| == 1 {
      assert rs == [rs[0]] && rs[1..] == [];
      EofSeen(f, e, EndFile);
      if e.Room() != 0 {
        OneOn(e);
      }
    } else {
      EofSeen(f, e, Record(rs[1]));
      NotTakenRoom(e, rs[1]);
      FileExtracted(f, e, rs[1..], rest);
      assert rs == [rs[0]] + rs[1..];
      assert EofPlace(at, rs) == EofPlace(e, rs[1..]);
      if NotTaken(e, rs[1], EOF) {
        var r := ExtractFileAt(f, e.Index());
        if r.Got? {
          assert ([rs[0]] + r.value)[1..] == r.value;
        }
        assert SafeRecords(at, rs) == SafeRecords(e, rs[1..]);
        assert ExtractFileAt(f, at.Index()) == if r.Got? then Got([rs[0]] + r.value, r.pos) else r;
      } else {
        assert ExtractFileAt(f, at.Index()) == Got([rs[0]], e.Index() + 1);
      }
    }
  }

  lemma OneOn(e: Place)
    requires e.Ok() && e.Room() != 0
    ensures After(e, 0).Index() == e.Index() + 1
  {
  }

  lemma NotTakenRoom(at: Place, r: RecordBytes)
    ensures !NotTaken(at, r, EOF) ==> at.Room() != 0
  {
  }

  /* ----- all files ----- */

  /** How a list of files starts. */
  lemma FileCallsHead(files: seq<FileRecords>)
    requires files != []
    ensures FileCalls(files) + [EndData] == RecordCalls(files[0]) + [EndFile] + (FileCalls(files[1..]) + [EndData])
  {
  }

  lemma FileCallsNext(files: seq<FileRecords>)
    requires NonEmpty(files)
    ensures FileCalls(files) != [] && FileCalls(files)[0] == Record(files[0][0])
  {
    assert RecordCalls(files[0])[0] == Record(files[0][0]);
  }

  /** Behind the records of a file stands its end-of-file word. */
  lemma {:induction false} BehindFile(f: File, at: Place, rs: FileRecords, rest: seq<Call>)
    requires Holds(f, at, RecordCalls(rs) + [EndFile] + rest)
    ensures at.Ok() && EofPlace(at, rs).Index() < |f| && Kind(f[EofPlace(at, rs).Index()]) == EOF
    ensures Holds(f, EofPlace(at, rs), rest)
    decreases |rs|
  {
    hide Follows, Pack, Kind, After;
    if rs == [] {
      NextCall(f, at, rs, rest);
    } else {
      var calls := RecordCalls(rs) + [EndFile] + rest;
      assert calls[0] == Record(rs[0]) && calls[1..] == RecordCalls(rs[1..]) + [EndFile] + rest;
      BehindFile(f, After(at, |Pack(rs[0])|), rs[1..], rest);
    }
  }

  /** What IsEod answers behind the first of the files. */
  lemma EodAnswer(f: File, q: Place, files: seq<FileRecords>)
    requires q.Ok() && q.Index() < |f| && Kind(f[q.Index()]) == EOF
    requires files == [] || NonEmpty(files)
    requires Holds(f, q, FileCalls(files) + [EndData])
    ensures var r := IsEodAt(f, q.Index());
      r.Got? && (r.value <==> q.Room() != 0 && (files == [] || !NotTaken(q, files[0][0], EOD)))
      && (!r.value ==> r.pos == q.Index())
  {
    hide Follows, Kind, NotTaken, IsEodAt;
    var calls := FileCalls(files) + [EndData];
    if files == [] {
      assert calls[0] == EndData;
    } else {
      FileCallsNext(files);
      assert calls[0] == Record(files[0][0]);
    }
    EodSeen(f, q, calls[0]);
  }

  lemma NotTakenEod(at: Place, r: RecordBytes)
    ensures !NotTaken(at, r, EOD) ==> at.Room() != 0
  {
  }

  /** All files come out as they went in, if and only if they are safe. */
  lemma {:induction false} FilesExtracted(f: File, at: Place, files: seq<FileRecords>)
    requires NonEmpty(files) && Holds(f, at, FileCalls(files) + [EndData])
    requires Kind(f[at.Index()]) in {BCW, EOF}
    ensures at.Ok()
    ensures var r := ExtractAt(f, at.Index());
      SafeFiles(at, files) <==> r.Got? && r.value == files
    decreases |files|
  {
    hide Follows, Kind, NotTaken, IsEodAt, SafeRecords, EofPlace, FileCalls, Holds;
    var rest := FileCalls(files[1..]) + [EndData];
    FileCallsHead(files);
    FileExtracted(f, at, files[0], rest);
    BehindFile(f, at, files[0], rest);
    var q := EofPlace(at, files[0]);
    EodAnswer(f, q, files[1..]);
    assert files == [files[0]] + files[1..];
    if SafeRecords(at, files[0]) && |files| > 1 {
      NotTakenEod(q, files[1][0]);
      FilesExtracted(f, q, files[1..]);
    }
  }

  /** Extracting never gives a file without records. */
  lemma {:induction false} ExtractedNonEmpty(f: File, p: nat)
    ensures ExtractAt(f, p).Got? ==> NonEmpty(ExtractAt(f, p).value)
    decreases if p <= |f| then |f| - p else 0
  {
    hide ReadRecordAt, IsEodAt;
    var r := ExtractFileAt(f, p);
    if r.Got? && IsEodAt(f, r.pos) == Got(false, r.pos) {
      ExtractedNonEmpty(f, r.pos);
    }
  }

  /** The whole program: creating a dataset from a list of files, and extracting
      it, gives back the same files exactly when all of them have records and
      they are safe. */
  predicate RoundTrips(files: seq<FileRecords>) {
    var r := ExtractAt(Dataset(FileCalls(files)), 0);
    r.Got? && r.value == files
  }

  lemma ExtractOfCreate(files: seq<FileRecords>)
    ensures RoundTrips(files) <==> NonEmpty(files) && SafeFiles(Start(), files)
  {
    hide Holds, Kind, Dataset, ExtractAt, FileCalls, SafeFiles;
    if NonEmpty(files) {
      DatasetHolds(FileCalls(files));
      FilesExtracted(Dataset(FileCalls(files)), Start(), files);
    } else {
      ExtractedNonEmpty(Dataset(FileCalls(files)), 0);
    }
  }

  /** Two records, the second one starting with byte 0xE0: the file is cut. */
  lemma LooksLikeEof(r: RecordBytes, s: RecordBytes)
    requires |r| == 1 && s == [0xE0]
    ensures !RoundTrips([[r, s]])
  {
    hide RoundTrips, Pack;
    var files := [[r, s]];
    var e := After(Start(), |Pack(files[0][0])|);
    assert e == Place(0, 2) && files[0][1][0] / 16 == EOF;
    ExtractOfCreate(files);
  }

  /** One record of 4080 bytes: its end of record fills the first block. */
  lemma EndsAtBlock(r: RecordBytes)
    requires |r| == 4080
    ensures !RoundTrips([[r]])
  {
    hide RoundTrips, Pack;
    var files := [[r]];
    var e := After(Start(), |Pack(files[0][0])|);
    assert e == Place(0, 511);
    ExtractOfCreate(files);
  }
}
