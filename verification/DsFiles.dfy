/** The create program of ds_edit: local files cut into records, binary ones by
    length and text ones by line, and what extracting writes back. */
module DsFiles {
  import opened Bits
  import opened DsWords
  import opened DsLayout
  import opened DsReader
  import opened DsExtract
  import opened DataSets

  const LF: byte := 0x0a
  const CR: byte := 0x0d

  /** A local file: binary, with the record size asked for, or text. */
  datatype Input = Binary(data: seq<byte>, size: nat) | Text(data: seq<byte>)

  /** The program does not come to an end with records of no bytes. */
  predicate InputOk(x: Input) {
    x.Binary? ==> x.size > 0 && x.data != []
  }

  /** Records are no longer than the file. */
  function RecordSize(x: Input): nat
    requires x.Binary?
  {
    if x.size < |x.data| then x.size else |x.data|
  }

  /* ----- cutting a file into records ----- */

  /** Records of n bytes; a shorter rest is dropped. */
  function Chunks(data: seq<byte>, n: nat): FileRecords
    requires n > 0
    decreases |data|
  {
    if |data| < n then [] else [data[..n]] + Chunks(data[n..], n)
  }

  /** Where the first line ends; |s| when it does not. */
  function LineEnd(s: seq<byte>): (k: nat)
    ensures k <= |s| && (k < |s| ==> s[k] == LF) && forall j :: 0 <= j < k ==> s[j] != LF
  {
    if s == [] || s[0] == LF then 0 else 1 + LineEnd(s[1..])
  }

  function Trimmed(line: seq<byte>): (r: seq<byte>)
    ensures r <= line && (r == [] || r[|r| - 1] !in {CR, LF})
  {
    if line != [] && line[|line| - 1] in {CR, LF} then Trimmed(line[..|line| - 1]) else line
  }

  /** One record a line, without its end; a line that is not ended is dropped. */
  function Lines(data: seq<byte>): FileRecords
    decreases |data|
  {
    var k := LineEnd(data);
    if k == |data| then [] else [Trimmed(data[..k])] + Lines(data[k + 1..])
  }

  function RecordsOf(x: Input): FileRecords
    requires InputOk(x)
  {
    if x.Binary? then Chunks(x.data, RecordSize(x)) else Lines(x.data)
  }

  /** Binary records have the size asked for; a file that is no longer than that
      is one record. */
  lemma {:induction false} RecordLengths(data: seq<byte>, n: nat, k: nat)
    requires n > 0 && k < |Chunks(data, n)|
    ensures |Chunks(data, n)[k]| == n
    decreases |data|
  {
    if k > 0 {
      RecordLengths(data[n..], n, k - 1);
    }
  }

  lemma OneRecordFile(data: seq<byte>, size: nat)
    requires 0 < |data| <= size
    ensures RecordsOf(Binary(data, size)) == [data]
  {
    assert data[..|data|] == data && data[|data|..] == [];
    assert Chunks([], |data|) == [];
  }

  lemma NextLineOf(s: seq<byte>, k: nat, line: seq<byte>, rest: seq<byte>)
    requires k < |s| && s[k] == 0x0a && (forall j :: 0 <= j < k ==> s[j] != 0x0a)
    requires s[..k] == line && s[k + 1..] == rest
    ensures Lines(s) == [Trimmed(line)] + Lines(rest)
  {
    LineIs(s, k);
  }

  /** a CR LF, CR LF, b LF, and c that is not ended. */
  lemma SampleLines(data: seq<byte>)
    requires data == [0x61, 0x0d, 0x0a, 0x0d, 0x0a, 0x62, 0x0a, 0x63]
    ensures Lines(data) == [[0x61], [], [0x62]] && Written(Lines(data), true) == [0x61, 0x0a, 0x0a, 0x62, 0x0a]
  {
    hide Lines, Trimmed;
    NextLineOf(data, 2, [0x61, 0x0d], data[3..]);
    NextLineOf(data[3..], 1, [0x0d], data[5..]);
    NextLineOf(data[5..], 1, [0x62], data[7..]);
    assert Lines(data[7..]) == [] by { NoLine(data[7..]); }
    TrimmedLines();
    var a: FileRecords, b: FileRecords, c: FileRecords := [[0x61], [], [0x62]], [[], [0x62]], [[0x62]];
    assert a[1..] == b && b[1..] == c && c[1..] == [];
  }

  lemma NoLine(s: seq<byte>)
    requires s == [0x63]
    ensures Lines(s) == []
  {
    LineIs(s, 1);
  }

  lemma TrimmedLines()
    ensures Trimmed([0x61, 0x0d]) == [0x61] && Trimmed([0x0d]) == [] && Trimmed([0x62]) == [0x62]
  {
    assert [0x61, 0x0d][..1] == [0x61] && [0x0d][..0] == [];
  }

  lemma {:induction false} LineIs(s: seq<byte>, k: nat)
    requires k <= |s| && (forall j :: 0 <= j < k ==> s[j] != 0x0a) && (k < |s| ==> s[k] == 0x0a)
    ensures LineEnd(s) == k
  {
    if k > 0 {
      LineIs(s[1..], k - 1);
    }
  }

  /** What extracting a file writes: its records, each with an end of line in a
      text file. */
  function Written(rs: FileRecords, text: bool): seq<byte> {
    if rs == [] then [] else rs[0] + (if text then [LF] else []) + Written(rs[1..], text)
  }

  /** A binary file comes back but for the rest that is no full record. */
  lemma {:induction false} ChunksWritten(data: seq<byte>, n: nat)
    requires n > 0
    ensures |data| % n <= |data| && Written(Chunks(data, n), false) == data[..|data| - |data| % n]
    decreases |data|
  {
    ModBelow(|data|, n);
    if |data| >= n {
      var rest := data[n..];
      ChunksWritten(rest, n);
      ModLess(|data|, n);
      assert Chunks(data, n)[1..] == Chunks(rest, n);
      assert data[..n] + rest[..|rest| - |rest| % n] == data[..|data| - |data| % n];
    }
  }

  lemma ModBelow(x: nat, n: nat)
    requires n > 0
    ensures x % n <= x && (x < n ==> x % n == x)
  {
    if x < n {
      ModSmall(x, n);
    }
  }

  lemma ModLess(x: nat, n: nat)
    requires 0 < n <= x
    ensures (x - n) % n == x % n
  {
    assert (x / n - 1) * n == x / n * n - n;
    DivUnique(x - n, n, x / n - 1, x % n);
  }

  /** The last line is ended, and no line has a carriage return before its end. */
  predicate CleanText(data: seq<byte>) {
    && (data != [] ==> data[|data| - 1] == LF)
    && forall k :: 0 < k < |data| && data[k] == LF ==> data[k - 1] != CR
  }

  /** A text file comes back if and only if it is clean; else shorter. */
  lemma {:induction false} LinesWritten(data: seq<byte>)
    ensures |Written(Lines(data), true)| <= |data|
    ensures Written(Lines(data), true) == data <==> CleanText(data)
    decreases |data|
  {
    hide Trimmed, CleanText, Written;
    var k := LineEnd(data);
    if k < |data| {
      var line, rest := data[..k], data[k + 1..];
      LinesWritten(rest);
      WrittenLine(Trimmed(line), Lines(rest));
      assert data == line + [LF] + rest;
      CleanLine(line, rest);
      LineBack(line, Written(Lines(rest), true), rest);
    } else {
      NoLines(data);
    }
  }

  lemma NoLines(data: seq<byte>)
    requires forall j :: 0 <= j < |data| ==> data[j] != LF
    ensures Written([], true) == [] && (CleanText(data) <==> data == [])
  {
  }

  lemma WrittenLine(r: RecordBytes, rs: FileRecords)
    ensures Written([r] + rs, true) == r + [LF] + Written(rs, true)
  {
    assert ([r] + rs)[1..] == rs;
  }

  lemma LineBack(line: seq<byte>, w: seq<byte>, rest: seq<byte>)
    requires |w| <= |rest| && forall j :: 0 <= j < |line| ==> line[j] != LF
    ensures |Trimmed(line) + [LF] + w| <= |line + [LF] + rest|
    ensures Trimmed(line) + [LF] + w == line + [LF] + rest <==>
              (line == [] || line[|line| - 1] != CR) && w == rest
  {
    hide Trimmed;
    TrimmedWhole(line);
    var a, b, k := Trimmed(line) + [LF] + w, line + [LF] + rest, |line|;
    if a == b {
      assert |Trimmed(line)| == k;
      assert a[k + 1..] == w && b[k + 1..] == rest;
    }
  }

  lemma TrimmedWhole(line: seq<byte>)
    requires forall j :: 0 <= j < |line| ==> line[j] != LF
    ensures |Trimmed(line)| <= |line|
    ensures |Trimmed(line)| == |line| ==> Trimmed(line) == line
    ensures Trimmed(line) == line <==> line == [] || line[|line| - 1] != CR
  {
  }

  lemma CleanLine(line: seq<byte>, rest: seq<byte>)
    requires forall j :: 0 <= j < |line| ==> line[j] != LF
    ensures CleanText(line + [LF] + rest) <==> (line == [] || line[|line| - 1] != CR) && CleanText(rest)
  {
    var data, k := line + [LF] + rest, |line|;
    assert data[k] == LF && data[|data| - 1] == if rest == [] then LF else rest[|rest| - 1];
    assert forall j :: 0 <= j < k ==> data[j] == line[j];
    if CleanText(data) {
      forall j | 0 < j < |rest| && rest[j] == LF
        ensures rest[j - 1] != CR
      {
        assert data[k + 1 + j] == LF && data[k + j] == rest[j - 1];
      }
    }
    if CleanText(rest) && (line == [] || line[k - 1] != CR) {
      forall j | 0 < j < |data| && data[j] == LF
        ensures data[j - 1] != CR
      {
        if j > k + 1 {
          assert rest[j - k - 1] == LF && rest[j - k - 2] == data[j - 1];
        }
      }
    }
  }

  /* ----- there and back ----- */

  /** Nothing of the file is lost in its records. */
  predicate NothingLost(x: Input)
    requires InputOk(x)
  {
    if x.Binary? then |x.data| % RecordSize(x) == 0 else CleanText(x.data)
  }

  lemma RecordsWritten(x: Input)
    requires InputOk(x)
    ensures Written(RecordsOf(x), x.Text?) == x.data <==> NothingLost(x)
  {
    if x.Binary? {
      ChunksWritten(x.data, RecordSize(x));
    } else {
      LinesWritten(x.data);
    }
  }

  predicate InputsOk(xs: seq<Input>) {
    forall i :: 0 <= i < |xs| ==> InputOk(xs[i])
  }

  function AllRecords(xs: seq<Input>): (files: seq<FileRecords>)
    requires InputsOk(xs)
    ensures |files| == |xs|
  {
    seq(|xs|, i requires 0 <= i < |xs| => RecordsOf(xs[i]))
  }

  /** File by file, when no record or file is taken for the end of another: what
      extracting writes is the local file if and only if nothing of that was
      lost in its records. */
  lemma FilesComeBack(xs: seq<Input>)
    requires InputsOk(xs) && NonEmpty(AllRecords(xs)) && SafeFiles(Start(), AllRecords(xs))
    ensures var r := ExtractAt(Dataset(FileCalls(AllRecords(xs))), 0);
      r.Got? && |r.value| == |xs| &&
      forall i :: 0 <= i < |xs| ==> (Written(r.value[i], xs[i].Text?) == xs[i].data <==> NothingLost(xs[i]))
  {
    hide ExtractAt, Dataset, FileCalls, SafeFiles, RecordsOf, Written, NothingLost;
    ExtractOfCreate(AllRecords(xs));
    forall i | 0 <= i < |xs|
      ensures Written(AllRecords(xs)[i], xs[i].Text?) == xs[i].data <==> NothingLost(xs[i])
    {
      RecordsWritten(xs[i]);
    }
  }

  /* ----- the program ----- */

  /** The records of a binary file. */
  method AddBinary(d: DataSet, x: Input, ghost rest: seq<Call>)
    requires d.Ready() && InputOk(x) && x.Binary?
    modifies d, d.block
    ensures d.Ready() && d.Final(rest) == old(d.Final(RecordCalls(RecordsOf(x)) + rest))
  {
    hide DataSet.Final, RecordCalls, DataSet.Out, DataSet.Here, Chunks;
    var n := RecordSize(x);
    var at := 0;
    assert x.data[0..] == x.data;
    while |x.data| - at >= n
      invariant d.Ready() && at <= |x.data|
      invariant d.Final(RecordCalls(Chunks(x.data[at..], n)) + rest) == old(d.Final(RecordCalls(RecordsOf(x)) + rest))
      decreases |x.data| - at
    {
      NextChunk(x.data, at, n, rest);
      d.AddRecord(x.data[at..at + n], RecordCalls(Chunks(x.data[at + n..], n)) + rest);
      at := at + n;
    }
    NextChunk(x.data, at, n, rest);
  }

  lemma NextChunk(data: seq<byte>, at: nat, n: nat, rest: seq<Call>)
    requires n > 0 && at <= |data|
    ensures RecordCalls(Chunks(data[at..], n)) + rest ==
      if at + n > |data| then rest
      else [Record(data[at..at + n])] + (RecordCalls(Chunks(data[at + n..], n)) + rest)
  {
    hide RecordCalls;
    if at + n > |data| {
      NoRecords(rest);
    } else {
      assert data[at..][..n] == data[at..at + n] && data[at..][n..] == data[at + n..];
      FirstOf(data[at..at + n], Chunks(data[at + n..], n), rest);
    }
  }

  /** The lines of a text file. */
  method AddText(d: DataSet, x: Input, ghost rest: seq<Call>)
    requires d.Ready() && x.Text?
    modifies d, d.block
    ensures d.Ready() && d.Final(rest) == old(d.Final(RecordCalls(RecordsOf(x)) + rest))
  {
    hide DataSet.Final, RecordCalls, DataSet.Out, DataSet.Here, Lines, LineEnd, Trimmed;
    var at := 0;
    assert x.data[0..] == x.data;
    while true
      invariant d.Ready() && at <= |x.data|
      invariant d.Final(RecordCalls(Lines(x.data[at..])) + rest) == old(d.Final(RecordCalls(RecordsOf(x)) + rest))
      decreases |x.data| - at
    {
      NextLine(x.data, at, rest);
      var k := LineEnd(x.data[at..]);
      if at + k == |x.data| {
        break;
      }
      var line := Trim(x.data[at..at + k]);
      d.AddRecord(line, RecordCalls(Lines(x.data[at + k + 1..])) + rest);
      at := at + k + 1;
    }
  }

  lemma NextLine(data: seq<byte>, at: nat, rest: seq<Call>)
    requires at <= |data|
    ensures var k := LineEnd(data[at..]);
      RecordCalls(Lines(data[at..])) + rest ==
      if at + k == |data| then rest
      else [Record(Trimmed(data[at..at + k]))] + (RecordCalls(Lines(data[at + k + 1..])) + rest)
  {
    hide RecordCalls, LineEnd, Trimmed;
    var k := LineEnd(data[at..]);
    if at + k == |data| {
      NoRecords(rest);
    } else {
      assert data[at..][..k] == data[at..at + k] && data[at..][k + 1..] == data[at + k + 1..];
      FirstOf(Trimmed(data[at..at + k]), Lines(data[at + k + 1..]), rest);
    }
  }

  method Trim(line: seq<byte>) returns (r: seq<byte>)
    ensures r == Trimmed(line)
  {
    var n := |line|;
    assert line[..n] == line;
    while n > 0 && line[n - 1] in {CR, LF}
      invariant n <= |line| && Trimmed(line[..n]) == Trimmed(line)
    {
      assert line[..n][..n - 1] == line[..n - 1];
      n := n - 1;
    }
    r := line[..n];
  }

  lemma FirstOf(r: RecordBytes, rs: FileRecords, rest: seq<Call>)
    ensures RecordCalls([r] + rs) + rest == [Record(r)] + (RecordCalls(rs) + rest)
  {
    assert RecordCalls([r] + rs) == [Record(r)] + RecordCalls(rs);
  }

  lemma NoRecords(rest: seq<Call>)
    ensures RecordCalls([]) + rest == rest
  {
  }

  /** Builds a dataset from local files. */
  method Create(xs: seq<Input>) returns (d: DataSet)
    requires InputsOk(xs)
    ensures d.file == Dataset(FileCalls(AllRecords(xs))) && fresh(d)
  {
    hide DataSet.Final, RecordCalls, FileCalls, Dataset, DataSet.Out, DataSet.Here, BlockWord, GetBitsReverse,
      SetBitsReverse, Pow2, Kind, Forward, BlockNumber, SameFields, RecordsOf;
    d := new DataSet();
    ghost var files := AllRecords(xs);
    ghost var all := Dataset(FileCalls(files));
    assert files[0..] == files;
    NewFinal(d, FileCalls(files));
    for i := 0 to |xs|
      invariant d.Ready() && fresh(d) && fresh(d.block)
      invariant d.Final(FileCalls(files[i..]) + [EndData]) == all
    {
      ghost var rest := FileCalls(files[i + 1..]) + [EndData];
      FilesFrom(xs, i);
      if xs[i].Binary? {
        AddBinary(d, xs[i], [EndFile] + rest);
      } else {
        AddText(d, xs[i], [EndFile] + rest);
      }
      d.AddEof(rest);
    }
    NoFiles(files);
    d.Flush();
  }

  lemma NewFinal(d: DataSet, calls: seq<Call>)
    requires d.Ready() && d.Out() == [] && d.Here() == Start() && d.lastCtrlWord == BlockWord(0) && d.fileStart == 0
    ensures d.Final(calls + [EndData]) == Dataset(calls)
  {
    hide BlockWord, Render;
  }

  lemma FilesFrom(xs: seq<Input>, i: nat)
    requires InputsOk(xs) && i < |xs|
    ensures var files := AllRecords(xs);
      FileCalls(files[i..]) + [EndData]
      == RecordCalls(RecordsOf(xs[i])) + ([EndFile] + (FileCalls(files[i + 1..]) + [EndData]))
  {
    var files := AllRecords(xs);
    assert files[i..][0] == files[i] == RecordsOf(xs[i]) && files[i..][1..] == files[i + 1..];
  }

  lemma NoFiles(files: seq<FileRecords>)
    ensures FileCalls(files[|files|..]) + [EndData] == [EndData]
  {
  }
}
