/** Reading a blocked dataset back: records, the look-ahead for end of file and
    end of data, and when a whole dataset is extracted as it was written. */
module DsReader {
  import opened Bits
  import opened DsWords
  import opened DsLayout
  import opened DsStructure

  datatype ReadError = CantRead | EndOfDataset | UnknownWord

  /** The value read and the position after it, or why there is none. */
  datatype Read<T> = Got(value: T, pos: nat) | Failed(error: ReadError)

  type RecordBytes = seq<byte>

  /* ----- one record ----- */

  /** From the control word at p, all data up to the next end of record. */
  function Gather(f: File, p: nat): (r: Read<seq<Word>>)
    requires p < |f|
    ensures r.Got? ==> p < r.pos < |f| && Kind(f[r.pos]) == EOR
    decreases |f| - p
  {
    hide Forward, Kind;
    var q := p + 1 + Forward(f[p]);
    if Kind(f[p]) == EOD then Failed(EndOfDataset)
    else if Kind(f[p]) !in {BCW, EOR, EOF} then Failed(UnknownWord)
    else if q >= |f| then Failed(CantRead)
    else if Kind(f[q]) == EOR then Got(f[p + 1..q], q)
    else
      match Gather(f, q)
      case Got(d, m) => Got(f[p + 1..q] + d, m)
      case Failed(e) => Failed(e)
  }

  /** The padding cut off, as the end of record tells it. */
  function Trim(bytes: seq<byte>, unused: nat): seq<byte>
    requires unused < 64
  {
    if |bytes| >= 8 then bytes[..|bytes| - unused / 8] else bytes
  }

  lemma UnusedFits(w: Word)
    ensures Unused(w) < 64
  {
    Widths();
  }

  function ReadRecordAt(f: File, p: nat): (r: Read<RecordBytes>)
    ensures r.Got? ==> p < r.pos < |f| && Kind(f[r.pos]) == EOR
  {
    hide Forward, Kind, Unused, Gather;
    if p >= |f| then Failed(CantRead)
    else
      match Gather(f, p)
      case Got(d, m) => UnusedFits(f[m]); Got(Trim(Unpack(d), Unused(f[m])), m)
      case Failed(e) => Failed(e)
  }

  lemma {:induction false} GatherIsNext(f: File, p: nat, d: seq<Word>, m: nat)
    requires p < |f| && Next(f, p) == Walked(d, m) && Kind(f[m]) == EOR
    requires Kind(f[p]) in {BCW, EOR, EOF}
    ensures Gather(f, p) == Got(d, m)
    decreases |f| - p
  {
    hide Forward, Kind;
    var q := p + 1 + Forward(f[p]);
    if Kind(f[q]) == BCW {
      GatherIsNext(f, q, d[q - p - 1..], m);
    }
  }

  lemma TrimPacked(r: RecordBytes)
    ensures Trim(Unpack(Pack(r)), Padding(Record(r))) == r
  {
    UnpackPack(r);
    assert |Pack(r)| == (|r| + 7) / 8;
    hide Pack, Unpack;
    assert Padding(Record(r)) / 8 == 8 * |Pack(r)| - |r|;
  }

  /** ReadRecord returns the record that was written, byte for byte. */
  lemma ReadsRecord(f: File, at: Place, r: RecordBytes)
    requires at.Ok() && Follows(f, at, Record(r)) && Kind(f[at.Index()]) in {BCW, EOR, EOF}
    ensures ReadRecordAt(f, at.Index()) == Got(r, After(at, |Pack(r)|).Index())
  {
    hide Forward, Kind, Unused, Gather, Pack, Unpack, Trim, Padding, After, Next;
    GatherIsNext(f, at.Index(), Pack(r), After(at, |Pack(r)|).Index());
    TrimPacked(r);
  }

  /** The same number of ReadRecord calls from a position on. */
  function ReadMany(f: File, p: nat, n: nat): Read<seq<RecordBytes>>
    decreases n
  {
    if n == 0 then Got([], p)
    else
      match ReadRecordAt(f, p)
      case Failed(e) => Failed(e)
      case Got(r, q) =>
        match ReadMany(f, q, n - 1)
        case Failed(e) => Failed(e)
        case Got(rs, m) => Got([r] + rs, m)
  }

  function RecordCalls(rs: seq<RecordBytes>): (cs: seq<Call>)
    ensures |cs| == |rs|
  {
    seq(|rs|, i requires 0 <= i < |rs| => Record(rs[i]))
  }

  /** Behind the marks of rs. */
  function LastMark(at: Place, rs: seq<RecordBytes>): (q: Place)
    requires at.Ok()
    ensures q.Ok()
    decreases |rs|
  {
    if rs == [] then at else LastMark(After(at, |Pack(rs[0])|), rs[1..])
  }

  lemma HoldsHead(f: File, at: Place, rs: seq<RecordBytes>, rest: seq<Call>)
    requires rs != [] && Holds(f, at, RecordCalls(rs) + rest)
    ensures at.Ok() && at.Index() < |f| && Follows(f, at, Record(rs[0]))
    ensures Holds(f, After(at, |Pack(rs[0])|), RecordCalls(rs[1..]) + rest)
    ensures Kind(f[After(at, |Pack(rs[0])|).Index()]) == EOR
  {
    hide Follows, Pack, After, Kind;
    var calls := RecordCalls(rs) + rest;
    assert calls[0] == Record(rs[0]);
    assert calls[1..] == RecordCalls(rs[1..]) + rest;
    FollowsMark(f, at, calls[0]);
  }

  lemma FollowsMark(f: File, at: Place, c: Call)
    requires at.Ok() && Follows(f, at, c)
    ensures After(at, |Payload(c)|).Index() < |f| && Kind(f[After(at, |Payload(c)|).Index()]) == KindOf(c)
  {
    hide Pack, After, Kind, Next, Unused;
  }

  lemma {:induction false} ReadsMany(f: File, at: Place, rs: seq<RecordBytes>, rest: seq<Call>)
    requires Holds(f, at, RecordCalls(rs) + rest) && Kind(f[at.Index()]) in {BCW, EOR, EOF}
    ensures ReadMany(f, at.Index(), |rs|) == Got(rs, LastMark(at, rs).Index())
    decreases |rs|
  {
    hide Holds, Follows, Pack, After, Kind, ReadRecordAt;
    if rs != [] {
      HoldsHead(f, at, rs, rest);
      ReadsRecord(f, at, rs[0]);
      ReadsMany(f, After(at, |Pack(rs[0])|), rs[1..], rest);
      assert [rs[0]] + rs[1..] == rs;
    }
  }

  /** Reading |rs| records from the start of the file gives exactly rs. */
  predicate ReadsBack(f: File, rs: seq<RecordBytes>) {
    var r := ReadMany(f, 0, |rs|);
    r.Got? && r.value == rs
  }

  /** Writing records, closing, and reading as many records back. */
  lemma RecordsRoundTrip(rs: seq<RecordBytes>)
    ensures ReadsBack(Dataset(RecordCalls(rs)), rs)
  {
    hide Holds, Pack, After, Kind, Dataset, ReadMany;
    DatasetHolds(RecordCalls(rs));
    ReadsMany(Dataset(RecordCalls(rs)), Start(), rs, [EndData]);
  }
}
