/** The control words of a dataset as numbers, against the accessors. */
module DsNumbers {
  import opened Bits
  import opened DsWords
  import opened Words
  import opened DsLayout
  import opened DsReader

  const TWO9: nat := 0x200
  const TWO24: nat := 0x100_0000
  const TWO54: nat := 0x40_0000_0000_0000
  const TWO60: nat := 0x1000_0000_0000_0000

  lemma Places()
    ensures Pow2(0) == 1 && Pow2(9) == TWO9 && Pow2(24) == TWO24 && Pow2(54) == TWO54 && Pow2(60) == TWO60
  {
    hide Pow2;
    Widths();
    assert Pow2(0) == 1 by { PowNone(); }
    var a, b := 24, 6;
    Pow2Add(a, a);
    Pow2Add(a + a, b);
    Pow2Add(a + a + b, b);
  }

  lemma PowNone()
    ensures Pow2(0) == 1
  {
  }

  /** Where the fields of a control word are. */
  lemma FieldValues(w: Word)
    ensures Kind(w) == w / TWO60 && Unused(w) == w / TWO54 % 64
    ensures PrevFile(w) == w / TWO24 % 0x10_0000 && PrevRecord(w) == w / TWO9 % 0x8000
    ensures BlockNumber(w) == w / TWO9 % TWO24 && Forward(w) == w % TWO9
  {
    hide Pow2;
    Places();
    Widths();
  }

  /** Patching the forward index replaces the low nine bits. */
  lemma ForwardValue(w: Word, n: nat)
    requires n < TWO9
    ensures SetForward(w, n) == w - w % TWO9 + n
  {
    hide Pow2, SetBitsReverse, GetBitsReverse;
    Places();
    SetBitsValue(w, 55, 63, n, 1, TWO9);
  }

  /** A block control word is its number, modulo 2^24, in units of 2^9. */
  lemma BlockValue(number: nat)
    ensures BlockWord(number) == number % TWO24 * TWO9
  {
    hide Pow2, SetBitsReverse, GetBitsReverse, SetForward;
    Places();
    Widths();
    SetBitsValue(0, 0, 3, BCW, TWO60, 16);
    SetBitsValue(0, 31, 54, number, TWO9, TWO24);
    ForwardValue(number % TWO24 * TWO9, 0);
  }

  lemma KindValue(kind: nat)
    requires kind < 16
    ensures SetKind(0, kind) == kind * TWO60
  {
    hide Pow2, SetBitsReverse, GetBitsReverse;
    Places();
    Widths();
    SetBitsValue(0, 0, 3, kind, TWO60, 16);
  }

  lemma UnusedValue(w: Word, unused: nat)
    requires unused < 64 && w % TWO60 == 0
    ensures SetUnused(w, unused) == w + unused * TWO54
  {
    hide Pow2, SetBitsReverse, GetBitsReverse;
    Places();
    Widths();
    SetBitsValue(w, 4, 9, unused, TWO54, 64);
    ZeroField(w, w / TWO60, 64, TWO54);
  }

  lemma PrevFileValue(w: Word, n: nat)
    requires w % TWO54 == 0
    ensures SetPrevFile(w, n) == w + n % 0x10_0000 * TWO24
  {
    hide Pow2, SetBitsReverse, GetBitsReverse;
    Places();
    Widths();
    SetBitsValue(w, 20, 39, n, TWO24, 0x10_0000);
    ZeroField(w, w / TWO54 * 0x400, 0x10_0000, TWO24);
  }

  /** A field below everything that is set is zero. */
  lemma ZeroField(w: nat, q: nat, n: nat, lo: nat)
    requires n > 0 && lo > 0 && w == q * n * lo
    ensures w / lo % n == 0
  {
    DivUnique(w, lo, q * n, 0);
    DivUnique(q * n, n, q, 0);
  }

  lemma PrevRecordValue(w: Word, n: nat)
    requires w % TWO24 == 0
    ensures SetPrevRecord(w, n) == w + n % 0x8000 * TWO9
  {
    hide Pow2, SetBitsReverse, GetBitsReverse;
    Places();
    Widths();
    SetBitsValue(w, 40, 54, n, TWO9, 0x8000);
    ZeroField(w, w / TWO24, 0x8000, TWO9);
  }

  /** A mark is its kind in the top four bits, the padding in the six below, and
      the two block distances in units of 2^24 and 2^9. */
  lemma MarkValue(kind: nat, unused: nat, prevFile: nat, prevRecord: nat)
    requires kind < 16 && unused < 64
    ensures MarkWord(kind, unused, prevFile, prevRecord)
         == kind * TWO60 + unused * TWO54 + prevFile % 0x10_0000 * TWO24 + prevRecord % 0x8000 * TWO9
  {
    hide SetPrevRecord, SetPrevFile, SetUnused, SetKind, MarkWord;
    KindValue(kind);
    var a := SetKind(0, kind);
    Multiple(a, kind, TWO60);
    UnusedValue(a, unused);
    var b := SetUnused(a, unused);
    Multiple(b, kind * 64 + unused, TWO54);
    PrevFileValue(b, prevFile);
    var c := SetPrevFile(b, prevFile);
    Multiple(c, (kind * 64 + unused) * 0x4000_0000 + prevFile % 0x10_0000, TWO24);
    PrevRecordValue(c, prevRecord);
    MarkSteps(kind, unused, prevFile, prevRecord);
  }

  lemma Multiple(x: nat, q: nat, d: nat)
    requires d > 0 && x == q * d
    ensures x % d == 0
  {
    DivUnique(x, d, q, 0);
  }

  lemma MarkSteps(kind: nat, unused: nat, prevFile: nat, prevRecord: nat)
    requires kind < 16 && unused < 64
    ensures MarkWord(kind, unused, prevFile, prevRecord)
         == SetPrevRecord(SetPrevFile(SetUnused(SetKind(0, kind), unused), prevFile), prevRecord)
  {
    hide SetPrevRecord, SetPrevFile, SetUnused, SetKind;
  }

  /* ----- a whole file in numbers ----- */

  const EOR_WORD: nat := 0x8000_0000_0000_0000
  const EOF_WORD: nat := 0xE000_0000_0000_0000
  const EOD_WORD: nat := 0xF000_0000_0000_0000

  /** A mark in the first block, its forward index zero. */
  function MarkNumber(c: Call): nat {
    KindOf(c) * TWO60 + Padding(c) * TWO54
  }

  lemma FirstMarks(c: Call, p: Place, e: Place, fs: nat)
    requires p.block == e.block == fs == 0
    ensures Mark(c, p, e, fs) == MarkNumber(c) && SetForward(Mark(c, p, e, fs), 0) == MarkNumber(c)
  {
    hide MarkWord, SetForward, Padding;
    MarkValue(KindOf(c), Padding(c), fs, fs);
    NoPadding(c);
    ForwardValue(Mark(c, p, e, fs), 0);
  }

  lemma NoPadding(c: Call)
    ensures !c.Record? ==> Padding(c) == 0
  {
  }

  /** Two steps of the layout, when the mark is in the first block. */
  lemma FirstBlock(at: Place, cw: Word, fs: nat, c: Call, rest: seq<Call>, e: Place)
    requires at.Ok() && at.block == fs == 0 && |Payload(c)| < at.Room()
    requires e == Place(0, at.ofs + 1 + |Payload(c)|)
    ensures Render(at, cw, fs, [c] + rest) ==
      [SetForward(cw, |Payload(c)|)] + Payload(c) + Render(e, MarkNumber(c), FileStart(c, e, fs), rest)
  {
    hide Payload, Mark, SetForward, Render, MarkNumber, FileStart;
    LayLast(at, cw, Payload(c));
    RenderCons(at, cw, fs, c, rest);
    FirstMarks(c, at, e, fs);
  }

  lemma StartZero(c: Call, e: Place, fs: nat)
    requires e.block == fs == 0
    ensures FileStart(c, e, fs) == 0
  {
  }

  /** A short record at the start of a file: the block control word with the
      number of data words, the data, and then the mark and what follows it. */
  lemma ShortRecord(r: seq<byte>, rest: seq<Call>, at: Place, cw: Word, fs: nat)
    requires |r| <= 8 * 500 && at.block == at.ofs == cw == fs == 0
    ensures var n := |Pack(r)|;
      Render(at, cw, fs, [Record(r)] + rest) ==
      [n] + Pack(r) + Render(Place(0, n + 1), MarkNumber(Record(r)), 0, rest)
  {
    hide Pack, Render, SetForward, MarkNumber, Payload, FileStart;
    var c, n := Record(r), |Pack(r)|;
    assert Payload(c) == Pack(r) by { PayloadOf(c); }
    StartZero(c, Place(0, n + 1), fs);
    FirstBlock(at, cw, fs, c, rest, Place(0, n + 1));
    ForwardValue(cw, n);
  }

  lemma DatasetIs(calls: seq<Call>, at: Place, cw: Word, fs: nat)
    requires at.block == at.ofs == cw == fs == 0
    ensures Dataset(calls) == Render(at, cw, fs, calls + [EndData])
  {
    hide Render, BlockWord;
    BlockValue(fs);
  }

  lemma PayloadOf(c: Call)
    ensures Payload(c) == if c.Record? then Pack(c.bytes) else []
  {
  }

  /** Behind it end of file and end of data. */
  lemma LastMarks(at: Place, cw: nat, c: Call, d: Call)
    requires at.Ok() && at.block == 0 && at.Room() > 2 && c.EndFile? && d.EndData? && cw < TWO64 && cw % TWO9 == 0
    ensures Render(at, cw, 0, [c, d]) == [cw, MarkNumber(c), MarkNumber(d)]
  {
    hide Render, SetForward, MarkNumber, Payload;
    PayloadOf(c);
    PayloadOf(d);
    var e, e' := Place(0, at.ofs + 1), Place(0, at.ofs + 2);
    assert [c, d] == [c] + [d] && [d] == [d] + [];
    FirstBlock(at, cw, 0, c, [d], e);
    StartZero(c, e, 0);
    MarkRange(c);
    FirstBlock(e, MarkNumber(c), 0, d, [], e');
    StartZero(d, e', 0);
    MarkRange(d);
    ForwardValue(cw, 0);
    ForwardValue(MarkNumber(c), 0);
    RenderEnd(e', MarkNumber(d));
  }

  lemma MarkRange(c: Call)
    ensures MarkNumber(c) < TWO64 && MarkNumber(c) % TWO9 == 0
  {
    hide Padding;
    Multiple(MarkNumber(c), (KindOf(c) * 64 + Padding(c)) * 0x2000_0000_0000, TWO9);
  }

  lemma RenderEnd(at: Place, cw: Word)
    requires at.Ok()
    ensures Render(at, cw, 0, []) == [cw]
  {
  }

  /** A file of one short record, in numbers: data words, unused bits of the last
      one, and the types of the marks. */
  lemma OneRecord(r: seq<byte>)
    requires |r| <= 8 * 500
    ensures var n := |Pack(r)|;
      Dataset([Record(r), EndFile]) ==
      [n] + Pack(r) + [EOR_WORD + (64 * n - 8 * |r|) * TWO54, EOF_WORD, EOD_WORD]
  {
    hide Pack, Render, Dataset, Padding, BlockWord;
    var n := |Pack(r)|;
    var c, d, at, cw, fs := EndFile, EndData, Start(), 0, 0;
    assert [Record(r), c] + [d] == [Record(r)] + [c, d];
    DatasetIs([Record(r), c], at, cw, fs);
    ShortRecord(r, [c, d], at, cw, fs);
    MarkRange(Record(r));
    LastMarks(Place(0, n + 1), MarkNumber(Record(r)), c, d);
    Numbers(r, c, d);
  }

  lemma Numbers(r: seq<byte>, c: Call, d: Call)
    requires c.EndFile? && d.EndData?
    ensures MarkNumber(Record(r)) == EOR_WORD + (64 * |Pack(r)| - 8 * |r|) * TWO54
    ensures MarkNumber(c) == EOF_WORD && MarkNumber(d) == EOD_WORD
  {
    hide Pack;
  }

  /** A word of the file in bytes: a short record, its rest filled with zeros. */
  lemma PackShort(r: seq<byte>)
    requires 0 < |r| <= 8
    ensures Pack(r) == [WordAt(r + Zeros(8 - |r|), 0)]
  {
  }

  /** A file with the single record 0x61. */
  lemma SampleFile(r: seq<byte>)
    requires r == [0x61]
    ensures Dataset([Record(r), EndFile]) ==
      [1, 0x6100_0000_0000_0000, 0x8E00_0000_0000_0000, 0xE000_0000_0000_0000, 0xF000_0000_0000_0000]
  {
    hide Pack, Dataset, WordAt, Render;
    OneRecord(r);
    PackShort(r);
    var b := r + Zeros(7);
    WordValue(b, 0);
  }

  /** Why reading a record fails at once: no word, end of data, or no control
      word. */
  lemma ReadFails(f: File, p: nat)
    ensures p >= |f| ==> ReadRecordAt(f, p) == Failed(CantRead)
    ensures p < |f| && f[p] / TWO60 == 15 ==> ReadRecordAt(f, p) == Failed(EndOfDataset)
    ensures p < |f| && f[p] / TWO60 !in {0, 8, 14, 15} ==> ReadRecordAt(f, p) == Failed(UnknownWord)
  {
    hide Pow2, Forward, Unused;
    if p < |f| {
      FieldValues(f[p]);
    }
  }
}
