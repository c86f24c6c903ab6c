/** What a written dataset looks like to a reader: mark after mark, and hop
    after hop along the forward indices. */
module DsStructure {
  import opened Bits
  import opened DsWords
  import opened DsLayout

  /* ----- mark after mark ----- */

  /** Behind the control word at `at` stands the payload of c, then its mark. */
  predicate Follows(f: File, at: Place, c: Call)
    requires at.Ok()
  {
    var p, d, e := at.Index(), Payload(c), After(at, |Payload(c)|).Index();
    && p + 1 <= e < |f| && Next(f, p) == Walked(d, e)
    && Kind(f[e]) == KindOf(c) && Unused(f[e]) == Padding(c)
    && (if at.Room() == 0 then Kind(f[p + 1]) == BCW else d != [] ==> f[p + 1] == d[0])
  }

  /** From `at` on the file holds exactly these calls. */
  predicate Holds(f: File, at: Place, calls: seq<Call>)
    decreases |calls|
  {
    && at.Ok() && at.Index() < |f|
    && (calls != [] ==>
          Follows(f, at, calls[0]) && Holds(f, After(at, |Payload(calls[0])|), calls[1..]))
  }

  lemma LayPeek(f: File, at: Place, cw: Word, d: seq<Word>)
    requires at.Ok() && At(f, at.Index(), Lay(at, cw, d)) && (at.Room() == 0 || d != [])
    ensures at.Index() + 1 < |f|
    ensures if at.Room() == 0 then Kind(f[at.Index() + 1]) == BCW else f[at.Index() + 1] == d[0]
  {
    hide SetForward, BlockWord, Kind, GetBitsReverse;
    var p, ws := at.Index(), Lay(at, cw, d);
    assert f[p + 1] == ws[1] by {
      assert f[p..p + |ws|][1] == f[p + 1];
    }
    if at.Room() == 0 {
      var w := BlockWord(at.block + 1);
      if d != [] {
        var rest := Lay(Place(at.block + 1, 0), w, d);
        assert d[0..] == d && ws == [SetForward(cw, 0)] + d[..0] + rest;
        assert ws[1] == rest[0];
        FieldKind(rest[0], w);
      }
    }
  }

  /** w is the mark of call c with these block distances. */
  predicate Tells(w: Word, c: Call, toFile: int, toRecord: int) {
    && Kind(w) == KindOf(c) && Unused(w) == Padding(c) && (c.EndData? ==> Forward(w) == 0)
    && PrevFile(w) == (if c.EndData? then 0 else toFile % 0x10_0000)
    && PrevRecord(w) == (if c.Record? then toRecord % 0x8000 else 0)
  }

  lemma MarkFields(c: Call, p: Place, e: Place, fs: nat)
    requires fs <= p.block <= e.block
    ensures Tells(Mark(c, p, e, fs), c, e.block - fs, e.block - p.block)
  {
    hide MarkWord, Kind, Unused, PrevFile, PrevRecord, Forward, Pack, Payload;
  }

  /** One call at a time: its words, then the rest of the file. */
  lemma RenderParts(f: File, at: Place, cw: Word, fs: nat, calls: seq<Call>)
    requires at.Ok() && fs <= at.block && calls != []
    requires At(f, at.Index(), Render(at, cw, fs, calls))
    ensures var d := Payload(calls[0]); var e := After(at, |d|);
      && At(f, at.Index(), Lay(at, cw, d)) && e.Index() == at.Index() + |Lay(at, cw, d)|
      && At(f, e.Index(), Render(e, Mark(calls[0], at, e, fs), FileStart(calls[0], e, fs), calls[1..]))
      && |Render(at, cw, fs, calls)| == |Lay(at, cw, d)|
           + |Render(e, Mark(calls[0], at, e, fs), FileStart(calls[0], e, fs), calls[1..])|
  {
    hide Lay, Mark, After, At, Payload;
    var d := Payload(calls[0]);
    var e := After(at, |d|);
    LayLength(at, cw, d);
    AtParts(f, at.Index(), Lay(at, cw, d),
      Render(e, Mark(calls[0], at, e, fs), FileStart(calls[0], e, fs), calls[1..]));
  }

  lemma LastWord(f: File, p: nat, w: Word)
    requires At(f, p, [w])
    ensures p < |f| && f[p] == w
  {
    assert f[p..p + 1][0] == f[p];
  }

  lemma SameAs(w: Word, v: Word)
    requires SameFields(w, v)
    ensures Kind(w) == Kind(v) && Unused(w) == Unused(v)
  {
  }

  lemma FollowsOf(f: File, at: Place, cw: Word, c: Call, w: Word)
    requires at.Ok() && At(f, at.Index(), Lay(at, cw, Payload(c)))
    requires var e := After(at, |Payload(c)|).Index();
      e == at.Index() + |Lay(at, cw, Payload(c))| < |f| && SameFields(f[e], w)
    requires Kind(w) == KindOf(c) && Unused(w) == Padding(c)
    ensures Follows(f, at, c) && SameFields(f[at.Index()], cw)
  {
    hide Lay, Pack, SameFields, At, Kind, Unused, Next, After;
    var d := Payload(c);
    SameAs(f[After(at, |d|).Index()], w);
    NextOfLay(f, at, cw, d);
    if at.Room() == 0 || d != [] {
      LayPeek(f, at, cw, d);
    }
  }

  /** The file a writer leaves behind holds its calls, in order. */
  lemma {:induction false} RenderHolds(f: File, at: Place, cw: Word, fs: nat, calls: seq<Call>)
    requires at.Ok() && fs <= at.block && At(f, at.Index(), Render(at, cw, fs, calls))
    ensures at.Index() < |f| && Holds(f, at, calls) && SameFields(f[at.Index()], cw)
    decreases |calls|
  {
    hide Lay, Pack, Mark, SameFields, At, Kind, Unused, After, Follows;
    if calls == [] {
      LastWord(f, at.Index(), cw);
      SameSelf(cw);
    } else {
      var c := calls[0];
      var e := After(at, |Payload(c)|);
      RenderParts(f, at, cw, fs, calls);
      MarkFields(c, at, e, fs);
      RenderHolds(f, e, Mark(c, at, e, fs), FileStart(c, e, fs), calls[1..]);
      FollowsOf(f, at, cw, c, Mark(c, at, e, fs));
    }
  }

  lemma SameSelf(w: Word)
    ensures SameFields(w, w)
  {
  }

  /** The file written for a list of calls holds exactly those calls. */
  lemma DatasetHolds(calls: seq<Call>)
    ensures Holds(Dataset(calls), Start(), calls + [EndData])
    ensures Kind(Dataset(calls)[0]) == BCW
  {
    hide BlockWord, Render, Kind, SameFields, Holds;
    var f := Dataset(calls);
    assert f[0..|f|] == f;
    RenderHolds(f, Start(), BlockWord(0), 0, calls + [EndData]);
    FieldKind(f[0], BlockWord(0));
  }

  /* ----- hop after hop ----- */

  /** A control word at `at`: block control words, correctly numbered, stand at
      block starts and only there, and no hop passes the next block start. */
  predicate HopOk(f: File, at: Place) {
    && at.Ok() && at.Index() < |f|
    && at.ofs + 1 + Forward(f[at.Index()]) <= BLOCK
    && (Kind(f[at.Index()]) == BCW <==> at.ofs == 0)
    && (at.ofs == 0 ==> BlockNumber(f[at.Index()]) == at.block % 0x100_0000)
  }

  function Hop(at: Place, n: nat): Place {
    if at.ofs + 1 + n == BLOCK then Place(at.block + 1, 0) else Place(at.block, at.ofs + 1 + n)
  }

  /** Following the forward indices from `at` leads exactly to the end. */
  predicate Walk(f: File, at: Place)
    decreases |f| - at.Index()
  {
    hide Forward, Kind, BlockNumber;
    at.Index() == |f| || (HopOk(f, at) && Walk(f, Hop(at, Forward(f[at.Index()]))))
  }

  /** A mark as the file shows it. */
  datatype Seen = Seen(at: Place, kind: nat, unused: nat, prevFile: nat, prevRecord: nat)

  function Show(at: Place, w: Word): Seen {
    Seen(at, Kind(w), Unused(w), PrevFile(w), PrevRecord(w))
  }

  /** The control words met on the way, without the block control words. */
  function Marks(f: File, at: Place): seq<Seen>
    requires Walk(f, at)
    decreases |f| - at.Index()
  {
    hide Forward, Kind, BlockNumber, Unused, PrevFile, PrevRecord;
    if at.Index() == |f| then []
    else
      var w := f[at.Index()];
      (if Kind(w) == BCW then [] else [Show(at, w)]) + Marks(f, Hop(at, Forward(w)))
  }

  /** The marks the calls should leave, block distances computed from offsets. */
  function Expected(at: Place, fs: nat, calls: seq<Call>): seq<Seen>
    requires at.Ok() && fs <= at.block
    decreases |calls|
  {
    if calls == [] then []
    else
      var c, e := calls[0], After(at, |Payload(calls[0])|);
      [Seen(e, KindOf(c), Padding(c),
            if c.EndData? then 0 else (e.block - fs) % 0x10_0000,
            if c.Record? then (e.block - at.block) % 0x8000 else 0)]
      + Expected(e, FileStart(c, e, fs), calls[1..])
  }

  /** The marks met from `at` on, the word there being like cw. */
  ghost predicate Leads(f: File, at: Place, cw: Word, e: Place) {
    && Walk(f, e) && Walk(f, at)
    && Marks(f, at) == (if Kind(cw) == BCW then [] else [Show(at, cw)]) + Marks(f, e)
  }

  lemma ShowSame(at: Place, w: Word, v: Word)
    requires SameFields(w, v)
    ensures Show(at, w) == Show(at, v) && Kind(w) == Kind(v) && BlockNumber(w) == BlockNumber(v)
  {
    hide Kind, Unused, PrevFile, PrevRecord, BlockNumber;
  }

  lemma OneHop(f: File, at: Place, cw: Word, n: nat)
    requires at.Ok() && at.Index() < |f| && SameFields(f[at.Index()], cw) && Forward(f[at.Index()]) == n
    requires at.ofs + 1 + n <= BLOCK && (Kind(cw) == BCW <==> at.ofs == 0)
    requires at.ofs == 0 ==> BlockNumber(cw) == at.block % 0x100_0000
    requires Walk(f, Hop(at, n))
    ensures Leads(f, at, cw, Hop(at, n))
  {
    hide Forward, Kind, BlockNumber, SameFields, Show;
    ShowSame(at, f[at.Index()], cw);
  }

  lemma LeadsOn(f: File, at: Place, cw: Word, m: Place, w: Word, e: Place)
    requires Leads(f, at, cw, m) && Leads(f, m, w, e) && Kind(w) == BCW
    ensures Leads(f, at, cw, e)
  {
    hide Kind, Walk, Show;
    assert Marks(f, m) == Marks(f, e);
  }

  /** The hops over what Lay wrote. */
  lemma {:induction false} WalkLay(f: File, at: Place, cw: Word, d: seq<Word>)
    requires at.Ok() && At(f, at.Index(), Lay(at, cw, d))
    requires Kind(cw) == BCW <==> at.ofs == 0
    requires at.ofs == 0 ==> BlockNumber(cw) == at.block % 0x100_0000
    requires Walk(f, After(at, |d|))
    ensures Leads(f, at, cw, After(at, |d|))
    decreases |d|, if at.Room() == 0 then 1 else 0
  {
    hide Kind, Forward, SetForward, BlockWord, BlockNumber, SameFields, At, Walk, Leads;
    var p, room, m := at.Index(), at.Room(), Place(at.block + 1, 0);
    var w := BlockWord(m.block);
    if |d| < room {
      assert [SetForward(cw, |d|)] + d + [] == Lay(at, cw, d);
      LayFits(f, p, cw, d, []);
      OneHop(f, at, cw, |d|);
    } else if |d| == room {
      LayFits(f, p, cw, d, [w]);
      LastWord(f, m.Index(), w);
      SameSelf(w);
      OneHop(f, m, w, 0);
      LeadsWalk(f, m, w, Hop(m, 0));
      OneHop(f, at, cw, |d|);
      LeadsOn(f, at, cw, m, w, After(at, |d|));
    } else {
      LayFits(f, p, cw, d[..room], Lay(m, w, d[room..]));
      WalkLay(f, m, w, d[room..]);
      LeadsWalk(f, m, w, After(at, |d|));
      OneHop(f, at, cw, room);
      LeadsOn(f, at, cw, m, w, After(at, |d|));
    }
  }

  lemma LeadsWalk(f: File, at: Place, cw: Word, e: Place)
    requires Leads(f, at, cw, e)
    ensures Walk(f, at)
  {
    hide Walk, Kind, Show;
  }

  /** The end-of-data word ends the walk at the end of the file. */
  lemma WalkEnd(f: File, at: Place, cw: Word)
    requires at.Ok() && at.ofs > 0 && |f| == at.Index() + 1 && f[at.Index()] == cw
    requires Kind(cw) != BCW && Forward(cw) == 0
    ensures Walk(f, at) && Marks(f, at) == [Show(at, cw)]
  {
    hide Kind, Forward, BlockNumber, Show;
    var m := Hop(at, 0);
    assert Walk(f, m) && Marks(f, m) == [];
  }

  /** The walk through the whole file, and the marks it meets. */
  lemma {:induction false} RenderWalks(f: File, at: Place, cw: Word, fs: nat, calls: seq<Call>)
    requires at.Ok() && fs <= at.block
    requires At(f, at.Index(), Render(at, cw, fs, calls)) && |f| == at.Index() + |Render(at, cw, fs, calls)|
    requires Kind(cw) == BCW <==> at.ofs == 0
    requires at.ofs == 0 ==> BlockNumber(cw) == at.block % 0x100_0000
    requires if calls == [] then Kind(cw) != BCW && Forward(cw) == 0 else calls[|calls| - 1] == EndData
    ensures Walk(f, at)
    ensures Marks(f, at) == (if Kind(cw) == BCW then [] else [Show(at, cw)]) + Expected(at, fs, calls)
    decreases |calls|
  {
    hide Lay, Pack, Mark, Show, At, Walk, Kind, Forward, BlockNumber, Unused, PrevFile, PrevRecord, After;
    if calls == [] {
      LastWord(f, at.Index(), cw);
      WalkEnd(f, at, cw);
    } else {
      var c := calls[0];
      var e := After(at, |Payload(c)|);
      var w := Mark(c, at, e, fs);
      RenderParts(f, at, cw, fs, calls);
      MarkFields(c, at, e, fs);
      RenderWalks(f, e, w, FileStart(c, e, fs), calls[1..]);
      WalkLay(f, at, cw, Payload(c));
      LeadsWalk(f, at, cw, e);
      assert Show(e, w) == Expected(at, fs, calls)[0] by { ShowIs(e, w); }
    }
  }

  lemma ShowIs(at: Place, w: Word)
    ensures Show(at, w) == Seen(at, Kind(w), Unused(w), PrevFile(w), PrevRecord(w))
  {
  }

  /** The walk from `at` meets exactly the marks of these calls. */
  predicate Meets(f: File, at: Place, fs: nat, calls: seq<Call>) {
    at.Ok() && fs <= at.block && Walk(f, at) && Marks(f, at) == Expected(at, fs, calls)
  }

  /** Forward indices lead through the whole file of any sequence of calls; the
      words met are the block control words and, in call order, one mark for
      each call, then the end-of-data word. */
  lemma DatasetWalks(calls: seq<Call>)
    ensures Meets(Dataset(calls), Start(), 0, calls + [EndData])
  {
    hide BlockWord, Render, Kind, BlockNumber, Forward, Walk, Show, After;
    var f := Dataset(calls);
    assert f[0..|f|] == f;
    RenderWalks(f, Start(), BlockWord(Start().block), 0, calls + [EndData]);
  }

  /** Block b starts with its own block control word. */
  predicate Numbered(f: File, b: nat) {
    BLOCK * b < |f| ==> Kind(f[BLOCK * b]) == BCW && BlockNumber(f[BLOCK * b]) == b % 0x100_0000
  }

  lemma {:induction false} BlockStarts(f: File, at: Place, b: nat)
    requires Walk(f, at) && at.Index() <= BLOCK * b
    ensures Numbered(f, b)
    decreases |f| - at.Index()
  {
    hide Kind, Forward, BlockNumber;
    if BLOCK * b < |f| {
      assert HopOk(f, at);
      if at.Index() == BLOCK * b {
        assert at == Place(b, 0);
      } else {
        var m := Hop(at, Forward(f[at.Index()]));
        assert at.block < b;
        BlockStarts(f, m, b);
      }
    }
  }

  lemma DatasetBlocks(calls: seq<Call>, b: nat)
    ensures Numbered(Dataset(calls), b)
  {
    hide Dataset, Kind, BlockNumber, Walk, Expected, Marks, Numbered;
    DatasetWalks(calls);
    BlockStarts(Dataset(calls), Start(), b);
  }

  /* ----- the block distances ----- */

  /** The block of the mark before mark j. */
  function BlockBefore(ms: seq<Seen>, first: nat, j: nat): nat
    requires j <= |ms|
  {
    if j == 0 then first else ms[j - 1].at.block
  }

  /** The block of the last end of file before mark j. */
  function FileBefore(ms: seq<Seen>, first: nat, j: nat): nat
    requires j <= |ms|
  {
    if j == 0 then first else if ms[j - 1].kind == EOF then ms[j - 1].at.block else FileBefore(ms, first, j - 1)
  }

  /** Mark j tells how many blocks back the mark before it stands, if it ends a
      record, and how many the file's start. */
  predicate Distances(ms: seq<Seen>, first: nat, file: nat, j: nat)
    requires j < |ms|
  {
    var m := ms[j];
    && m.prevRecord == (if m.kind == EOR then (m.at.block - BlockBefore(ms, first, j)) % 0x8000 else 0)
    && m.prevFile == (if m.kind == EOD then 0 else (m.at.block - FileBefore(ms, file, j)) % 0x10_0000)
  }

  lemma {:induction false} FileBeforeCons(m: Seen, ms: seq<Seen>, file: nat, j: nat)
    requires j <= |ms|
    ensures FileBefore([m] + ms, file, j + 1) == FileBefore(ms, if m.kind == EOF then m.at.block else file, j)
    decreases j
  {
    if j > 0 {
      FileBeforeCons(m, ms, file, j - 1);
    }
  }

  lemma {:induction false} ExpectedDistances(at: Place, fs: nat, calls: seq<Call>, j: nat)
    requires at.Ok() && fs <= at.block && j < |Expected(at, fs, calls)|
    ensures Distances(Expected(at, fs, calls), at.block, fs, j)
    decreases |calls|
  {
    hide After, Payload, Padding;
    if j > 0 {
      var c := calls[0];
      var e := After(at, |Payload(c)|);
      var ms := Expected(e, FileStart(c, e, fs), calls[1..]);
      var m := Expected(at, fs, calls)[0];
      assert Expected(at, fs, calls) == [m] + ms;
      ExpectedDistances(e, FileStart(c, e, fs), calls[1..], j - 1);
      FileBeforeCons(m, ms, fs, j - 1);
    }
  }

  /** The walk from `at` meets marks whose distances agree. */
  predicate WellSpaced(f: File, at: Place) {
    Walk(f, at) && forall j :: 0 <= j < |Marks(f, at)| ==> Distances(Marks(f, at), at.block, at.block, j)
  }

  /** In the file of any sequence of calls, every mark has the distances that the
      marks before it give. */
  lemma DatasetDistances(calls: seq<Call>)
    ensures WellSpaced(Dataset(calls), Start())
  {
    hide Marks, Expected, Distances, Dataset, Walk;
    DatasetWalks(calls);
    var f, at, all := Dataset(calls), Start(), calls + [EndData];
    SpacedAs(f, at, all);
  }

  lemma SpacedAs(f: File, at: Place, calls: seq<Call>)
    requires Meets(f, at, at.block, calls)
    ensures WellSpaced(f, at)
  {
    hide Marks, Expected, Distances, Walk;
    forall j | 0 <= j < |Marks(f, at)|
      ensures Distances(Marks(f, at), at.block, at.block, j)
    {
      ExpectedDistances(at, at.block, calls, j);
    }
  }
}
