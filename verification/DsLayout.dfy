/** The layout of a blocked dataset as a function of the calls that wrote it,
    and the walk along its forward indices. */
module DsLayout {
  import opened Bits
  import opened DsWords

  type File = seq<Word>

  /** A word of the dataset: the block it is in and its offset there. */
  datatype Place = Place(block: nat, ofs: nat) {
    predicate Ok() { ofs < BLOCK }
    function Index(): nat { BLOCK * block + ofs }
    function Room(): int { BLOCK - 1 - ofs }   // words of the block behind it
  }

  /** What the program asks of a dataset, in call order. */
  datatype Call = Record(bytes: seq<byte>) | EndFile | EndData

  function Payload(c: Call): seq<Word> {
    if c.Record? then Pack(c.bytes) else []
  }

  function KindOf(c: Call): nat {
    match c
    case Record(_) => EOR
    case EndFile => EOF
    case EndData => EOD
  }

  /** Bits of the last data word that are padding. */
  function Padding(c: Call): (n: nat)
    ensures n < 64
  {
    if c.Record? then (8 * |Payload(c)| - |c.bytes|) * 8 else 0
  }

  /* ----- laying out one payload behind a control word ----- */

  /** The words from place `at` on: control word cw, the payload, and a block
      control word at the start of every block it reaches. */
  function Lay(at: Place, cw: Word, d: seq<Word>): (ws: seq<Word>)
    requires at.Ok()
    ensures |ws| > |d|
    decreases |d|, if at.Room() == 0 then 1 else 0
  {
    hide SetForward, BlockWord;
    var b := at.block + 1;
    if |d| < at.Room() then
      [SetForward(cw, |d|)] + d
    else if |d| == at.Room() then
      [SetForward(cw, |d|)] + d + [BlockWord(b)]
    else
      [SetForward(cw, at.Room())] + d[..at.Room()] + Lay(Place(b, 0), BlockWord(b), d[at.Room()..])
  }

  /** Where the next control mark stands after n words of payload. */
  function After(at: Place, n: nat): (q: Place)
    requires at.Ok()
    ensures q.Ok() && q.ofs > 0 && q.block >= at.block && q.Index() > at.Index()
    decreases n, if at.Room() == 0 then 1 else 0
  {
    if n < at.Room() then Place(at.block, at.ofs + 1 + n)
    else if n == at.Room() then Place(at.block + 1, 1)
    else After(Place(at.block + 1, 0), n - at.Room())
  }

  lemma {:induction false} LayLength(at: Place, cw: Word, d: seq<Word>)
    requires at.Ok()
    ensures at.Index() + |Lay(at, cw, d)| == After(at, |d|).Index()
    decreases |d|, if at.Room() == 0 then 1 else 0
  {
    hide SetForward, BlockWord;
    if |d| > at.Room() {
      LayLength(Place(at.block + 1, 0), BlockWord(at.block + 1), d[at.Room()..]);
    }
  }

  /** The two steps of Lay: the payload ends in this block, or it does not. */
  lemma LayLast(at: Place, cw: Word, d: seq<Word>)
    requires at.Ok() && |d| <= at.Room()
    ensures var full := |d| == at.Room();
      && Lay(at, cw, d) == [SetForward(cw, |d|)] + d + (if full then [BlockWord(at.block + 1)] else [])
      && After(at, |d|) == if full then Place(at.block + 1, 1) else Place(at.block, at.ofs + 1 + |d|)
  {
    hide SetForward, BlockWord;
  }

  /** What Lay puts into the following blocks. */
  function LayRest(at: Place, d: seq<Word>): seq<Word>
    requires at.Ok() && |d| > at.Room()
  {
    hide SetForward, BlockWord;
    Lay(Place(at.block + 1, 0), BlockWord(at.block + 1), d[at.Room()..])
  }

  lemma LayMore(at: Place, cw: Word, d: seq<Word>, room: nat, d0: seq<Word>)
    requires at.Ok() && room == at.Room() && |d| > room && d0 == d[..room]
    ensures Lay(at, cw, d) == [SetForward(cw, room)] + d0 + LayRest(at, d)
  {
    hide SetForward, BlockWord, SameFields, Kind, Forward, BlockNumber;
  }

  lemma AfterMore(at: Place, n: nat)
    requires at.Ok() && n > at.Room()
    ensures After(at, n) == After(Place(at.block + 1, 0), n - at.Room())
  {
  }

  /** A record that goes on in the next block: what is written of it now, and
      what is left. */
  lemma LayPiece(out: File, at: Place, cw: Word, r: seq<byte>, n: nat)
    requires at.Ok() && n == at.Room() && 8 * n <= |r| && |Pack(r)| > n
    ensures |Pack(r[..8 * n])| == n
    ensures var next := Place(at.block + 1, 0);
      After(at, |Pack(r)|) == After(next, |Pack(r[8 * n..])|)
    ensures out + Lay(at, cw, Pack(r)) == (out + [SetForward(cw, n)] + Pack(r[..8 * n])) + LayNext(at, r[8 * n..])
  {
    hide SetForward, BlockWord, Pack, Lay, After;
    PackPiece(r, n);
    LayMore(at, cw, Pack(r), n, Pack(r[..8 * n]));
    AfterMore(at, |Pack(r)|);
    assert LayRest(at, Pack(r)) == LayNext(at, r[8 * n..]);
  }

  /** The rest r of a record, from the start of the next block on. */
  function LayNext(at: Place, r: seq<byte>): seq<Word> {
    hide SetForward, BlockWord;
    Lay(Place(at.block + 1, 0), BlockWord(at.block + 1), Pack(r))
  }

  /* ----- a whole dataset ----- */

  /** The control word that call c leaves behind: it stands at e, the previous
      one at p, and the current file began in block fs. */
  function Mark(c: Call, p: Place, e: Place, fs: nat): Word
    requires fs <= p.block <= e.block
  {
    match c
    case Record(_) => MarkWord(KindOf(c), Padding(c), e.block - fs, e.block - p.block)
    case EndFile => MarkWord(KindOf(c), 0, e.block - fs, 0)
    case EndData => MarkWord(KindOf(c), 0, 0, 0)
  }

  function FileStart(c: Call, e: Place, fs: nat): nat {
    if c.EndFile? then e.block else fs
  }

  /** The words from place `at` on, for the calls still to come. */
  function Render(at: Place, cw: Word, fs: nat, calls: seq<Call>): File
    requires at.Ok() && fs <= at.block
    decreases |calls|
  {
    hide Mark, Lay;
    if calls == [] then [cw]
    else
      var d := Payload(calls[0]);
      var e := After(at, |d|);
      Lay(at, cw, d) + Render(e, Mark(calls[0], at, e, fs), FileStart(calls[0], e, fs), calls[1..])
  }

  lemma RenderCons(at: Place, cw: Word, fs: nat, c: Call, rest: seq<Call>)
    requires at.Ok() && fs <= at.block
    ensures var e := After(at, |Payload(c)|);
      Render(at, cw, fs, [c] + rest) ==
      Lay(at, cw, Payload(c)) + Render(e, Mark(c, at, e, fs), FileStart(c, e, fs), rest)
  {
    hide Lay, Mark, Payload, FileStart, After;
    assert ([c] + rest)[1..] == rest;
  }

  function Start(): (p: Place)
    ensures p.Ok()
  {
    Place(0, 0)
  }

  /** The file that a writer leaves behind that gets these calls. */
  function Dataset(calls: seq<Call>): File {
    hide BlockWord, Render;
    Render(Start(), BlockWord(Start().block), 0, calls + [EndData])
  }

  /* ----- walking from mark to mark ----- */

  /** What stands at p: the data up to the next mark, and that mark's index. */
  datatype Walked = Walked(data: seq<Word>, mark: nat) | Lost

  /** From the control word at p over block control words to the next mark. */
  function Next(f: File, p: nat): (r: Walked)
    requires p < |f|
    ensures r.Walked? ==> p < r.mark < |f|
    decreases |f| - p
  {
    hide Forward, Kind;
    var q := p + 1 + Forward(f[p]);
    if q >= |f| then Lost
    else if Kind(f[q]) != BCW then Walked(f[p + 1..q], q)
    else
      match Next(f, q)
      case Walked(d, m) => Walked(f[p + 1..q] + d, m)
      case Lost => Lost
  }

  /** ws stands at position p of f. */
  predicate At(f: File, p: nat, ws: seq<Word>) {
    p + |ws| <= |f| && f[p..p + |ws|] == ws
  }

  lemma AtParts(f: File, p: nat, a: seq<Word>, b: seq<Word>)
    requires At(f, p, a + b)
    ensures At(f, p, a) && At(f, p + |a|, b)
  {
    assert f[p..p + |a|] == (a + b)[..|a|];
    assert f[p + |a|..p + |a| + |b|] == (a + b)[|a|..];
  }

  lemma AtFirst(f: File, p: nat, w: Word, rest: seq<Word>)
    requires At(f, p, [w] + rest)
    ensures p < |f| && f[p] == w && At(f, p + 1, rest)
  {
    AtParts(f, p, [w], rest);
    assert f[p..p + 1][0] == f[p];
  }

  /** One control word and its data, something behind it. */
  lemma LayFits(f: File, p: nat, cw: Word, d: seq<Word>, rest: seq<Word>)
    requires |d| < BLOCK && At(f, p, [SetForward(cw, |d|)] + d + rest)
    ensures p < |f| && SameFields(f[p], cw) && Forward(f[p]) == |d|
    ensures p + 1 + |d| + |rest| <= |f| && f[p + 1..p + 1 + |d|] == d && At(f, p + 1 + |d|, rest)
  {
    hide Kind, Forward, SetForward, SameFields;
    AtParts(f, p, [SetForward(cw, |d|)] + d, rest);
    AtFirst(f, p, SetForward(cw, |d|), d);
  }

  /** A full block, and the block control word of the next one without data. */
  lemma NextOverBlockWord(f: File, p: nat, cw: Word, d: seq<Word>, w: Word)
    requires |d| < BLOCK && At(f, p, [SetForward(cw, |d|)] + d + [w]) && p + |d| + 2 < |f|
    requires Forward(w) == 0 && Kind(w) == BCW && Kind(f[p + |d| + 2]) != BCW
    ensures Next(f, p) == Walked(d, p + |d| + 2) && SameFields(f[p], cw)
  {
    hide Kind, Forward, SetForward, SameFields, Next, At;
    LayFits(f, p, cw, d, [w]);
    var q := p + 1 + |d|;
    assert [w] == [w] + [];
    AtFirst(f, q, w, []);
    NextDirect(f, q);
    assert f[q + 1..q + 1] == [];
    NextStep(f, p, q, [], q + 1);
    assert d + [] == d;
  }

  lemma FieldKind(w: Word, v: Word)
    requires SameFields(w, v)
    ensures Kind(w) == Kind(v)
  {
  }

  lemma NextStep(f: File, p: nat, q: nat, d: seq<Word>, m: nat)
    requires p < |f| && q == p + 1 + Forward(f[p]) < |f| && Kind(f[q]) == BCW
    requires Next(f, q) == Walked(d, m)
    ensures Next(f, p) == Walked(f[p + 1..q] + d, m)
  {
    hide Kind, Forward;
  }

  /** Reading back what Lay wrote: the payload, and the mark right behind. */
  lemma {:induction false} NextOfLay(f: File, at: Place, cw: Word, d: seq<Word>)
    requires at.Ok() && At(f, at.Index(), Lay(at, cw, d)) && at.Index() + |Lay(at, cw, d)| < |f|
    requires Kind(f[at.Index() + |Lay(at, cw, d)|]) != BCW
    ensures Next(f, at.Index()) == Walked(d, at.Index() + |Lay(at, cw, d)|)
    ensures SameFields(f[at.Index()], cw)
    decreases |d|, if at.Room() == 0 then 1 else 0
  {
    hide Kind, Forward, SetForward, BlockWord, SameFields, At, Next;
    var p, room, b := at.Index(), at.Room(), at.block + 1;
    var ws := Lay(at, cw, d);
    if |d| < room {
      assert [SetForward(cw, |d|)] + d + [] == ws;
      LayFits(f, p, cw, d, []);
      NextDirect(f, p);
    } else if |d| == room {
      NextOverBlockWord(f, p, cw, d, BlockWord(b));
    } else {
      LayFits(f, p, cw, d[..room], Lay(Place(b, 0), BlockWord(b), d[room..]));
      assert Place(b, 0).Index() == p + 1 + room;
      NextOfLay(f, Place(b, 0), BlockWord(b), d[room..]);
      FieldKind(f[p + 1 + room], BlockWord(b));
      NextStep(f, p, p + 1 + room, d[room..], p + |ws|);
      assert d[..room] + d[room..] == d;
    }
  }

  lemma NextDirect(f: File, p: nat)
    requires p < |f| && p + 1 + Forward(f[p]) < |f| && Kind(f[p + 1 + Forward(f[p])]) != BCW
    ensures Next(f, p) == Walked(f[p + 1..p + 1 + Forward(f[p])], p + 1 + Forward(f[p]))
  {
    hide Kind, Forward;
  }
}
