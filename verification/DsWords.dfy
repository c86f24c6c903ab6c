/** COS blocked datasets: the control words, and records packed into words. */
module DsWords {
  import opened Bits
  import opened Words

  const BLOCK: nat := 512       // words in a 4096-byte block

  const BCW: nat := 0
  const EOR: nat := 8
  const EOF: nat := 14
  const EOD: nat := 15

  /* ----- the fields of a control word ----- */

  function Kind(w: Word): nat {
    GetBitsReverse(w, 0, 3)
  }

  function Unused(w: Word): nat {
    GetBitsReverse(w, 4, 9)
  }

  function PrevFile(w: Word): nat {
    GetBitsReverse(w, 20, 39)
  }

  function PrevRecord(w: Word): nat {
    GetBitsReverse(w, 40, 54)
  }

  function BlockNumber(w: Word): nat {
    GetBitsReverse(w, 31, 54)
  }

  function Forward(w: Word): nat {
    GetBitsReverse(w, 55, 63)
  }

  /** Everything but the forward index. */
  predicate SameFields(w: Word, v: Word) {
    && Kind(w) == Kind(v) && Unused(w) == Unused(v) && PrevFile(w) == PrevFile(v)
    && PrevRecord(w) == PrevRecord(v) && BlockNumber(w) == BlockNumber(v)
  }

  /** The powers behind the field widths. */
  lemma Widths()
    ensures Pow2(4) == 16 && Pow2(6) == 64 && Pow2(9) == BLOCK
    ensures Pow2(15) == 0x8000 && Pow2(20) == 0x10_0000 && Pow2(24) == 0x100_0000
  {
    var a, b, c, d := 4, 5, 2, 15;
    assert Pow2(2) == 4 && Pow2(4) == 16 && Pow2(5) == 32;
    Pow2Add(a, b);
    Pow2Add(a, c);
    Pow2Add(b, b);
    Pow2Add(2 * b, b);
    Pow2Add(d, b);
    Pow2Add(d + b, a);
  }

  /* ----- the setters ----- */

  function SetForward(w: Word, n: nat): (r: Word)
    ensures SameFields(r, w)
    ensures n < BLOCK ==> Forward(r) == n
  {
    hide GetBitsReverse, SetBitsReverse, Pow2;
    Widths();
    GetSetOther(w, 55, 63, n, 0, 3);
    GetSetOther(w, 55, 63, n, 4, 9);
    GetSetOther(w, 55, 63, n, 20, 39);
    GetSetOther(w, 55, 63, n, 40, 54);
    GetSetOther(w, 55, 63, n, 31, 54);
    SetBitsReverse(w, 55, 63, n)
  }

  function SetKind(w: Word, kind: nat): (r: Word)
    ensures Kind(r) == kind % 16 && Forward(r) == Forward(w)
  {
    hide GetBitsReverse, SetBitsReverse, Pow2;
    Widths();
    GetSetOther(w, 0, 3, kind, 55, 63);
    SetBitsReverse(w, 0, 3, kind)
  }

  function SetBlockNumber(w: Word, number: nat): (r: Word)
    ensures Kind(r) == Kind(w) && BlockNumber(r) == number % 0x100_0000
  {
    hide GetBitsReverse, SetBitsReverse, Pow2;
    Widths();
    GetSetOther(w, 31, 54, number, 0, 3);
    SetBitsReverse(w, 31, 54, number)
  }

  function SetUnused(w: Word, n: nat): (r: Word)
    ensures Forward(r) == Forward(w) && Kind(r) == Kind(w) && Unused(r) == n % 64
  {
    hide GetBitsReverse, SetBitsReverse, Pow2;
    Widths();
    GetSetOther(w, 4, 9, n, 0, 3);
    GetSetOther(w, 4, 9, n, 55, 63);
    SetBitsReverse(w, 4, 9, n)
  }

  function SetPrevFile(w: Word, n: nat): (r: Word)
    ensures Forward(r) == Forward(w) && Kind(r) == Kind(w) && Unused(r) == Unused(w) && PrevFile(r) == n % 0x10_0000
  {
    hide GetBitsReverse, SetBitsReverse, Pow2;
    Widths();
    GetSetOther(w, 20, 39, n, 0, 3);
    GetSetOther(w, 20, 39, n, 4, 9);
    GetSetOther(w, 20, 39, n, 55, 63);
    SetBitsReverse(w, 20, 39, n)
  }

  function SetPrevRecord(w: Word, n: nat): (r: Word)
    ensures Forward(r) == Forward(w) && Kind(r) == Kind(w) && Unused(r) == Unused(w) && PrevFile(r) == PrevFile(w)
    ensures PrevRecord(r) == n % 0x8000
  {
    hide GetBitsReverse, SetBitsReverse, Pow2;
    Widths();
    GetSetOther(w, 40, 54, n, 0, 3);
    GetSetOther(w, 40, 54, n, 4, 9);
    GetSetOther(w, 40, 54, n, 20, 39);
    GetSetOther(w, 40, 54, n, 55, 63);
    SetBitsReverse(w, 40, 54, n)
  }

  lemma ForwardOfZero(w: Word)
    ensures w == 0 ==> Forward(w) == 0
  {
    Widths();
  }

  /** A block control word: cleared, then type, number and forward index 0. */
  function BlockWord(number: nat): (r: Word)
    ensures Kind(r) == BCW && BlockNumber(r) == number % 0x100_0000 && Forward(r) == 0
  {
    hide GetBitsReverse, SetKind, SetBlockNumber, SetForward;
    SetForward(SetBlockNumber(SetKind(0, BCW), number), 0)
  }

  /** An end-of-record, end-of-file or end-of-data word. */
  function MarkWord(kind: nat, unused: nat, prevFile: nat, prevRecord: nat): (r: Word)
    requires kind < 16 && unused < 64
    ensures Kind(r) == kind && Unused(r) == unused
    ensures PrevFile(r) == prevFile % 0x10_0000 && PrevRecord(r) == prevRecord % 0x8000 && Forward(r) == 0
  {
    hide GetBitsReverse, SetKind, SetUnused, SetPrevFile, SetPrevRecord;
    ForwardOfZero(0);
    SetPrevRecord(SetPrevFile(SetUnused(SetKind(0, kind), unused), prevFile), prevRecord)
  }

  /* ----- records as words ----- */

  function Zeros(n: nat): (s: seq<byte>)
    ensures |s| == n
  {
    seq(n, _ => 0)
  }

  /** A record as words, the last one padded with zero bytes. */
  function Pack(r: seq<byte>): (ws: seq<Word>)
    ensures |ws| == (|r| + 7) / 8
  {
    if r == [] then []
    else if |r| <= 8 then [WordAt(r + Zeros(8 - |r|), 0)]
    else [WordAt(r, 0)] + Pack(r[8..])
  }

  function Unpack(ws: seq<Word>): (r: seq<byte>)
    ensures |r| == 8 * |ws|
  {
    if ws == [] then [] else ToBytes(ws[0], 8) + Unpack(ws[1..])
  }

  lemma WordBack(s: seq<byte>)
    requires |s| >= 8
    ensures ToBytes(WordAt(s, 0), 8) == s[..8]
  {
    assert s[0..8] == s[..8];
    ToFromBytes(s[..8]);
  }

  lemma {:induction false} UnpackPack(r: seq<byte>)
    ensures Unpack(Pack(r))[..|r|] == r
  {
    if r == [] {
    } else if |r| <= 8 {
      var s := r + Zeros(8 - |r|);
      WordBack(s);
      assert Pack(r)[1..] == [];
      assert s[..8][..|r|] == r;
    } else {
      WordBack(r);
      UnpackPack(r[8..]);
      assert Pack(r)[1..] == Pack(r[8..]);
      assert r == r[..8] + r[8..];
    }
  }

  /** A record may be packed piece by piece, if the pieces are whole words. */
  lemma {:induction false} PackSplit(r: seq<byte>, n: nat)
    requires 8 * n <= |r|
    ensures Pack(r) == Pack(r[..8 * n]) + Pack(r[8 * n..])
    decreases n
  {
    hide Pack, WordAt;
    PackNone();
    if n == 0 {
      assert r[..0] == [] && r[0..] == r;
    } else if |r| <= 8 {
      assert r[..8 * n] == r && r[8 * n..] == [];
    } else {
      PackSplit(r[8..], n - 1);
      assert r[8..][..8 * (n - 1)] == r[..8 * n][8..];
      assert r[8..][8 * (n - 1)..] == r[8 * n..];
      PackHead(r, 8 * n);
      PackLong(r);
    }
  }

  lemma PackNone()
    ensures Pack([]) == []
  {
  }

  lemma PackLong(r: seq<byte>)
    requires |r| > 8
    ensures Pack(r) == [WordAt(r, 0)] + Pack(r[8..])
  {
  }

  lemma PackPiece(r: seq<byte>, n: nat)
    requires 8 * n <= |r|
    ensures |Pack(r[..8 * n])| == n <= |Pack(r)|
    ensures Pack(r)[..n] == Pack(r[..8 * n]) && Pack(r)[n..] == Pack(r[8 * n..])
  {
    PackSplit(r, n);
  }

  lemma PackHead(r: seq<byte>, k: nat)
    requires 8 <= k <= |r| && k % 8 == 0
    ensures Pack(r[..k]) == [WordAt(r, 0)] + Pack(r[..k][8..])
  {
    assert r[..k][0..8] == r[0..8];
    if k == 8 {
      assert r[..k] + Zeros(0) == r[..k];
      assert r[..k][8..] == [];
    }
  }

  /** What the type field makes of the first word of a record. */
  lemma FirstNibble(r: seq<byte>)
    requires r != []
    ensures Kind(Pack(r)[0]) == r[0] / 16
  {
    var s := if |r| <= 8 then r + Zeros(8 - |r|) else r;
    TopNibble(s[0..8]);
  }

  lemma TopNibble(s: seq<byte>)
    requires |s| == 8
    ensures FromBytes(s) < TWO64 && GetBitsReverse(FromBytes(s), 0, 3) == s[0] / 16
  {
    Pow2At64();
    TopByte(s);
    var x, h := FromBytes(s), 4;
    Widths();
    Pow2Add(56, h);
    DivDiv(x, Pow2(56), 16);
    assert Pow2(8 * 7) == Pow2(56);
    assert x / Pow2(60) == s[0] / 16;
  }
}
