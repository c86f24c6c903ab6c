/** Directory blocks of the UNICOS file system image: 4096 bytes holding a
    chain of variable-length records.  A record is three header words (inode,
    reserved, lengths) followed by the name, padded to whole words. */
module MkfsDir {
  import opened Bits
  import opened Words

  const BSIZE: nat := 4096

  type Name = seq<byte>

  datatype Entry = Entry(ino: nat, name: Name)

  /** A record as its readers see it: total length, used length, entry. */
  datatype Rec = Rec(len: nat, used: nat, entry: Entry)

  /* ----- chains over decoded records ----- */

  predicate Record(t: nat -> Rec, p: nat) {
    24 <= t(p).used <= t(p).len && p + t(p).len <= BSIZE
  }

  /** From offset p on the block is a chain of records whose lengths add up to
      the rest of the block; only the last may have slack. */
  predicate IsChain(t: nat -> Rec, p: nat)
    decreases BSIZE - p
  {
    && Record(t, p)
    && (p + t(p).len == BSIZE || (t(p).used == t(p).len && IsChain(t, p + t(p).len)))
  }

  function Entries(t: nat -> Rec, p: nat): (es: seq<Entry>)
    requires IsChain(t, p)
    ensures 1 <= |es| && |es| * 24 <= BSIZE - p
    decreases BSIZE - p
  {
    [t(p).entry] + (if p + t(p).len == BSIZE then [] else Entries(t, p + t(p).len))
  }

  /** Offset of the last record of the chain. */
  function LastRec(t: nat -> Rec, p: nat): (q: nat)
    requires IsChain(t, p)
    ensures p <= q && Record(t, q) && q + t(q).len == BSIZE
    decreases BSIZE - p
  {
    if p + t(p).len == BSIZE then p else LastRec(t, p + t(p).len)
  }

  /** Bytes still free after the last record. */
  function Slack(t: nat -> Rec): nat
    requires IsChain(t, 0)
  {
    var q := LastRec(t, 0);
    t(q).len - t(q).used
  }

  /** t' is t with its last record tightened and record e put behind it. */
  ghost predicate Extends(t: nat -> Rec, t': nat -> Rec, q: nat, e: Rec) {
    && (forall i: nat :: i + t(i).used <= q ==> t'(i) == t(i))
    && t'(q) == t(q).(len := t(q).used)
    && t'(q + t(q).used) == e
    && 24 <= e.used <= e.len && q + t(q).used + e.len == BSIZE
  }

  /** Then the chain, and its entry list, grows by exactly that record. */
  lemma {:induction false} ChainAppend(t: nat -> Rec, t': nat -> Rec, p: nat, q: nat, e: Rec)
    requires IsChain(t, p) && q == LastRec(t, p) && Extends(t, t', q, e)
    ensures IsChain(t', p)
    ensures Entries(t', p) == Entries(t, p) + [e.entry]
    ensures LastRec(t', p) == q + t(q).used
    decreases BSIZE - p
  {
    if p == q {
      var at := q + t(q).used;
      assert IsChain(t', at) && Entries(t', at) == [e.entry];
    } else {
      assert t(p).used == t(p).len;
      ChainAppend(t, t', p + t(p).len, q, e);
    }
  }

  lemma SlackAfter(t: nat -> Rec, t': nat -> Rec, q: nat, e: Rec)
    requires IsChain(t, 0) && q == LastRec(t, 0) && Extends(t, t', q, e)
    requires e.len == Slack(t)
    ensures IsChain(t', 0) && Entries(t', 0) == Entries(t, 0) + [e.entry]
    ensures Slack(t') == Slack(t) - e.used
  {
    ChainAppend(t, t', 0, q, e);
  }

  /* ----- the fields of the record at byte offset p ----- */

  predicate Fits(b: seq<byte>, p: nat) {
    |b| == BSIZE && p + 24 <= BSIZE
  }

  function Ino(b: seq<byte>, p: nat): Word
    requires Fits(b, p)
  {
    WordAt(b, p)
  }

  function RecLen(b: seq<byte>, p: nat): nat
    requires Fits(b, p)
  {
    GetBitsReverse(WordAt(b, p + 16), 32, 53)
  }

  function NameLen(b: seq<byte>, p: nat): nat
    requires Fits(b, p)
  {
    GetBitsReverse(WordAt(b, p + 16), 54, 63)
  }

  function UsedFor(nameLen: nat): (u: nat)
    ensures u >= 24 + nameLen
  {
    ((nameLen + 7) / 8 + 3) * 8
  }

  function UsedLength(b: seq<byte>, p: nat): nat
    requires Fits(b, p)
  {
    UsedFor(NameLen(b, p))
  }

  predicate IsLast(b: seq<byte>, p: nat)
    requires Fits(b, p)
  {
    UsedLength(b, p) < RecLen(b, p)
  }

  /** The two length fields of the third header word are independent. */
  function PatchLen(w: Word, len: nat): (r: Word)
    ensures GetBitsReverse(r, 54, 63) == GetBitsReverse(w, 54, 63)
    ensures len <= BSIZE ==> GetBitsReverse(r, 32, 53) == len
  {
    GetSetOther(w, 32, 53, len, 54, 63);
    LenFits(len);
    SetBitsReverse(w, 32, 53, len)
  }

  lemma LenFits(len: nat)
    ensures len <= BSIZE ==> len % Pow2(53 - 32 + 1) == len
  {
    var h := 11;
    assert Pow2(11) == 2048;
    Pow2Add(h, h);
    if len <= BSIZE {
      ModSmall(len, Pow2(h + h));
    }
  }

  function SetRecLen(b: seq<byte>, p: nat, len: nat): (r: seq<byte>)
    requires Fits(b, p)
    ensures Fits(r, p) && r[..p + 16] == b[..p + 16] && r[p + 24..] == b[p + 24..]
    ensures NameLen(r, p) == NameLen(b, p) && Ino(r, p) == Ino(b, p)
    ensures len <= BSIZE ==> RecLen(r, p) == len
  {
    var r := PutWord(b, p + 16, PatchLen(WordAt(b, p + 16), len));
    SamePrefix(b, r, p + 16, p, p + 8);
    r
  }

  /** The decoded record at p; a record that does not fit is
      longer than any block. */
  function RecAt(b: seq<byte>, p: nat): Rec
    requires |b| == BSIZE
  {
    if Fits(b, p) && p + 24 + NameLen(b, p) <= BSIZE then
      Rec(RecLen(b, p), UsedLength(b, p), Entry(Ino(b, p), b[p + 24..p + 24 + NameLen(b, p)]))
    else Rec(0, BSIZE + 1, Entry(0, []))
  }

  function Table(b: seq<byte>): nat -> Rec
    requires |b| == BSIZE
  {
    (p: nat) => RecAt(b, p)
  }

  /** Two blocks with the same bytes below q agree on every record that keeps
      its header and name below q. */
  lemma SameRecord(b: seq<byte>, r: seq<byte>, q: nat, p: nat)
    requires |b| == |r| == BSIZE && q <= BSIZE && r[..q] == b[..q]
    requires p + 24 <= q && p + 24 + NameLen(b, p) <= q
    ensures RecAt(r, p) == RecAt(b, p)
  {
    SamePrefix(b, r, q, p, p + 8);
    SamePrefix(b, r, q, p + 16, p + 24);
    SamePrefix(b, r, q, p + 24, p + 24 + NameLen(b, p));
  }

  lemma SamePrefix(b: seq<byte>, r: seq<byte>, q: nat, i: nat, j: nat)
    requires i <= j <= q <= |b| && |r| == |b| && r[..q] == b[..q]
    ensures r[i..j] == b[i..j]
  {
    assert r[..q][i..j] == r[i..j];
    assert b[..q][i..j] == b[i..j];
  }

  /* ----- a new entry ----- */

  /** The name as it is stored: its length field has ten bits. */
  function Stored(name: Name): Name {
    name[..|name| % 1024]
  }

  function Needed(name: Name): nat {
    UsedFor(|name| % 1024)
  }

  /** The name bytes of a new record, padded with zeros to whole words. */
  function Padded(name: Name): (r: seq<byte>)
    ensures |r| == (|name| + 7) / 8 * 8 && r[..|name|] == name
  {
    name + seq((|name| + 7) / 8 * 8 - |name|, _ => 0)
  }

  function Header(ino: Word, len: nat): (r: seq<byte>)
    ensures |r| == 24 && r[0..8] == ToBytes(ino, 8)
    ensures r[16..24] == ToBytes(SetBitsReverse(0, 54, 63, len), 8)
  {
    ToBytes(ino, 8) + ToBytes(0, 8) + ToBytes(SetBitsReverse(0, 54, 63, len), 8)
  }

  /** The record image built for a new entry, cut to its used length. */
  function EntryBytes(ino: Word, name: Name): (r: seq<byte>)
    ensures |r| == Needed(name)
    ensures r[..24] == Header(ino, |name|)
    ensures r[24..][..|name| % 1024] == Stored(name)
  {
    var n := |name| % 1024;
    assert UsedFor(n) - 24 <= |Padded(name)|;
    var r := Header(ino, |name|) + Padded(name)[..UsedFor(n) - 24];
    assert r[24..] == Padded(name)[..UsedFor(n) - 24];
    assert Padded(name)[..UsedFor(n) - 24][..n] == Padded(name)[..|name|][..n];
    r
  }

  /** The header fields read back from a freshly written record. */
  lemma HeaderFields(s: seq<byte>, at: nat, ino: Word, len: nat)
    requires Fits(s, at) && s[at..at + 24] == Header(ino, len)
    ensures Ino(s, at) == ino && NameLen(s, at) == len % 1024
  {
    hide Pow2, SetBitsReverse, GetBitsReverse, FromBytes;
    var h := Header(ino, len);
    var lens := SetBitsReverse(0, 54, 63, len);
    Pow2At64();
    FromToBytes(ino, 8);
    FromToBytes(lens, 8);
    assert s[at..at + 24][0..8] == s[at..at + 8];
    assert s[at..at + 24][16..24] == s[at + 16..at + 24];
    Pow2At10();
  }

  lemma Pow2At10()
    ensures Pow2(10) == 1024
  {
  }

  function NewRec(at: nat, ino: Word, name: Name): Rec
    requires at <= BSIZE
  {
    Rec(BSIZE - at, Needed(name), Entry(ino, Stored(name)))
  }

  /** A new record at `at`, stretched to the end of the block. */
  function PutEntry(b: seq<byte>, at: nat, ino: Word, name: Name): (r: seq<byte>)
    requires |b| == BSIZE && at + Needed(name) <= BSIZE
    ensures |r| == BSIZE && r[..at] == b[..at]
    ensures RecAt(r, at) == NewRec(at, ino, name)
  {
    hide GetBitsReverse, SetBitsReverse, Pow2, WordAt, FromBytes;
    var n := |name| % 1024;
    var e := EntryBytes(ino, name);
    var s := Splice(b, at, e);
    assert s[at..at + 24] == s[at..at + |e|][..24];
    HeaderFields(s, at, ino, |name|);
    var r := SetRecLen(s, at, BSIZE - at);
    assert r[at + 24..at + 24 + n] == r[at + 24..][..n];
    assert s[at + 24..][..n] == s[at..at + |e|][24..][..n];
    assert r[..at] == r[..at + 16][..at];
    assert s[..at] == s[..at + 16][..at];
    r
  }

  /* ----- the whole insertion ----- */

  /** Patching a record's length changes nothing else in it. */
  lemma PatchedRecord(b: seq<byte>, q: nat, len: nat)
    requires |b| == BSIZE && Record(Table(b), q) && len <= BSIZE
    ensures RecAt(SetRecLen(b, q, len), q) == RecAt(b, q).(len := len)
    ensures SetRecLen(b, q, len)[..q] == b[..q]
  {
    var n := NameLen(b, q);
    var s := SetRecLen(b, q, len);
    assert s[..q + 16][..q] == b[..q + 16][..q];
    assert s[q + 24..q + 24 + n] == s[q + 24..][..n];
    assert b[q + 24..q + 24 + n] == b[q + 24..][..n];
  }

  lemma PutBehind(s: seq<byte>, q: nat, u: nat, ino: Word, name: Name)
    requires |s| == BSIZE && Fits(s, q) && q + 24 + NameLen(s, q) <= q + u
    requires q + u + Needed(name) <= BSIZE
    ensures var r := PutEntry(s, q + u, ino, name);
      RecAt(r, q) == RecAt(s, q) && r[..q] == s[..q]
  {
    var r := PutEntry(s, q + u, ino, name);
    SameRecord(s, r, q + u, q);
    SamePrefix(s, r, q + u, 0, q);
  }

  /** A new entry behind the record at q, which is cut to its used length. */
  function AppendedAt(b: seq<byte>, q: nat, u: nat, ino: Word, name: Name): (r: seq<byte>)
    requires |b| == BSIZE && Record(Table(b), q) && u == UsedLength(b, q)
    requires q + u + Needed(name) <= BSIZE
    ensures |r| == BSIZE && r[..q] == b[..q]
    ensures RecAt(r, q) == RecAt(b, q).(len := u)
    ensures RecAt(r, q + u) == NewRec(q + u, ino, name)
  {
    PatchedRecord(b, q, u);
    var s := SetRecLen(b, q, u);
    PutBehind(s, q, u, ino, name);
    PutEntry(s, q + u, ino, name)
  }

  /** Records of b that end below q survive in any r with the same prefix. */
  lemma SameTable(b: seq<byte>, r: seq<byte>, q: nat)
    requires |b| == |r| == BSIZE && q <= BSIZE && r[..q] == b[..q]
    ensures forall i: nat :: i + Table(b)(i).used <= q ==> Table(r)(i) == Table(b)(i)
  {
    forall i: nat | i + Table(b)(i).used <= q
      ensures Table(r)(i) == Table(b)(i)
    {
      if Fits(b, i) && i + 24 + NameLen(b, i) <= BSIZE {
        SameRecord(b, r, q, i);
      }
    }
  }

  lemma LastFacts(b: seq<byte>, q: nat)
    requires |b| == BSIZE && IsChain(Table(b), 0) && q == LastRec(Table(b), 0)
    ensures Record(Table(b), q) && RecAt(b, q).used == UsedLength(b, q)
    ensures Slack(Table(b)) == BSIZE - q - UsedLength(b, q)
  {
    assert Table(b)(q) == RecAt(b, q);
  }

  lemma TableExtends(b: seq<byte>, r: seq<byte>, q: nat, u: nat, e: Rec)
    requires |b| == |r| == BSIZE && IsChain(Table(b), 0) && q == LastRec(Table(b), 0)
    requires u == RecAt(b, q).used && r[..q] == b[..q]
    requires RecAt(r, q) == RecAt(b, q).(len := u)
    requires RecAt(r, q + u) == e && e.len == Slack(Table(b)) && 24 <= e.used <= e.len
    ensures IsChain(Table(r), 0) && Entries(Table(r), 0) == Entries(Table(b), 0) + [e.entry]
    ensures Slack(Table(r)) == Slack(Table(b)) - e.used
  {
    var t, t' := Table(b), Table(r);
    SameTable(b, r, q);
    assert t(q) == RecAt(b, q) && t'(q) == RecAt(r, q) && t'(q + u) == e;
    SlackAfter(t, t', q, e);
  }

  lemma AppendedAtChain(b: seq<byte>, q: nat, u: nat, ino: Word, name: Name)
    requires |b| == BSIZE && IsChain(Table(b), 0) && q == LastRec(Table(b), 0)
    requires Record(Table(b), q) && u == UsedLength(b, q) == RecAt(b, q).used
    requires Needed(name) <= Slack(Table(b)) == BSIZE - q - u
    ensures var t := Table(AppendedAt(b, q, u, ino, name));
      IsChain(t, 0) && Entries(t, 0) == Entries(Table(b), 0) + [Entry(ino, Stored(name))]
      && Slack(t) == Slack(Table(b)) - Needed(name)
  {
    hide AppendedAt, RecAt;
    TableExtends(b, AppendedAt(b, q, u, ino, name), q, u, NewRec(q + u, ino, name));
  }

  /** The block that AppendToDir leaves when the last record has room: the
      decoded entry list is extended by exactly the new entry. */
  function Appended(b: seq<byte>, ino: Word, name: Name): (r: seq<byte>)
    requires |b| == BSIZE && IsChain(Table(b), 0) && Needed(name) <= Slack(Table(b))
    ensures |r| == BSIZE && IsChain(Table(r), 0)
    ensures Entries(Table(r), 0) == Entries(Table(b), 0) + [Entry(ino, Stored(name))]
    ensures Slack(Table(r)) == Slack(Table(b)) - Needed(name)
  {
    var q := LastRec(Table(b), 0);
    LastFacts(b, q);
    var u := UsedLength(b, q);
    AppendedAtChain(b, q, u, ino, name);
    AppendedAt(b, q, u, ino, name)
  }

  /** The bytes that the records of an entry list take. */
  function Space(es: seq<Entry>): nat {
    if es == [] then 0 else UsedFor(|es[0].name|) + Space(es[1..])
  }

  lemma {:induction false} SpaceAppend(es: seq<Entry>, e: Entry)
    ensures Space(es + [e]) == Space(es) + UsedFor(|e.name|)
  {
    if es != [] {
      assert (es + [e])[1..] == es[1..] + [e];
      SpaceAppend(es[1..], e);
    }
  }

  /** Record lengths add up to the block: what the entries do not take is the
      slack of the last record. */
  lemma {:induction false} ChainSpace(t: nat -> Rec, p: nat)
    requires IsChain(t, p)
    requires forall i: nat :: Record(t, i) ==> t(i).used == UsedFor(|t(i).entry.name|)
    ensures var q := LastRec(t, p);
      p + Space(Entries(t, p)) + (t(q).len - t(q).used) == BSIZE
    decreases BSIZE - p
  {
    if p + t(p).len != BSIZE {
      ChainSpace(t, p + t(p).len);
      assert Entries(t, p)[1..] == Entries(t, p + t(p).len);
    } else {
      assert Entries(t, p)[1..] == [];
    }
  }

  lemma SlackIsSpace(b: seq<byte>)
    requires |b| == BSIZE && IsChain(Table(b), 0)
    ensures Space(Entries(Table(b), 0)) + Slack(Table(b)) == BSIZE
  {
    hide Ino, RecLen, UsedFor;
    ChainSpace(Table(b), 0);
  }
}
