/** The tree an image stands for: what the builder's operations do to it, and
    the link counts, over any run of operations. */
module MkfsTree {
  import opened Bits
  import opened MkfsDir
  import opened MkfsStore
  import opened MkfsView
  import opened MkfsSteps

  const DOT: Name := [46]
  const DOTDOT: Name := [46, 46]
  const ROOT: nat := 2

  const NLINK_MOD: nat := 0x2_0000   // cdi_nlink has 17 bits

  /* ----- the operations ----- */

  function NewDir(t: Tree, n: nat, up: nat): Tree {
    t[n := Node(Directory, 2, [Entry(n, DOT), Entry(up, DOTDOT)], [])]
  }

  function BumpLink(t: Tree, p: nat): Tree
    requires p in t
  {
    t[p := t[p].(nlink := (t[p].nlink + 1) % NLINK_MOD)]
  }

  function AfterMkDir(t: Tree, p: nat, n: nat, name: Name): Tree
    requires p in t || p == n
  {
    BumpLink(AfterEntry(NewDir(t, n, p), p, Entry(n, Stored(name))), p)
  }

  function NewFile(t: Tree, n: nat): Tree {
    t[n := Node(Regular, 1, [], [])]
  }

  function AfterMkFile(t: Tree, p: nat, n: nat, name: Name): Tree
    requires p in t
  {
    AfterEntry(NewFile(t, n), p, Entry(n, Stored(name)))
  }

  /* ----- counting references ----- */

  function Count(es: seq<Entry>, i: nat): nat {
    if es == [] then 0 else Count(es[..|es| - 1], i) + (if es[|es| - 1].ino == i then 1 else 0)
  }

  lemma CountSnoc(es: seq<Entry>, e: Entry, i: nat)
    ensures Count(es + [e], i) == Count(es, i) + (if e.ino == i then 1 else 0)
  {
    assert (es + [e])[..|es|] == es;
  }

  function CountIn(t: Tree, d: nat, i: nat): nat {
    if d in t then Count(t[d].entries, i) else 0
  }

  /** The directory records in the whole tree that name inode i. */
  function Refs(t: Tree, i: nat, n: nat): nat {
    if n == 0 then 0 else Refs(t, i, n - 1) + CountIn(t, n - 1, i)
  }

  lemma {:induction false} RefsUpdate(t: Tree, t': Tree, d: nat, i: nat, n: nat)
    requires forall c: nat :: c != d ==> CountIn(t', c, i) == CountIn(t, c, i)
    ensures d < n ==> Refs(t', i, n) == Refs(t, i, n) - CountIn(t, d, i) + CountIn(t', d, i)
    ensures d >= n ==> Refs(t', i, n) == Refs(t, i, n)
  {
    if n > 0 {
      RefsUpdate(t, t', d, i, n - 1);
    }
  }

  lemma {:induction false} NoRefs(t: Tree, i: nat, n: nat)
    requires forall d, k :: d in t && 0 <= k < |t[d].entries| ==> t[d].entries[k].ino != i
    ensures Refs(t, i, n) == 0
  {
    if n > 0 {
      NoRefs(t, i, n - 1);
      if n - 1 in t {
        NoCount(t[n - 1].entries, i);
      }
    }
  }

  lemma {:induction false} NoCount(es: seq<Entry>, i: nat)
    requires forall k :: 0 <= k < |es| ==> es[k].ino != i
    ensures Count(es, i) == 0
  {
    if es != [] {
      NoCount(es[..|es| - 1], i);
    }
  }

  /* ----- the invariant ----- */

  /** Every directory starts with "." for itself and ".." for a directory that
      is not newer. */
  predicate DirShape(t: Tree, d: nat)
    requires d in t
  {
    var es := t[d].entries;
    && |es| >= 2 && es[0] == Entry(d, DOT) && es[1].name == DOTDOT
    && es[1].ino <= d && es[1].ino in t && t[es[1].ino].kind.Directory?
    && t[d].nlink <= |es| && Space(es) <= BSIZE
  }

  predicate NamesOk(t: Tree, d: nat)
    requires d in t
  {
    && (t[d].kind.Directory? ==> DirShape(t, d))
    && (!t[d].kind.Directory? ==> t[d].entries == [])
    && forall k :: 0 <= k < |t[d].entries| ==> t[d].entries[k].ino in t
  }

  predicate NamesAll(t: Tree, cap: nat) {
    forall d :: d in t ==> d < cap && NamesOk(t, d)
  }

  /** The link count of every node is the number of records that name it. */
  predicate RefsOk(t: Tree, cap: nat) {
    forall i :: i in t ==> t[i].nlink == Refs(t, i, cap)
  }

  predicate RootOk(t: Tree) {
    && 0 !in t && 1 !in t   // reserved inode numbers
    && ROOT in t && t[ROOT].kind.Directory? && |t[ROOT].entries| >= 2 && t[ROOT].entries[1].ino == ROOT
  }

  predicate LinksOk(t: Tree, cap: nat) {
    NamesAll(t, cap) && RefsOk(t, cap) && RootOk(t)
  }

  lemma {:induction false} EntriesFew(es: seq<Entry>)
    ensures 24 * |es| <= Space(es)
  {
    if es != [] {
      EntriesFew(es[1..]);
    }
  }

  /* ----- names, step by step ----- */

  /** A node whose records are the same keeps good names while the tree only
      grows. */
  lemma SameNames(t: Tree, t': Tree, d: nat)
    requires d in t && NamesOk(t, d) && d in t' && t'[d].entries == t[d].entries
    requires t'[d].kind == t[d].kind && t'[d].nlink == t[d].nlink
    requires forall c :: c in t ==> c in t' && t'[c].kind == t[c].kind
    ensures NamesOk(t', d)
  {
    hide Space;
  }

  lemma NamesContent(t: Tree, cap: nat, i: nat, data: seq<byte>)
    requires NamesAll(t, cap) && i in t
    ensures NamesAll(AfterAppend(t, i, data), cap)
  {
    hide NamesOk;
    var t' := AfterAppend(t, i, data);
    forall d | d in t'
      ensures d < cap && NamesOk(t', d)
    {
      SameNames(t, t', d);
    }
  }

  lemma NamesNode(t: Tree, cap: nat, n: nat, x: Node)
    requires NamesAll(t, cap) && n !in t && n < cap && NamesOk(t[n := x], n)
    ensures NamesAll(t[n := x], cap)
  {
    hide NamesOk;
    var t' := t[n := x];
    forall d | d in t'
      ensures d < cap && NamesOk(t', d)
    {
      if d != n {
        SameNames(t, t', d);
      }
    }
  }

  lemma EntryNames(t: Tree, t': Tree, p: nat, e: Entry)
    requires p in t && t[p].kind.Directory? && NamesOk(t, p) && e.ino in t
    requires Space(t[p].entries) + UsedFor(|e.name|) <= BSIZE
    requires t' == AfterEntry(t, p, e)
    ensures NamesOk(t', p) && t'[p].nlink < |t'[p].entries|
  {
    SpaceAppend(t[p].entries, e);
    hide Space, UsedFor;
    var es, es' := t[p].entries, t'[p].entries;
    assert es'[0] == es[0] && es'[1] == es[1];
    assert t'.Keys == t.Keys && t'[es[1].ino].kind == t[es[1].ino].kind;
  }

  lemma NamesEntry(t: Tree, cap: nat, p: nat, e: Entry)
    requires NamesAll(t, cap) && p in t && t[p].kind.Directory? && e.ino in t
    requires Space(t[p].entries) + UsedFor(|e.name|) <= BSIZE
    ensures NamesAll(AfterEntry(t, p, e), cap)
    ensures AfterEntry(t, p, e)[p].nlink < |AfterEntry(t, p, e)[p].entries|
  {
    var t' := AfterEntry(t, p, e);
    EntryNames(t, t', p, e);
    hide NamesOk;
    forall d | d in t'
      ensures d < cap && NamesOk(t', d)
    {
      if d != p {
        SameNames(t, t', d);
      }
    }
  }

  lemma LinkFits(t: Tree, p: nat)
    requires p in t && t[p].kind.Directory? && NamesOk(t, p) && t[p].nlink < |t[p].entries|
    ensures BumpLink(t, p)[p].nlink == t[p].nlink + 1
  {
    EntriesFew(t[p].entries);
  }

  lemma BumpOther(t: Tree, p: nat)
    requires p in t
    ensures BumpLink(t, p).Keys == t.Keys
    ensures forall d :: d in t ==> BumpLink(t, p)[d].kind == t[d].kind && BumpLink(t, p)[d].entries == t[d].entries
    ensures forall d :: d in t && d != p ==> BumpLink(t, p)[d] == t[d]
  {
  }

  lemma NamesBump(t: Tree, cap: nat, p: nat)
    requires NamesAll(t, cap) && p in t && t[p].kind.Directory? && t[p].nlink < |t[p].entries|
    ensures NamesAll(BumpLink(t, p), cap) && BumpLink(t, p)[p].nlink == t[p].nlink + 1
  {
    LinkFits(t, p);
    hide Space;
    var t' := BumpLink(t, p);
    assert NamesOk(t, p) && NamesOk(t', p);
    hide NamesOk, BumpLink;
    forall d | d in t'
      ensures d < cap && NamesOk(t', d)
    {
      if d != p {
        BumpOther(t, p);
        SameNames(t, t', d);
      }
    }
  }

  /* ----- link counts, step by step ----- */

  lemma Unnamed(t: Tree, cap: nat, n: nat)
    requires NamesAll(t, cap) && n !in t
    ensures Refs(t, n, cap) == 0
  {
    hide Space, DirShape;
    forall d, k | d in t && 0 <= k < |t[d].entries|
      ensures t[d].entries[k].ino != n
    {
      assert NamesOk(t, d);
    }
    NoRefs(t, n, cap);
  }

  /** References after a new node n and a new entry in p that names it. */
  lemma RefsAfter(t: Tree, x: Node, p: nat, e: Entry, j: nat, cap: nat)
    requires e.ino !in t && e.ino < cap && p < cap && (p in t || p == e.ino)
    ensures var t1 := t[e.ino := x];
      Refs(AfterEntry(t1, p, e), j, cap) == Refs(t, j, cap) + Count(x.entries, j) + (if j == e.ino then 1 else 0)
  {
    var t1 := t[e.ino := x];
    RefsUpdate(t, t1, e.ino, j, cap);
    RefsUpdate(t1, AfterEntry(t1, p, e), p, j, cap);
    CountSnoc(t1[p].entries, e, j);
  }

  lemma RefsIgnoreLinks(t: Tree, t': Tree, j: nat, cap: nat)
    requires t'.Keys == t.Keys && forall d :: d in t ==> t'[d].entries == t[d].entries
    ensures Refs(t', j, cap) == Refs(t, j, cap)
  {
    RefsUpdate(t, t', 0, j, cap);
  }

  /* ----- every operation keeps all link counts exact ----- */

  lemma AppendKeepsLinks(t: Tree, cap: nat, i: nat, data: seq<byte>)
    requires LinksOk(t, cap) && i in t
    ensures LinksOk(AfterAppend(t, i, data), cap)
  {
    hide NamesAll, Refs;
    var t' := AfterAppend(t, i, data);
    NamesContent(t, cap, i, data);
    forall j | j in t'
      ensures t'[j].nlink == Refs(t', j, cap)
    {
      RefsIgnoreLinks(t, t', j, cap);
    }
  }

  lemma StoredSpace(name: Name)
    ensures UsedFor(|Stored(name)|) == Needed(name)
  {
  }

  lemma CountNone(i: nat)
    ensures Count([], i) == 0
  {
  }

  lemma RootKept(t: Tree, t': Tree)
    requires RootOk(t) && 0 !in t' && 1 !in t'
    requires ROOT in t' && t'[ROOT].kind == t[ROOT].kind && t[ROOT].entries <= t'[ROOT].entries
    ensures RootOk(t')
  {
  }

  lemma MkFileRefs(t: Tree, cap: nat, p: nat, n: nat, name: Name, j: nat)
    requires LinksOk(t, cap) && n !in t && n < cap && p < cap && p in t && j in AfterMkFile(t, p, n, name)
    ensures AfterMkFile(t, p, n, name)[j].nlink == Refs(AfterMkFile(t, p, n, name), j, cap)
  {
    Unnamed(t, cap, n);
    CountNone(j);
    hide NamesAll, Refs, Count, Stored;
    RefsAfter(t, Node(Regular, 1, [], []), p, Entry(n, Stored(name)), j, cap);
  }

  lemma InTreeBelow(t: Tree, cap: nat, p: nat)
    requires LinksOk(t, cap) && p in t
    ensures p < cap && NamesOk(t, p)
  {
  }

  lemma MkFileKeepsLinks(t: Tree, cap: nat, p: nat, n: nat, name: Name)
    requires LinksOk(t, cap) && n !in t && 2 <= n < cap && CanInsert(t, p, name)
    ensures LinksOk(AfterMkFile(t, p, n, name), cap)
  {
    hide Space, Count, Stored, Needed, UsedFor, NamesAll, Refs;
    InTreeBelow(t, cap, p);
    StoredSpace(name);
    NamesNode(t, cap, n, Node(Regular, 1, [], []));
    NamesEntry(NewFile(t, n), cap, p, Entry(n, Stored(name)));
    forall j | j in AfterMkFile(t, p, n, name)
      ensures AfterMkFile(t, p, n, name)[j].nlink == Refs(AfterMkFile(t, p, n, name), j, cap)
    {
      MkFileRefs(t, cap, p, n, name, j);
    }
    RootKept(t, AfterMkFile(t, p, n, name));
  }

  /** A new directory is not full. */
  lemma NewDirNotFull(t: Tree, n: nat, up: nat, p: nat)
    requires n !in t
    ensures FullDir(NewDir(t, n, up), p) <==> FullDir(t, p)
  {
    DotEntries(n, up, 0);
  }

  lemma DotEntries(n: nat, up: nat, j: nat)
    ensures var es := [Entry(n, DOT), Entry(up, DOTDOT)];
      Space(es) == 64 && Count(es, j) == (if j == n then 1 else 0) + (if j == up then 1 else 0)
  {
    var a, b := Entry(n, DOT), Entry(up, DOTDOT);
    var none: seq<Entry> := [];
    assert none + [a] == [a] && [a] + [b] == [a, b];
    SpaceAppend(none, a);
    SpaceAppend([a], b);
    CountSnoc(none, a, j);
    CountSnoc([a], b, j);
    assert |DOT| == 1 && |DOTDOT| == 2;
  }

  lemma NewDirNames(t: Tree, cap: nat, p: nat, n: nat)
    requires NamesAll(t, cap) && n !in t && n < cap && (p == n || (p < n && p in t && t[p].kind.Directory?))
    ensures NamesAll(NewDir(t, n, p), cap)
  {
    DotEntries(n, p, n);
    NamesNode(t, cap, n, NewDir(t, n, p)[n]);
  }

  lemma MkDirNames(t: Tree, cap: nat, p: nat, n: nat, name: Name)
    requires NamesAll(t, cap) && n !in t && n < cap && CanInsert(NewDir(t, n, p), p, name)
    requires p != n ==> p < n
    ensures NamesAll(AfterMkDir(t, p, n, name), cap)
    ensures var t2 := AfterEntry(NewDir(t, n, p), p, Entry(n, Stored(name)));
      AfterMkDir(t, p, n, name)[p].nlink == t2[p].nlink + 1
  {
    var e := Entry(n, Stored(name));
    StoredSpace(name);
    hide Space, Stored, Needed, UsedFor, NamesAll, BumpLink;
    NewDirNames(t, cap, p, n);
    NamesEntry(NewDir(t, n, p), cap, p, e);
    NamesBump(AfterEntry(NewDir(t, n, p), p, e), cap, p);
  }

  lemma MkDirRefs(t: Tree, cap: nat, p: nat, n: nat, name: Name, j: nat)
    requires LinksOk(t, cap) && n !in t && n < cap && p < cap && (p in t || p == n)
    requires AfterMkDir(t, p, n, name)[p].nlink == AfterEntry(NewDir(t, n, p), p, Entry(n, Stored(name)))[p].nlink + 1
    requires j in AfterMkDir(t, p, n, name)
    ensures AfterMkDir(t, p, n, name)[j].nlink == Refs(AfterMkDir(t, p, n, name), j, cap)
  {
    Unnamed(t, cap, n);
    DotEntries(n, p, j);
    hide NamesAll, Refs, Count, Stored, BumpLink, Space;
    var e, x := Entry(n, Stored(name)), NewDir(t, n, p)[n];
    var t2 := AfterEntry(NewDir(t, n, p), p, e);
    BumpOther(t2, p);
    RefsAfter(t, x, p, e, j, cap);
    RefsIgnoreLinks(t2, BumpLink(t2, p), j, cap);
  }

  lemma MkDirRoot(t: Tree, p: nat, n: nat, name: Name)
    requires RootOk(t) && 2 <= n && n !in t && (p in t || p == n)
    ensures RootOk(AfterMkDir(t, p, n, name))
  {
    hide BumpLink, Stored;
    var t2 := AfterEntry(NewDir(t, n, p), p, Entry(n, Stored(name)));
    BumpOther(t2, p);
    RootKept(t, t2);
  }

  /** MkDir under p; p may only be new itself when it is the new directory. */
  lemma MkDirKeepsLinks(t: Tree, cap: nat, p: nat, n: nat, name: Name)
    requires LinksOk(t, cap) && n !in t && 2 <= n < cap && CanInsert(NewDir(t, n, p), p, name)
    requires p != n ==> p < n
    ensures LinksOk(AfterMkDir(t, p, n, name), cap)
  {
    MkDirNames(t, cap, p, n, name);
    hide Space, Count, Stored, Needed, UsedFor, NamesAll, NamesOk, Refs, BumpLink;
    forall j | j in AfterMkDir(t, p, n, name)
      ensures AfterMkDir(t, p, n, name)[j].nlink == Refs(AfterMkDir(t, p, n, name), j, cap)
    {
      MkDirRefs(t, cap, p, n, name, j);
    }
    MkDirRoot(t, p, n, name);
  }

  /** The root directory alone. */
  lemma RootLinks(cap: nat)
    requires ROOT < cap
    ensures LinksOk(NewDir(map[], ROOT, ROOT), cap)
  {
    var t0: Tree := map[];
    var t := NewDir(t0, ROOT, ROOT);
    DotEntries(ROOT, ROOT, ROOT);
    NamesNode(t0, cap, ROOT, t[ROOT]);
    Unnamed(t0, cap, ROOT);
    RefsUpdate(t0, t, ROOT, ROOT, cap);
    assert CountIn(t0, ROOT, ROOT) == 0 && CountIn(t, ROOT, ROOT) == 2;
    assert forall i :: i in t ==> i == ROOT;
  }

  /** A directory with its "." entry has room for "..". */
  lemma DotFits(t: Tree, n: nat)
    requires n in t && t[n] == Node(Directory, 2, [Entry(n, DOT)], [])
    ensures Stored(DOT) == DOT && Stored(DOTDOT) == DOTDOT && CanInsert(t, n, DOTDOT)
  {
    assert [Entry(n, DOT)][1..] == [];
  }
}
