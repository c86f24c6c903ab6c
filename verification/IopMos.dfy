/** The MOS channel of the I/O processor: block transfers between the I/O
    memory and the buffer memory, word by word. */
module IopMos {
  import opened Bits

  /** A 64-bit memory word, byte by byte. */
  datatype Cell = Cell(b0: byte, b1: byte, b2: byte, b3: byte, b4: byte, b5: byte, b6: byte, b7: byte)

  const IO_WORDS: nat := 0x4000

  function SwapBytesInWords(c: Cell): Cell {
    Cell(c.b1, c.b0, c.b3, c.b2, c.b5, c.b4, c.b7, c.b6)
  }

  lemma SwapTwice(c: Cell)
    ensures SwapBytesInWords(SwapBytesInWords(c)) == c
  {
  }

  /** A word as a number: the first, third, fifth and seventh byte are the upper
      halves of its 16-bit parcels. */
  function Upper(c: Cell): nat {
    c.b0 as nat * 0x100_0000_0000_0000 + c.b2 as nat * 0x100_0000_0000 + c.b4 as nat * 0x100_0000
    + c.b6 as nat * 0x100
  }

  function Lower(c: Cell): nat {
    c.b1 as nat * 0x1_0000_0000_0000 + c.b3 as nat * 0x1_0000_0000 + c.b5 as nat * 0x1_0000 + c.b7 as nat
  }

  /** Swapping moves every lower half up by eight places and every upper half
      down. */
  lemma SwapMoves(c: Cell)
    ensures Upper(SwapBytesInWords(c)) == Lower(c) * 0x100 && Lower(SwapBytesInWords(c)) * 0x100 == Upper(c)
  {
  }

  /* ----- addresses of the k-th word of a transfer ----- */

  function IoAt(io: nat, k: nat): (i: nat)
    ensures i < IO_WORDS
  {
    (io + k) % IO_WORDS
  }

  /** The buffer address has 32 bits and is taken modulo the buffer's size. */
  function BufAt(buf: nat, k: nat, size: nat): (i: nat)
    requires size > 0
    ensures i < size
  {
    (buf + k) % TWO32 % size
  }

  /** A transfer size of 0 stands for the whole I/O memory. */
  function Count(size: nat): nat {
    if size == 0 then IO_WORDS else size
  }

  /* ----- whole transfers ----- */

  type Memory = seq<Cell>

  /** The buffer after n words from I/O memory. */
  function ToBuffer(m: Memory, b: Memory, io: nat, buf: nat, n: nat): (r: Memory)
    requires |m| == IO_WORDS && |b| > 0
    ensures |r| == |b|
  {
    if n == 0 then b
    else ToBuffer(m, b, io, buf, n - 1)[BufAt(buf, n - 1, |b|) := SwapBytesInWords(m[IoAt(io, n - 1)])]
  }

  /** The I/O memory after n words from the buffer. */
  function ToIo(m: Memory, b: Memory, io: nat, buf: nat, n: nat): (r: Memory)
    requires |m| == IO_WORDS && |b| > 0
    ensures |r| == IO_WORDS
  {
    if n == 0 then m
    else ToIo(m, b, io, buf, n - 1)[IoAt(io, n - 1) := SwapBytesInWords(b[BufAt(buf, n - 1, |b|)])]
  }

  /** The n words of the transfer go to different places of the buffer. */
  predicate Apart(buf: nat, n: nat, size: nat)
    requires size > 0
  {
    forall j, k :: 0 <= j < k < n ==> BufAt(buf, j, size) != BufAt(buf, k, size)
  }

  /** Places that no word of the transfer goes to are unchanged. */
  lemma {:induction false} BufferElsewhere(m: Memory, b: Memory, io: nat, buf: nat, n: nat, i: nat)
    requires |m| == IO_WORDS && |b| > 0 && i < |b|
    requires forall k :: 0 <= k < n ==> BufAt(buf, k, |b|) != i
    ensures ToBuffer(m, b, io, buf, n)[i] == b[i]
  {
    if n > 0 {
      BufferElsewhere(m, b, io, buf, n - 1, i);
    }
  }

  /** Word k of the transfer arrives, bytes swapped in words, unless a later
      word goes to the same place. */
  lemma {:induction false} BufferGets(m: Memory, b: Memory, io: nat, buf: nat, n: nat, k: nat)
    requires |m| == IO_WORDS && |b| > 0 && k < n
    requires forall j :: k < j < n ==> BufAt(buf, j, |b|) != BufAt(buf, k, |b|)
    ensures ToBuffer(m, b, io, buf, n)[BufAt(buf, k, |b|)] == SwapBytesInWords(m[IoAt(io, k)])
  {
    hide BufAt, IoAt;
    if k < n - 1 {
      BufferGets(m, b, io, buf, n - 1, k);
    }
  }

  lemma IoApart(io: nat, j: nat, k: nat)
    requires j < k < j + IO_WORDS
    ensures IoAt(io, j) != IoAt(io, k)
  {
  }

  /** Word k of the transfer arrives, and the rest of I/O memory is unchanged. */
  lemma {:induction false} IoGets(m: Memory, b: Memory, io: nat, buf: nat, n: nat, i: nat)
    requires |m| == IO_WORDS && |b| > 0 && n <= IO_WORDS && i < IO_WORDS
    ensures var r := ToIo(m, b, io, buf, n);
      (forall k :: 0 <= k < n && IoAt(io, k) == i ==> r[i] == SwapBytesInWords(b[BufAt(buf, k, |b|)]))
      && ((forall k :: 0 <= k < n ==> IoAt(io, k) != i) ==> r[i] == m[i])
  {
    hide BufAt, IoAt;
    if n > 0 {
      IoGets(m, b, io, buf, n - 1, i);
      forall k | 0 <= k < n - 1
        ensures IoAt(io, k) != IoAt(io, n - 1)
      {
        IoApart(io, k, n - 1);
      }
    }
  }

  /* ----- there and back ----- */

  /** I/O memory to buffer and back at the same addresses. */
  function ThereAndBack(m: Memory, b: Memory, io: nat, buf: nat, n: nat): Memory
    requires |m| == IO_WORDS && |b| > 0
  {
    ToIo(m, ToBuffer(m, b, io, buf, n), io, buf, n)
  }

  lemma BackAgain(m: Memory, b: Memory, io: nat, buf: nat, n: nat)
    requires |m| == IO_WORDS && |b| > 0 && n <= IO_WORDS && Apart(buf, n, |b|)
    ensures ThereAndBack(m, b, io, buf, n) == m
  {
    hide ToIo, ToBuffer, BufAt, IoAt;
    var c := ToBuffer(m, b, io, buf, n);
    forall i | 0 <= i < IO_WORDS
      ensures ToIo(m, c, io, buf, n)[i] == m[i]
    {
      IoGets(m, c, io, buf, n, i);
      if k: nat :| k < n && IoAt(io, k) == i {
        BufferGets(m, b, io, buf, n, k);
        SwapTwice(m[i]);
      }
    }
  }

  /** The words stay apart exactly when they fit, without 32-bit wrap-around or
      with a buffer whose size divides 2^32. */
  lemma FitsApart(buf: nat, n: nat, size: nat)
    requires size > 0 && (buf + n <= TWO32 || TWO32 % size == 0)
    ensures Apart(buf, n, size) <==> n <= size
  {
    hide BufAt;
    if n <= size {
      forall j, k | 0 <= j < k < n
        ensures BufAt(buf, j, size) != BufAt(buf, k, size)
      {
        PlainAt(buf, j, size);
        PlainAt(buf, k, size);
        NearApart(buf + j, k - j, size);
      }
    } else {
      PlainAt(buf, 0, size);
      PlainAt(buf, size, size);
      AddSize(buf, size);
    }
  }

  lemma PlainAt(buf: nat, k: nat, size: nat)
    requires size > 0 && (buf + k < TWO32 || TWO32 % size == 0)
    ensures BufAt(buf, k, size) == (buf + k) % size
  {
    if buf + k < TWO32 {
      ModSmall(buf + k, TWO32);
    } else {
      ModOfMod(buf + k, TWO32, size);
    }
  }

  lemma ModOfMod(x: nat, d: nat, size: nat)
    requires d > 0 && size > 0 && d % size == 0
    ensures x % d % size == x % size
  {
    var y, r, q := x / d, x % d, d / size;
    assert d == q * size && r == r / size * size + r % size;
    assert y * d == y * q * size;
    assert (y * q + r / size) * size == y * q * size + r / size * size;
    DivUnique(x, size, y * q + r / size, r % size);
  }

  lemma NearApart(x: nat, d: nat, size: nat)
    requires 0 < d < size
    ensures x % size != (x + d) % size
  {
    var q, r := x / size, x % size;
    if r + d < size {
      DivUnique(x + d, size, q, r + d);
    } else {
      assert (q + 1) * size == q * size + size;
      DivUnique(x + d, size, q + 1, r + d - size);
    }
  }

  lemma AddSize(x: nat, size: nat)
    requires size > 0
    ensures (x + size) % size == x % size
  {
    var q, r := x / size, x % size;
    assert (q + 1) * size == q * size + size;
    DivUnique(x + size, size, q + 1, r);
  }

  function Zero(): Cell { Cell(0, 0, 0, 0, 0, 0, 0, 0) }
  function One(): Cell { Cell(1, 1, 1, 1, 1, 1, 1, 1) }

  /** A transfer that sends two words to the same place loses the earlier one. */
  lemma Loses(b: Memory, io: nat, buf: nat, n: nat, j: nat, k0: nat)
    requires 0 < |b| && j < k0 < n <= IO_WORDS && BufAt(buf, j, |b|) == BufAt(buf, k0, |b|)
    ensures exists m: Memory :: |m| == IO_WORDS && ThereAndBack(m, b, io, buf, n) != m
  {
    hide ToIo, ToBuffer, BufAt, IoAt;
    var first := IoAt(io, j);
    var m := seq(IO_WORDS, i => if i == first then Zero() else One());
    var c := ToBuffer(m, b, io, buf, n);
    var k := LastOf(buf, n, |b|, k0);
    BufferGets(m, b, io, buf, n, k);
    IoApart(io, j, k);
    IoGets(m, c, io, buf, n, first);
    assert ThereAndBack(m, b, io, buf, n)[first] == One();
    assert m[first] == Zero();
  }

  /** The last word that goes to the place of word k0. */
  lemma LastOf(buf: nat, n: nat, size: nat, k0: nat) returns (k: nat)
    requires size > 0 && k0 < n
    ensures k0 <= k < n && BufAt(buf, k, size) == BufAt(buf, k0, size)
    ensures forall j :: k < j < n ==> BufAt(buf, j, size) != BufAt(buf, k, size)
  {
    k := k0;
    while exists j: nat :: k < j < n && BufAt(buf, j, size) == BufAt(buf, k, size)
      invariant k0 <= k < n && BufAt(buf, k, size) == BufAt(buf, k0, size)
      decreases n - k
    {
      var j: nat :| k < j < n && BufAt(buf, j, size) == BufAt(buf, k, size);
      k := j;
    }
  }

  /** I/O memory to buffer and back keeps every I/O memory exactly when no two
      words share a place in the buffer. */
  lemma BackAgainIffApart(b: Memory, io: nat, buf: nat, n: nat)
    requires |b| > 0 && n <= IO_WORDS
    ensures Apart(buf, n, |b|) <==> forall m: Memory :: |m| == IO_WORDS ==> ThereAndBack(m, b, io, buf, n) == m
  {
    hide ThereAndBack, BufAt;
    if Apart(buf, n, |b|) {
      forall m: Memory | |m| == IO_WORDS
        ensures ThereAndBack(m, b, io, buf, n) == m
      {
        BackAgain(m, b, io, buf, n);
      }
    } else {
      var j, k :| 0 <= j < k < n && BufAt(buf, j, |b|) == BufAt(buf, k, |b|);
      Loses(b, io, buf, n, j, k);
    }
  }

  /** That is, when the transfer fits the buffer, unless the 32-bit address
      wraps around and the size of the buffer does not divide 2^32. */
  lemma BackAgainIffFits(b: Memory, io: nat, buf: nat, n: nat)
    requires |b| > 0 && n <= IO_WORDS && (buf + n <= TWO32 || TWO32 % |b| == 0)
    ensures n <= |b| <==> forall m: Memory :: |m| == IO_WORDS ==> ThereAndBack(m, b, io, buf, n) == m
  {
    hide ThereAndBack, Apart;
    FitsApart(buf, n, |b|);
    BackAgainIffApart(b, io, buf, n);
  }

  /* ----- the channel ----- */

  class ChannelMOS {
    const ioMemory: array<Cell>
    const bufferMemory: array<Cell>
    var bufferMemoryAddr: nat
    var ioMemoryAddr: nat
    var transferSize: nat
    var done: bool
    var itoBActive: bool
    var btoIActive: bool
    var interruptEnabled: bool

    ghost predicate Valid()
      reads this
    {
      && ioMemory.Length == IO_WORDS && bufferMemory.Length > 0 && ioMemory != bufferMemory
      && bufferMemoryAddr < TWO32 && ioMemoryAddr < IO_WORDS && transferSize < IO_WORDS
    }

    /** Between calls no transfer is under way. */
    ghost predicate Idle()
      reads this
    {
      Valid() && !itoBActive && !btoIActive
    }

    constructor (io: array<Cell>, buffer: array<Cell>)
      requires io.Length == IO_WORDS && buffer.Length > 0 && io != buffer
      ensures Idle() && ioMemory == io && bufferMemory == buffer && !done && interruptEnabled
      ensures bufferMemoryAddr == ioMemoryAddr == transferSize == 0
    {
      ioMemory, bufferMemory := io, buffer;
      bufferMemoryAddr, ioMemoryAddr, transferSize := 0, 0, 0;
      done, itoBActive, btoIActive, interruptEnabled := false, false, false, true;
    }

    method MasterClear()
      requires Valid()
      modifies this
      ensures Idle() && !done && interruptEnabled && bufferMemoryAddr == ioMemoryAddr == transferSize == 0
    {
      bufferMemoryAddr, ioMemoryAddr, transferSize := 0, 0, 0;
      done, itoBActive, btoIActive, interruptEnabled := false, false, false, true;
    }

    /** Moves the words of the transfer that is active, if any: exactly as many
        as its size says. */
    method DoTransfer()
      requires Valid() && !(itoBActive && btoIActive) && (itoBActive || btoIActive ==> !done)
      modifies this, ioMemory, bufferMemory
      ensures Idle() && interruptEnabled == old(interruptEnabled)
      ensures done == (old(itoBActive || btoIActive) || old(done))
      ensures old(itoBActive) ==>
                bufferMemory[..] ==
                old(ToBuffer(ioMemory[..], bufferMemory[..], ioMemoryAddr, bufferMemoryAddr, Count(transferSize)))
                && ioMemory[..] == old(ioMemory[..])
      ensures old(btoIActive) ==>
                ioMemory[..] ==
                old(ToIo(ioMemory[..], bufferMemory[..], ioMemoryAddr, bufferMemoryAddr, Count(transferSize)))
                && bufferMemory[..] == old(bufferMemory[..])
      ensures old(!itoBActive && !btoIActive) ==>
                ioMemory[..] == old(ioMemory[..]) && bufferMemory[..] == old(bufferMemory[..])
      ensures old(itoBActive || btoIActive) ==>
                transferSize == 0 && ioMemoryAddr == IoAt(old(ioMemoryAddr), old(Count(transferSize)))
                && bufferMemoryAddr == (old(bufferMemoryAddr) + old(Count(transferSize))) % TWO32
    {
      hide Under, ToBuffer, ToIo;
      if !itoBActive && !btoIActive {
        return;
      }
      ghost var m, b, io, buf, n := ioMemory[..], bufferMemory[..], ioMemoryAddr, bufferMemoryAddr, Count(transferSize);
      ghost var there, k := itoBActive, 0;
      Begin();
      while itoBActive || btoIActive
        invariant Under(m, b, io, buf, n, there, k) && k <= n && interruptEnabled == old(interruptEnabled)
        decreases n - k
      {
        Flags(m, b, io, buf, n, there, k);
        MoveWord(m, b, io, buf, n, there, k);
        k := k + 1;
      }
      Flags(m, b, io, buf, n, there, k);
    }

    /** After k of n words. */
    ghost predicate Under(m: Memory, b: Memory, io: nat, buf: nat, n: nat, there: bool, k: nat)
      reads this, ioMemory, bufferMemory
    {
      && Valid() && |m| == IO_WORDS && |b| == bufferMemory.Length && k <= n <= IO_WORDS
      && ioMemoryAddr == IoAt(io, k) && bufferMemoryAddr == (buf + k) % TWO32 && transferSize == (n - k) % IO_WORDS
      && bufferMemory[..] == (if there then ToBuffer(m, b, io, buf, k) else b)
      && ioMemory[..] == (if there then m else ToIo(m, b, io, buf, k))
      && (if k < n then itoBActive == there && btoIActive == !there && !done
          else !itoBActive && !btoIActive && done)
    }

    lemma Begin()
      requires Valid() && itoBActive != btoIActive && !done
      ensures Under(ioMemory[..], bufferMemory[..], ioMemoryAddr, bufferMemoryAddr, Count(transferSize), itoBActive, 0)
    {
    }

    lemma Flags(m: Memory, b: Memory, io: nat, buf: nat, n: nat, there: bool, k: nat)
      requires Under(m, b, io, buf, n, there, k)
      ensures k < n <==> itoBActive || btoIActive
      ensures |m| == IO_WORDS && |b| > 0 && Valid() && k <= n
      ensures k == n ==>
                Idle() && done && transferSize == 0
                && ioMemoryAddr == IoAt(io, n) && bufferMemoryAddr == (buf + n) % TWO32
                && bufferMemory[..] == (if there then ToBuffer(m, b, io, buf, n) else b)
                && ioMemory[..] == (if there then m else ToIo(m, b, io, buf, n))
    {
      hide ToBuffer, ToIo;
    }

    /** One turn of the transfer loop. */
    method MoveWord(
      ghost m: Memory, ghost b: Memory, ghost io: nat, ghost buf: nat, ghost n: nat, ghost there: bool, ghost k: nat)
      requires Under(m, b, io, buf, n, there, k) && k < n
      modifies this, ioMemory, bufferMemory
      ensures Under(m, b, io, buf, n, there, k + 1) && interruptEnabled == old(interruptEnabled)
    {
      hide ToBuffer, ToIo, IoAt;
      OneToBuffer(m, b, io, buf, k);
      OneToIo(m, b, io, buf, k);
      NextAddresses(io, buf, n, k);
      CopyWord();
      if ioMemoryAddr != 0x3fff {
        ioMemoryAddr := ioMemoryAddr + 1;
      } else {
        ioMemoryAddr := 0;
      }
      bufferMemoryAddr := (bufferMemoryAddr + 1) % TWO32;
      transferSize := (transferSize + IO_WORDS - 1) % IO_WORDS;
      if transferSize == 0 {
        itoBActive, btoIActive, done := false, false, true;
      }
    }

    /** The copying part of one turn. */
    method CopyWord()
      requires Valid() && itoBActive != btoIActive
      modifies ioMemory, bufferMemory
      ensures var i := bufferMemoryAddr % bufferMemory.Length;
        if itoBActive then bufferMemory[..] == old(bufferMemory[..])[i := SwapBytesInWords(ioMemory[ioMemoryAddr])]
                           && ioMemory[..] == old(ioMemory[..])
        else ioMemory[..] == old(ioMemory[..])[ioMemoryAddr := SwapBytesInWords(bufferMemory[i])]
             && bufferMemory[..] == old(bufferMemory[..])
    {
      hide SwapBytesInWords;
      if itoBActive {
        bufferMemory[bufferMemoryAddr % bufferMemory.Length] := SwapBytesInWords(ioMemory[ioMemoryAddr]);
      }
      if btoIActive {
        ioMemory[ioMemoryAddr] := SwapBytesInWords(bufferMemory[bufferMemoryAddr % bufferMemory.Length]);
      }
    }

    static lemma NextAddresses(io: nat, buf: nat, n: nat, k: nat)
      requires k < n <= IO_WORDS
      ensures IoAt(io, k + 1) == if IoAt(io, k) != 0x3fff then IoAt(io, k) + 1 else 0
      ensures (buf + (k + 1)) % TWO32 == ((buf + k) % TWO32 + 1) % TWO32
      ensures (n - (k + 1)) % IO_WORDS == ((n - k) % IO_WORDS + IO_WORDS - 1) % IO_WORDS
      ensures (n - (k + 1)) % IO_WORDS == 0 <==> k + 1 == n
    {
    }

    static lemma OneToBuffer(m: Memory, b: Memory, io: nat, buf: nat, k: nat)
      requires |m| == IO_WORDS && |b| > 0
      ensures ToBuffer(m, b, io, buf, k + 1)
           == ToBuffer(m, b, io, buf, k)[(buf + k) % TWO32 % |b| := SwapBytesInWords(m[IoAt(io, k)])]
    {
    }

    static lemma OneToIo(m: Memory, b: Memory, io: nat, buf: nat, k: nat)
      requires |m| == IO_WORDS && |b| > 0
      ensures ToIo(m, b, io, buf, k + 1)
           == ToIo(m, b, io, buf, k)[IoAt(io, k) := SwapBytesInWords(b[(buf + k) % TWO32 % |b|])]
    {
    }

    /** The channel functions: clear, the three addresses, the two transfers and
        the interrupt enable. */
    method DoIo(func: nat, data: nat)
      requires Idle() && data < 0x1_0000
      modifies this, ioMemory, bufferMemory
      ensures Idle()
      ensures func != 4 && func != 5 ==>
                ioMemory[..] == old(ioMemory[..]) && bufferMemory[..] == old(bufferMemory[..])
                && transferSize == old(transferSize) && done == (func != 0 && old(done))
      ensures ioMemoryAddr == if func == 1 then data / 4 else if func == 4 || func == 5
                then IoAt(old(ioMemoryAddr), Count(data % IO_WORDS)) else old(ioMemoryAddr)
      ensures func == 2 ==>
                bufferMemoryAddr / 512 == data % 0x8000 && bufferMemoryAddr % 512 == old(bufferMemoryAddr) % 512
      ensures func == 3 ==>
                bufferMemoryAddr / 512 == old(bufferMemoryAddr) / 512 && bufferMemoryAddr % 512 == data % 512
      ensures func != 2 && func != 3 && func != 4 && func != 5 ==> bufferMemoryAddr == old(bufferMemoryAddr)
      ensures func == 4 ==>
                done && transferSize == 0
                && ioMemory[..] ==
                   old(ToIo(ioMemory[..], bufferMemory[..], ioMemoryAddr, bufferMemoryAddr, Count(data % IO_WORDS)))
                && bufferMemory[..] == old(bufferMemory[..])
      ensures func == 5 ==>
                done && transferSize == 0
                && bufferMemory[..] ==
                   old(ToBuffer(ioMemory[..], bufferMemory[..], ioMemoryAddr, bufferMemoryAddr, Count(data % IO_WORDS)))
                && ioMemory[..] == old(ioMemory[..])
      ensures interruptEnabled == if func == 6 then false else if func == 7 then true else old(interruptEnabled)
    {
      hide ToBuffer, ToIo, IoAt, Under;
      if func == 0 {
        itoBActive, btoIActive, done := false, false, false;
      } else if func == 1 {
        ioMemoryAddr := data / 4;
      } else if func == 2 {
        bufferMemoryAddr := bufferMemoryAddr % 512 + data % 0x8000 * 512;
      } else if func == 3 {
        bufferMemoryAddr := bufferMemoryAddr - bufferMemoryAddr % 512 + data % 512;
      } else if func == 4 {
        transferSize, btoIActive, done := data % IO_WORDS, true, false;
        DoTransfer();
      } else if func == 5 {
        transferSize, itoBActive, done := data % IO_WORDS, true, false;
        DoTransfer();
      } else if func == 6 {
        interruptEnabled := false;
      } else if func == 7 {
        interruptEnabled := true;
      }
    }

    /** Loads the whole I/O memory from the start of the buffer. */
    method DeadStart()
      requires Valid()
      modifies this, ioMemory, bufferMemory
      ensures Idle() && done && bufferMemory[..] == old(bufferMemory[..])
      ensures forall i :: 0 <= i < IO_WORDS ==> ioMemory[i] == SwapBytesInWords(bufferMemory[i % bufferMemory.Length])
    {
      hide ToBuffer, ToIo, SwapBytesInWords, Under;
      MasterClear();
      btoIActive := true;
      ghost var m, b := ioMemory[..], bufferMemory[..];
      DoTransfer();
      forall i | 0 <= i < IO_WORDS
        ensures ioMemory[i] == SwapBytesInWords(bufferMemory[i % bufferMemory.Length])
      {
        IoGets(m, b, 0, 0, IO_WORDS, i);
        StartPlace(i, |b|);
        assert ioMemory[..][i] == SwapBytesInWords(b[i % |b|]);
      }
    }

    static lemma StartPlace(i: nat, size: nat)
      requires i < IO_WORDS && size > 0
      ensures IoAt(0, i) == i && BufAt(0, i, size) == i % size
    {
    }
  }
}
