/** Big-endian words inside byte blocks: the layout every `SwapBytes` in the
    source produces. */
module Words {
  import opened Bits

  function ToBytes(x: nat, n: nat): (s: seq<byte>)
    ensures |s| == n
  {
    if n == 0 then [] else ToBytes(x / 256, n - 1) + [x % 256]
  }

  function FromBytes(s: seq<byte>): (x: nat)
    ensures x < Pow2(8 * |s|)
  {
    if s == [] then 0
    else
      var n := |s| - 1;
      assert Pow2(8 * |s|) == Pow2(8 * n) * 256 by { Pow2Add(8 * n, 8); assert Pow2(8) == 256; }
      FromBytes(s[..n]) * 256 + s[n]
  }

  lemma {:induction false} FromToBytes(x: nat, n: nat)
    requires x < Pow2(8 * n)
    ensures FromBytes(ToBytes(x, n)) == x
  {
    if n > 0 {
      Pow2Add(8 * (n - 1), 8);
      assert Pow2(8) == 256;
      DivBound(x, 256, Pow2(8 * (n - 1)));
      FromToBytes(x / 256, n - 1);
      assert ToBytes(x, n)[..n - 1] == ToBytes(x / 256, n - 1);
    }
  }

  /** `d` written over `b` from offset `p` on (the source's memcpy). */
  function Splice(b: seq<byte>, p: nat, d: seq<byte>): (r: seq<byte>)
    requires p + |d| <= |b|
    ensures |r| == |b|
    ensures r[..p] == b[..p] && r[p..p + |d|] == d && r[p + |d|..] == b[p + |d|..]
  {
    b[..p] + d + b[p + |d|..]
  }

  function WordAt(b: seq<byte>, p: nat): Word
    requires p + 8 <= |b|
  {
    Pow2At64();
    FromBytes(b[p..p + 8])
  }

  function PutWord(b: seq<byte>, p: nat, x: Word): (r: seq<byte>)
    requires p + 8 <= |b|
    ensures |r| == |b|
    ensures WordAt(r, p) == x
    ensures r[..p] == b[..p] && r[p + 8..] == b[p + 8..]
  {
    Pow2At64();
    FromToBytes(x, 8);
    Splice(b, p, ToBytes(x, 8))
  }

  lemma {:induction false} ToFromBytes(s: seq<byte>)
    ensures ToBytes(FromBytes(s), |s|) == s
  {
    if s != [] {
      var n := |s| - 1;
      DivUnique(FromBytes(s), 256, FromBytes(s[..n]), s[n]);
      ToFromBytes(s[..n]);
    }
  }

  /** The first byte is the top one. */
  lemma {:induction false} TopByte(s: seq<byte>)
    requires |s| > 0
    ensures FromBytes(s) / Pow2(8 * (|s| - 1)) == s[0]
  {
    if |s| == 1 {
      assert FromBytes(s[..0]) == 0;
      assert Pow2(0) == 1;
    } else {
      var n := |s| - 1;
      TopByte(s[..n]);
      var d := Pow2(8 * (n - 1));
      Pow2Add(8, 8 * (n - 1));
      assert Pow2(8) == 256;
      DivDiv(FromBytes(s), 256, d);
      DivUnique(FromBytes(s), 256, FromBytes(s[..n]), s[n]);
    }
  }

  /** A byte in its place. */
  function Top(b: byte, place: nat): nat {
    b as nat * place
  }

  /** The eight bytes of a word, most significant first. */
  lemma WordValue(b: seq<byte>, p: nat)
    requires p + 8 <= |b|
    ensures WordAt(b, p) ==
      Top(b[p], 0x100_0000_0000_0000) + Top(b[p + 1], 0x1_0000_0000_0000) + Top(b[p + 2], 0x100_0000_0000)
      + Top(b[p + 3], 0x1_0000_0000) + Top(b[p + 4], 0x100_0000) + Top(b[p + 5], 0x1_0000) + Top(b[p + 6], 0x100)
      + Top(b[p + 7], 1)
  {
    hide FromBytes;
    var s := b[p..p + 8];
    FromLast(s, 8);
    FromLast(s, 7);
    FromLast(s, 6);
    FromLast(s, 5);
    FromLast(s, 4);
    FromLast(s, 3);
    FromLast(s, 2);
    FromLast(s, 1);
    assert FromBytes(s[..0]) == 0 by { FromNone(s[..0]); }
    assert s[..8] == s;
  }

  lemma FromNone(s: seq<byte>)
    requires s == []
    ensures FromBytes(s) == 0
  {
  }

  lemma FromLast(s: seq<byte>, n: nat)
    requires 0 < n <= |s|
    ensures FromBytes(s[..n]) == FromBytes(s[..n - 1]) * 256 + s[n - 1]
  {
    assert s[..n][..n - 1] == s[..n - 1];
  }
}
