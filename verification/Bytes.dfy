/** Bytes, machine words and their little-endian layout, and the two block
    operations (`memcpy`, `memset`) that the kernel module applies to memory. */
module Bytes {
  newtype byte = x: int | 0 <= x < 256

  const WORD: nat := 8                             // sizeof(void *)
  const TWO64: nat := 0x1_0000_0000_0000_0000

  type ulong = x: int | 0 <= x < TWO64

  /** The integer whose little-endian digits are `b`. */
  function Decode(b: seq<byte>): (v: nat) {
    if b == [] then 0 else b[0] as nat + 256 * Decode(b[1..])
  }

  /** The `n` low little-endian digits of `v`. */
  function Encode(v: nat, n: nat): (b: seq<byte>)
    ensures |b| == n
  {
    if n == 0 then [] else [(v % 256) as byte] + Encode(v / 256, n - 1)
  }

  /** Storing a loaded word writes back the very bytes that were loaded. */
  lemma {:induction false} StoreAfterLoad(b: seq<byte>)
    ensures Encode(Decode(b), |b|) == b
  {
    if b != [] {
      StoreAfterLoad(b[1..]);
      assert Decode(b) / 256 == Decode(b[1..]) && Decode(b) % 256 == b[0] as nat;
    }
  }

  function Limit(n: nat): (p: nat) {
    if n == 0 then 1 else 256 * Limit(n - 1)
  }

  lemma {:induction false} DecodeLimit(b: seq<byte>)
    ensures Decode(b) < Limit(|b|)
  {
    if b != [] {
      DecodeLimit(b[1..]);
    }
  }

  /** The digits from `i` on count `Limit(i)` times as much as on their own. */
  lemma {:induction false} DecodeSplit(b: seq<byte>, i: nat)
    requires i <= |b|
    ensures Decode(b) == Decode(b[..i]) + Limit(i) * Decode(b[i..])
    decreases i
  {
    if i > 0 {
      var t := b[1..];
      DecodeSplit(t, i - 1);
      assert b[..i][1..] == t[..i - 1] && b[i..] == t[i - 1..];
      Scaled(Decode(b), b[0] as nat, Decode(t), Decode(t[..i - 1]), Limit(i - 1), Decode(b[i..]));
    } else {
      assert b[0..] == b;
    }
  }

  lemma Scaled(x: int, d: int, y: int, low: int, k: int, high: int)
    requires x == d + 256 * y && y == low + k * high
    ensures x == d + 256 * low + 256 * k * high
  {
  }

  /** A value that fits is read back as it was written. */
  lemma {:induction false} LoadAfterStore(v: nat, n: nat)
    requires v < Limit(n)
    ensures Decode(Encode(v, n)) == v
  {
    if n > 0 {
      LoadAfterStore(v / 256, n - 1);
      assert Encode(v, n)[1..] == Encode(v / 256, n - 1);
    }
  }

  lemma LimitEight()
    ensures Limit(8) == TWO64
  {
    assert Limit(2) == 0x1_0000 && Limit(4) == 0x1_0000_0000 && Limit(6) == 0x1_0000_0000_0000;
  }

  /** The word stored at address `a`. */
  function WordAt(mem: seq<byte>, a: nat): (v: ulong)
    requires a + WORD <= |mem|
  {
    DecodeLimit(mem[a..a + WORD]);
    LimitEight();
    Decode(mem[a..a + WORD])
  }

  lemma SubSlice(m: seq<byte>, start: nat, n: nat, off: nat, len: nat)
    requires start + n <= |m| && off + len <= n
    ensures m[start..start + n][off..off + len] == m[start + off..start + off + len]
  {
    var x, y := m[start..start + n][off..off + len], m[start + off..start + off + len];
    assert |x| == |y| && forall k :: 0 <= k < |x| ==> x[k] == y[k];
  }

  /** `mem` with the bytes from `to` on replaced by `src`. */
  function Splice(mem: seq<byte>, to: nat, src: seq<byte>): (r: seq<byte>)
    requires to + |src| <= |mem|
    ensures |r| == |mem|
    ensures forall a :: 0 <= a < |mem| ==> r[a] == if to <= a < to + |src| then src[a - to] else mem[a]
  {
    mem[..to] + src + mem[to + |src|..]
  }

  /** The memory of the user process, shared by the process and the kernel module. */
  class Memory {
    var bytes: seq<byte>

    constructor (initial: seq<byte>)
      ensures bytes == initial
    {
      bytes := initial;
    }

    /** `memcpy(to, src, |src|)` */
    method Memcpy(to: nat, src: seq<byte>)
      requires to + |src| <= |bytes|
      modifies this
      ensures bytes == Splice(old(bytes), to, src)
    {
      for i := 0 to |src|
        invariant |bytes| == |old(bytes)|
        invariant bytes == Splice(old(bytes), to, src[..i])
      {
        bytes := bytes[to + i := src[i]];
      }
      assert src[..|src|] == src;
    }

    /** `memset(at, c, len)` */
    method Memset(at: nat, c: byte, len: nat)
      requires at + len <= |bytes|
      modifies this
      ensures bytes == Splice(old(bytes), at, seq(len, _ => c))
    {
      for i := 0 to len
        invariant |bytes| == |old(bytes)|
        invariant bytes == Splice(old(bytes), at, seq(i, _ => c))
      {
        bytes := bytes[at + i := c];
      }
    }
  }
}
