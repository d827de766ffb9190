/** test/kernel_module_memset.c: `glibc_memset`, the word-at-a-time fill (the same code
    is in test/user_level_memset.c). */
module Memset {
  import opened Words

  /** Conversion of an `int`, given by its 32 bits, to `unsigned char`. */
  function LowByte(c: bv32): (b: bv8) {
    (c & 0xFF) as bv8
  }

  /** The word whose eight bytes are all `b`, built by the three shift-or steps. */
  function Spread(b: bv8): (w: bv64) {
    var c0 := b as bv64;
    var c1 := c0 | (c0 << 8);
    var c2 := c1 | (c1 << 16);
    c2 | ((c2 << 16) << 16)
  }

  lemma SpreadAll(b: bv8)
    ensures var w := Spread(b);
      && Byte0(w) == b && Byte1(w) == b && Byte2(w) == b && Byte3(w) == b
      && Byte4(w) == b && Byte5(w) == b && Byte6(w) == b && Byte7(w) == b
  {
  }

  lemma SpreadBytes(b: bv8)
    ensures forall j :: 0 <= j < 8 ==> Split(Spread(b))[j] == b
  {
    hide Byte0, Byte1, Byte2, Byte3, Byte4, Byte5, Byte6, Byte7, Spread;
    SpreadAll(b);
  }

  /** `r` is `m` with exactly `[dst, p)` set to `b`. */
  ghost predicate Filled(m: seq<bv8>, r: seq<bv8>, dst: nat, p: nat, b: bv8) {
    |r| == |m| && forall a :: 0 <= a < |m| ==> r[a] == if dst <= a < p then b else m[a]
  }

  predicate Aligned(p: nat) {
    p % 8 == 0
  }

  /** From `m` to `r` every byte of `[dst, p)` gets a value that differs from `c` by a
      multiple of 256, `c` itself if that is a byte, and no other byte changes. */
  ghost predicate FillsOnly(m: seq<bv8>, r: seq<bv8>, dst: nat, p: nat, c: bv32) {
    && |r| == |m|
    && (forall a :: dst <= a < p && a < |r| ==>
      (c - r[a] as bv32) & 0xFF == 0 && (c < 256 ==> r[a] as bv32 == c))
    && (forall a :: 0 <= a < |r| && !(dst <= a < p) ==> r[a] == m[a])
  }

  /** Distance from `dst` to the next multiple of 8. */
  function Lead(dst: nat): (n: nat)
    ensures n < 8 && Aligned(dst + n)
  {
    (8 - dst % 8) % 8
  }

  method FillByte(mem: array<bv8>, p: nat, b: bv8, ghost m: seq<bv8>, ghost dst: nat)
    requires dst <= p < mem.Length && Filled(m, mem[..], dst, p, b)
    modifies mem
    ensures Filled(m, mem[..], dst, p + 1, b)
  {
    mem[p] := b;
  }

  /** One word store, always aligned; so is the next. */
  method FillWord(mem: array<bv8>, p: nat, cccc: bv64, ghost b: bv8, ghost m: seq<bv8>, ghost dst: nat)
    requires dst <= p && p + 8 <= mem.Length && Aligned(p) && cccc == Spread(b)
    requires Filled(m, mem[..], dst, p, b)
    modifies mem
    ensures Filled(m, mem[..], dst, p + 8, b) && Aligned(p + 8)
  {
    hide Split, Spread;
    SpreadBytes(b);
    StoreWord(mem, p, cccc);
  }

  /** The alignment loop. */
  method FillToAligned(mem: array<bv8>, dst: nat, len0: nat, b: bv8, ghost m: seq<bv8>)
    returns (dstp: nat, len: nat, ghost n: nat)
    requires 8 <= len0 && dst + len0 <= mem.Length && Filled(m, mem[..], dst, dst, b)
    modifies mem
    ensures dstp == dst + Lead(dst) && len == len0 - Lead(dst) && n == Lead(dst) && Filled(m, mem[..], dst, dstp, b)
  {
    hide Filled, Aligned, Lead;
    dstp, len, n := dst, len0, 0;
    while !Aligned(dstp)
      invariant dst <= dstp <= dst + Lead(dst) && len == len0 - (dstp - dst) && n == dstp - dst
      invariant Filled(m, mem[..], dst, dstp, b)
      decreases dst + Lead(dst) - dstp
    {
      NotYetAligned(dst, dstp);
      FillByte(mem, dstp, b, m, dst);
      dstp, n := dstp + 1, n + 1;
      len := len - 1;
    }
    AlignedAt(dst, dstp);
  }

  /** Eight word stores. */
  method FillBlock(mem: array<bv8>, p: nat, cccc: bv64, ghost b: bv8, ghost m: seq<bv8>, ghost dst: nat)
    requires dst <= p && p + 64 <= mem.Length && Aligned(p) && cccc == Spread(b) && Filled(m, mem[..], dst, p, b)
    modifies mem
    ensures Filled(m, mem[..], dst, p + 64, b) && Aligned(p + 64)
  {
    hide Filled, Spread, Aligned;
    FillWord(mem, p, cccc, b, m, dst);
    FillWord(mem, p + 8, cccc, b, m, dst);
    FillWord(mem, p + 16, cccc, b, m, dst);
    FillWord(mem, p + 24, cccc, b, m, dst);
    FillWord(mem, p + 32, cccc, b, m, dst);
    FillWord(mem, p + 40, cccc, b, m, dst);
    FillWord(mem, p + 48, cccc, b, m, dst);
    FillWord(mem, p + 56, cccc, b, m, dst);
  }

  /** The loop that writes eight words a round. */
  method FillBlocks(mem: array<bv8>, start: nat, count: nat, cccc: bv64, ghost b: bv8,
                    ghost m: seq<bv8>, ghost dst: nat)
    returns (dstp: nat, ghost n: nat)
    requires dst <= start && start + 64 * count <= mem.Length && Aligned(start) && cccc == Spread(b)
    requires Filled(m, mem[..], dst, start, b)
    modifies mem
    ensures dstp == start + 64 * count && n == 8 * count && Filled(m, mem[..], dst, dstp, b) && Aligned(dstp)
  {
    hide Filled, Spread, Aligned;
    dstp, n := start, 0;
    var xlen := count;
    while xlen > 0
      invariant 0 <= xlen && Aligned(dstp) && dstp == start + 64 * (count - xlen) && n == 8 * (count - xlen)
      invariant Filled(m, mem[..], dst, dstp, b)
    {
      FillBlock(mem, dstp, cccc, b, m, dst);
      dstp, n := dstp + 64, n + 8;
      xlen := xlen - 1;
    }
  }

  /** The loop that writes one word a round. */
  method FillWords(mem: array<bv8>, start: nat, count: nat, cccc: bv64, ghost b: bv8, ghost m: seq<bv8>, ghost dst: nat)
    returns (dstp: nat, ghost n: nat)
    requires dst <= start && start + 8 * count <= mem.Length && Aligned(start) && cccc == Spread(b)
    requires Filled(m, mem[..], dst, start, b)
    modifies mem
    ensures dstp == start + 8 * count && n == count && Filled(m, mem[..], dst, dstp, b)
  {
    hide Filled, Spread, Aligned;
    dstp, n := start, 0;
    var xlen := count;
    while xlen > 0
      invariant 0 <= xlen && Aligned(dstp) && dstp == start + 8 * (count - xlen) && n == count - xlen
      invariant Filled(m, mem[..], dst, dstp, b)
    {
      FillWord(mem, dstp, cccc, b, m, dst);
      dstp, n := dstp + 8, n + 1;
      xlen := xlen - 1;
    }
  }

  /** The loop over the last bytes. */
  method FillTail(mem: array<bv8>, start: nat, len0: nat, b: bv8, ghost m: seq<bv8>, ghost dst: nat)
    returns (ghost n: nat)
    requires dst <= start && start + len0 <= mem.Length && Filled(m, mem[..], dst, start, b)
    modifies mem
    ensures n == len0 && Filled(m, mem[..], dst, start + len0, b)
  {
    hide Filled;
    var dstp, len := start, len0;
    n := 0;
    while len > 0
      invariant 0 <= len && dstp + len == start + len0 && dst <= dstp && n == len0 - len
      invariant Filled(m, mem[..], dst, dstp, b)
    {
      FillByte(mem, dstp, b, m, dst);
      dstp, n := dstp + 1, n + 1;
      len := len - 1;
    }
  }

  lemma Digits(n: nat)
    ensures n == 64 * (n / 64) + 8 * (n % 64 / 8) + n % 64 % 8
    ensures n / 8 == 8 * (n / 64) + n % 64 / 8
  {
  }

  /** `glibc_memset`: for every address, length and `c`, exactly `[dst, dst + len)` takes
      the low byte of `c`.  `bytes` and `words` count the single-byte and the word
      stores, the latter all aligned. */
  method GlibcMemset(mem: array<bv8>, dst: nat, c: bv32, len0: nat) returns (ghost bytes: nat, ghost words: nat)
    requires dst + len0 <= mem.Length
    modifies mem
    ensures Filled(old(mem[..]), mem[..], dst, dst + len0, LowByte(c))
    ensures FillsOnly(old(mem[..]), mem[..], dst, dst + len0, c)
    ensures bytes + 8 * words == len0
    ensures len0 >= 8 ==> words == (len0 - Lead(dst)) / 8 && bytes <= 14
    ensures len0 < 8 ==> words == 0
  {
    hide Spread, Filled, Aligned, Lead, LowByte, FillsOnly;
    ghost var m := mem[..];
    var b := LowByte(c);
    NothingFilled(m, dst, b);
    var dstp, len: nat := dst, len0;
    bytes, words := 0, 0;
    if len >= 8 {
      var cccc := Spread(b);
      dstp, len, bytes := FillToAligned(mem, dst, len, b, m);
      Digits(len);
      ghost var inBlocks;
      dstp, inBlocks := FillBlocks(mem, dstp, len / 64, cccc, b, m, dst);
      len := len % 64;
      dstp, words := FillWords(mem, dstp, len / 8, cccc, b, m, dst);
      words := words + inBlocks;
      len := len % 8;
    }
    ghost var last := FillTail(mem, dstp, len, b, m, dst);
    bytes := bytes + last;
    FilledWith(m, mem[..], dst, dst + len0, c);
  }

  lemma FilledWith(m: seq<bv8>, r: seq<bv8>, dst: nat, p: nat, c: bv32)
    requires Filled(m, r, dst, p, LowByte(c))
    ensures FillsOnly(m, r, dst, p, c)
  {
    LowByteValue(c);
    hide LowByte;
  }

  lemma LowByteValue(c: bv32)
    ensures (c - LowByte(c) as bv32) & 0xFF == 0
    ensures c < 256 ==> LowByte(c) as bv32 == c
  {
  }

  lemma NothingFilled(m: seq<bv8>, dst: nat, b: bv8)
    ensures Filled(m, m, dst, dst, b)
  {
  }

  lemma NotYetAligned(dst: nat, p: nat)
    requires dst <= p <= dst + Lead(dst) && !Aligned(p)
    ensures p < dst + Lead(dst)
  {
  }

  lemma AlignedAt(dst: nat, p: nat)
    requires dst <= p <= dst + Lead(dst) && Aligned(p)
    ensures p == dst + Lead(dst)
  {
  }
}
