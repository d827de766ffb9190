/** Little-endian 64-bit words as the machine stores them: eight bytes. */
module Words {
  function Byte0(w: bv64): (b: bv8) { (w & 0xFF) as bv8 }
  function Byte1(w: bv64): (b: bv8) { ((w >> 8) & 0xFF) as bv8 }
  function Byte2(w: bv64): (b: bv8) { ((w >> 16) & 0xFF) as bv8 }
  function Byte3(w: bv64): (b: bv8) { ((w >> 24) & 0xFF) as bv8 }
  function Byte4(w: bv64): (b: bv8) { ((w >> 32) & 0xFF) as bv8 }
  function Byte5(w: bv64): (b: bv8) { ((w >> 40) & 0xFF) as bv8 }
  function Byte6(w: bv64): (b: bv8) { ((w >> 48) & 0xFF) as bv8 }
  function Byte7(w: bv64): (b: bv8) { ((w >> 56) & 0xFF) as bv8 }

  /** Byte `j` of `w`, counted from the lowest. */
  function ByteAt(w: bv64, j: int): (b: bv8) {
    match j
    case 0 => Byte0(w)
    case 1 => Byte1(w)
    case 2 => Byte2(w)
    case 3 => Byte3(w)
    case 4 => Byte4(w)
    case 5 => Byte5(w)
    case 6 => Byte6(w)
    case _ => Byte7(w)
  }

  /** Byte `j` is what is left of `w` after dropping its `8 * j` low bits. */
  lemma ByteAtShift(w: bv64, j: nat)
    requires j < 8
    ensures ByteAt(w, j) == ((w >> (8 * j)) & 0xFF) as bv8
  {
    match j
    case 0 =>
    case 1 =>
    case 2 =>
    case 3 =>
    case 4 =>
    case 5 =>
    case 6 =>
    case 7 =>
  }

  /** The bytes of `w`, lowest address first. */
  function Split(w: bv64): (b: seq<bv8>)
    ensures |b| == 8
  {
    seq(8, j => ByteAt(w, j))
  }

  function Xor8(x: bv8, y: bv8): (r: bv8) { x ^ y }

  function Glue(b0: bv8, b1: bv8, b2: bv8, b3: bv8, b4: bv8, b5: bv8, b6: bv8, b7: bv8): (w: bv64) {
      (b0 as bv64)        | ((b1 as bv64) << 8)  | ((b2 as bv64) << 16) | ((b3 as bv64) << 24)
    | ((b4 as bv64) << 32) | ((b5 as bv64) << 40) | ((b6 as bv64) << 48) | ((b7 as bv64) << 56)
  }

  /** The word stored in eight bytes. */
  function Join(b: seq<bv8>): (w: bv64)
    requires |b| == 8
  {
    Glue(b[0], b[1], b[2], b[3], b[4], b[5], b[6], b[7])
  }

  lemma GlueAt(b0: bv8, b1: bv8, b2: bv8, b3: bv8, b4: bv8, b5: bv8, b6: bv8, b7: bv8)
    ensures var w := Glue(b0, b1, b2, b3, b4, b5, b6, b7);
      && ByteAt(w, 0) == b0 && ByteAt(w, 1) == b1 && ByteAt(w, 2) == b2 && ByteAt(w, 3) == b3
      && ByteAt(w, 4) == b4 && ByteAt(w, 5) == b5 && ByteAt(w, 6) == b6 && ByteAt(w, 7) == b7
  {
  }

  lemma XorAll(x: bv64, y: bv64)
    ensures Byte0(x ^ y) == Xor8(Byte0(x), Byte0(y)) && Byte1(x ^ y) == Xor8(Byte1(x), Byte1(y))
    ensures Byte2(x ^ y) == Xor8(Byte2(x), Byte2(y)) && Byte3(x ^ y) == Xor8(Byte3(x), Byte3(y))
    ensures Byte4(x ^ y) == Xor8(Byte4(x), Byte4(y)) && Byte5(x ^ y) == Xor8(Byte5(x), Byte5(y))
    ensures Byte6(x ^ y) == Xor8(Byte6(x), Byte6(y)) && Byte7(x ^ y) == Xor8(Byte7(x), Byte7(y))
  {
  }

  lemma XorAt(x: bv64, y: bv64, j: int)
    ensures ByteAt(x ^ y, j) == Xor8(ByteAt(x, j), ByteAt(y, j))
  {
    hide Byte0, Byte1, Byte2, Byte3, Byte4, Byte5, Byte6, Byte7, Xor8;
    XorAll(x, y);
  }

  /** Xor on a word is xor on each of its bytes with the corresponding key byte. */
  lemma XorBytes(b: seq<bv8>, key: bv64, j: nat)
    requires |b| == 8 && j < 8
    ensures Split(Join(b) ^ key)[j] == Xor8(b[j], ByteAt(key, j))
  {
    hide ByteAt, Glue, Xor8;
    GlueAt(b[0], b[1], b[2], b[3], b[4], b[5], b[6], b[7]);
    XorAt(Join(b), key, j);
  }

  lemma XorTwice(x: bv8, k: bv8)
    ensures Xor8(Xor8(x, k), k) == x
  {
  }

  /** `*(uint64_t *)p = w` */
  method StoreWord(mem: array<bv8>, p: nat, w: bv64)
    requires p + 8 <= mem.Length
    modifies mem
    ensures forall a :: 0 <= a < mem.Length ==> mem[a] == if p <= a < p + 8 then Split(w)[a - p] else old(mem[a])
  {
    var b := Split(w);
    for i := 0 to 8
      invariant forall a :: 0 <= a < mem.Length ==> mem[a] == if p <= a < p + i then b[a - p] else old(mem[a])
    {
      mem[p + i] := b[i];
    }
  }
}
