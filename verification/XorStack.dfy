/** kernel_probe/stack_encrypt.c: the variant that xors the frame in place and keeps
    the parameters readable.  `encrypt_stack` and `decrypt_stack` are the same code. */
module XorStack {
  import opened Parameters
  import opened Words

  ghost predicate IsPara(ps: seq<Para>, a: int) {
    exists p :: p in ps && p.addr <= a < p.addr + p.size
  }

  /** End of the xored range: whole words are taken as long as one starts at or below
      rbp, so the range runs past rbp. */
  function XorEnd(rsp: nat, rbp: nat): (e: nat) {
    if rbp < rsp then rsp else rsp + 8 * ((rbp - rsp) / 8 + 1)
  }

  /** Every byte of the touched range outside the parameters is xored with the key byte
      of its position; nothing else changes. */
  ghost function XorFrame(m: seq<bv8>, rsp: nat, rbp: nat, ps: seq<Para>, key: bv64): (r: seq<bv8>)
    ensures |r| == |m|
  {
    seq(|m|, a requires 0 <= a < |m| =>
      if rsp <= a < XorEnd(rsp, rbp) && !IsPara(ps, a) then Xor8(m[a], ByteAt(key, (a - rsp) % 8)) else m[a])
  }

  /** The words that start in `[rsp, p)` are xored. */
  ghost predicate XoredTo(m: seq<bv8>, r: seq<bv8>, rsp: nat, p: nat, key: bv64) {
    |r| == |m| && forall a :: 0 <= a < |m| ==>
      r[a] == if rsp <= a < p then Xor8(m[a], ByteAt(key, (a - rsp) % 8)) else m[a]
  }

  // ------------------------------------------------------------ parameter buffer

  ghost predicate Fits(ps: seq<Para>, n: nat) {
    forall i :: 0 <= i < |ps| ==> ps[i].addr + ps[i].size <= n
  }

  /** Sum of the sizes of the first `i` parameters. */
  function Offset(ps: seq<Para>, i: nat): (n: nat)
    requires i <= |ps|
  {
    if i == 0 then 0 else Offset(ps, i - 1) + ps[i - 1].size
  }

  /** The parameter buffer after the first `i` parameters were copied, in list order. */
  ghost function Packed(m: seq<bv8>, ps: seq<Para>, i: nat): (b: seq<bv8>)
    requires Fits(ps, |m|) && i <= |ps|
    ensures |b| == Offset(ps, i)
  {
    if i == 0 then []
    else Packed(m, ps, i - 1) + m[ps[i - 1].addr..ps[i - 1].addr + ps[i - 1].size]
  }

  lemma {:induction false} PackedPrefix(m: seq<bv8>, ps: seq<Para>, i: nat, n: nat)
    requires Fits(ps, |m|) && i <= n <= |ps|
    ensures Packed(m, ps, i) <= Packed(m, ps, n)
    decreases n
  {
    if i < n {
      PackedPrefix(m, ps, i, n - 1);
    }
  }

  /** Where the bytes of parameter `i` are in the buffer. */
  lemma PackedAt(m: seq<bv8>, ps: seq<Para>, i: nat)
    requires Fits(ps, |m|) && i < |ps|
    ensures ps[i].addr + ps[i].size <= |m|
    ensures var o, b := Offset(ps, i), Packed(m, ps, |ps|);
      && Offset(ps, i + 1) == o + ps[i].size <= |b| == Offset(ps, |ps|)
      && b[o..o + ps[i].size] == m[ps[i].addr..ps[i].addr + ps[i].size]
  {
    PackedPrefix(m, ps, i + 1, |ps|);
    var slice := m[ps[i].addr..ps[i].addr + ps[i].size];
    assert Packed(m, ps, i + 1) == Packed(m, ps, i) + slice;
    hide Packed, Offset;
    SliceBehind(Packed(m, ps, i), slice, Packed(m, ps, |ps|));
  }

  lemma SliceBehind(x: seq<bv8>, y: seq<bv8>, b: seq<bv8>)
    requires x + y <= b
    ensures |x| + |y| <= |b| && b[|x|..|x| + |y|] == y
  {
  }

  // ------------------------------------------------------------------ the code

  method CopyBytes(dst: array<bv8>, to: nat, src: array<bv8>, from: nat, len: nat)
    requires dst != src && to + len <= dst.Length && from + len <= src.Length
    modifies dst
    ensures forall a :: 0 <= a < dst.Length ==>
      dst[a] == if to <= a < to + len then src[from + (a - to)] else old(dst[a])
  {
    for k := 0 to len
      invariant forall a :: 0 <= a < dst.Length ==>
        dst[a] == if to <= a < to + k then src[from + (a - to)] else old(dst[a])
    {
      dst[to + k] := src[from + k];
    }
  }

  method SaveParameters(mem: array<bv8>, ps: seq<Para>) returns (buf: array<bv8>)
    requires Fits(ps, mem.Length)
    ensures fresh(buf) && buf[..] == Packed(mem[..], ps, |ps|)
  {
    var total := 0;
    hide Packed;
    for i := 0 to |ps|
      invariant total == Offset(ps, i)
    {
      PackedAt(mem[..], ps, i);
      total := total + ps[i].size;
    }
    buf := new bv8[total];
    var offset := 0;
    ghost var want := Packed(mem[..], ps, |ps|);
    for i := 0 to |ps|
      invariant offset == Offset(ps, i) <= buf.Length == |want|
      invariant forall k :: 0 <= k < offset ==> buf[k] == want[k]
    {
      PackedAt(mem[..], ps, i);
      CopyBytes(buf, offset, mem, ps[i].addr, ps[i].size);
      ghost var o := offset;
      offset := offset + ps[i].size;
      forall k | o <= k < offset ensures buf[k] == want[k] {
        var n, d := ps[i].size, k - o;
        assert want[k] == want[o..o + n][d] == mem[..][ps[i].addr..ps[i].addr + n][d] == mem[ps[i].addr + d];
      }
    }
  }

  method XorWords(mem: array<bv8>, rsp: nat, rbp: nat, key: bv64) returns (p: nat)
    requires XorEnd(rsp, rbp) <= mem.Length
    modifies mem
    ensures p == XorEnd(rsp, rbp) && XoredTo(old(mem[..]), mem[..], rsp, p, key)
  {
    hide Split, Join, ByteAt, Xor8;
    p := rsp;
    while p <= rbp
      invariant rsp <= p <= XorEnd(rsp, rbp) && (p - rsp) % 8 == 0
      invariant XoredTo(old(mem[..]), mem[..], rsp, p, key)
      decreases rbp + 8 - p
    {
      ghost var before := mem[..];
      var b := mem[p..p + 8];
      forall j: nat | j < 8 ensures Split(Join(b) ^ key)[j] == Xor8(b[j], ByteAt(key, j)) {
        XorBytes(b, key, j);
      }
      StoreWord(mem, p, Join(b) ^ key);
      XorStep(old(mem[..]), before, mem[..], rsp, p, key);
      p := p + 8;
    }
  }

  lemma XorStep(m: seq<bv8>, before: seq<bv8>, after: seq<bv8>, rsp: nat, p: nat, key: bv64)
    requires XoredTo(m, before, rsp, p, key) && rsp <= p && (p - rsp) % 8 == 0 && p + 8 <= |m| == |after|
    requires forall a :: 0 <= a < |m| ==>
      after[a] == if p <= a < p + 8 then Xor8(before[a], ByteAt(key, a - p)) else before[a]
    ensures XoredTo(m, after, rsp, p + 8, key)
  {
    hide ByteAt, Xor8;
    forall a | p <= a < p + 8 ensures after[a] == Xor8(m[a], ByteAt(key, (a - rsp) % 8)) {
      assert (a - rsp) % 8 == a - p;
    }
  }

  lemma ParaGrows(ps: seq<Para>, i: nat, a: int)
    requires i < |ps|
    ensures IsPara(ps[..i + 1], a) <==> IsPara(ps[..i], a) || ps[i].addr <= a < ps[i].addr + ps[i].size
  {
    assert ps[..i + 1] == ps[..i] + [ps[i]];
    assert forall p :: p in ps[..i + 1] <==> p in ps[..i] || p == ps[i];
  }

  /** Copies the bytes of parameter `i` back. */
  method RestoreParameter(mem: array<bv8>, ps: seq<Para>, i: nat, buf: array<bv8>, offset: nat,
                          ghost o: seq<bv8>, ghost m: seq<bv8>)
    requires i < |ps| && Fits(ps, mem.Length) && mem.Length == |m| && buf != mem
    requires offset + ps[i].size <= buf.Length
    requires buf[..][offset..offset + ps[i].size] == m[ps[i].addr..ps[i].addr + ps[i].size]
    requires Restored(o, mem[..], m, ps[..i])
    modifies mem
    ensures Restored(o, mem[..], m, ps[..i + 1])
  {
    hide Restored, IsPara;
    ghost var before := mem[..];
    CopyBytes(mem, ps[i].addr, buf, offset, ps[i].size);
    RestoredStep(o, before, mem[..], m, ps, i, buf[..], offset);
  }

  method RestoreParameters(mem: array<bv8>, ps: seq<Para>, buf: array<bv8>, ghost m: seq<bv8>)
    requires Fits(ps, mem.Length) && mem.Length == |m| && buf != mem && buf[..] == Packed(m, ps, |ps|)
    modifies mem
    ensures forall a :: 0 <= a < |m| ==> mem[a] == if IsPara(ps, a) then m[a] else old(mem[a])
  {
    hide Packed, IsPara, Restored, Offset;
    var offset := 0;
    RestoredNone(mem[..], m, ps);
    for i := 0 to |ps|
      invariant offset == Offset(ps, i) && buf[..] == Packed(m, ps, |ps|)
      invariant Restored(old(mem[..]), mem[..], m, ps[..i])
    {
      PackedAt(m, ps, i);
      RestoreParameter(mem, ps, i, buf, offset, old(mem[..]), m);
      offset := offset + ps[i].size;
    }
    RestoredAll(old(mem[..]), mem[..], m, ps);
  }

  /** `r` is `o` with the parameters `ps` taken from `m`. */
  ghost predicate Restored(o: seq<bv8>, r: seq<bv8>, m: seq<bv8>, ps: seq<Para>) {
    |o| == |r| == |m| && forall a :: 0 <= a < |m| ==> r[a] == if IsPara(ps, a) then m[a] else o[a]
  }

  lemma RestoredNone(o: seq<bv8>, m: seq<bv8>, ps: seq<Para>)
    requires |o| == |m|
    ensures Restored(o, o, m, ps[..0]) && Offset(ps, 0) == 0
  {
    NoPara();
    assert ps[..0] == [];
  }

  lemma RestoredAll(o: seq<bv8>, r: seq<bv8>, m: seq<bv8>, ps: seq<Para>)
    requires Restored(o, r, m, ps[..|ps|])
    ensures |o| == |r| == |m| && forall a :: 0 <= a < |m| ==> r[a] == if IsPara(ps, a) then m[a] else o[a]
  {
    assert ps[..|ps|] == ps;
  }

  lemma RestoredStep(o: seq<bv8>, before: seq<bv8>, r: seq<bv8>, m: seq<bv8>, ps: seq<Para>, i: nat,
                     buf: seq<bv8>, offset: nat)
    requires i < |ps| && Restored(o, before, m, ps[..i]) && |r| == |m|
    requires offset + ps[i].size <= |buf| && ps[i].addr + ps[i].size <= |m|
    requires buf[offset..offset + ps[i].size] == m[ps[i].addr..ps[i].addr + ps[i].size]
    requires forall a :: 0 <= a < |m| ==>
      r[a] == if ps[i].addr <= a < ps[i].addr + ps[i].size then buf[offset + (a - ps[i].addr)] else before[a]
    ensures Restored(o, r, m, ps[..i + 1])
  {
    hide IsPara;
    var p := ps[i];
    forall a | 0 <= a < |m| ensures r[a] == if IsPara(ps[..i + 1], a) then m[a] else o[a] {
      ParaGrows(ps, i, a);
      if p.addr <= a < p.addr + p.size {
        SlicesAgree(buf, offset, m, p.addr, p.size, a - p.addr);
      }
    }
  }

  lemma SlicesAgree(x: seq<bv8>, i: nat, y: seq<bv8>, j: nat, n: nat, k: nat)
    requires i + n <= |x| && j + n <= |y| && x[i..i + n] == y[j..j + n] && k < n
    ensures x[i + k] == y[j + k]
  {
    assert x[i..i + n][k] == y[j..j + n][k];
  }

  lemma NoPara()
    ensures forall a :: !IsPara([], a)
  {
  }

  /** `encrypt_stack`, and likewise `decrypt_stack`.  After the word loop the cursor is
      past rbp, so the code for single trailing bytes is dead. */
  method CryptStack(mem: array<bv8>, rsp: nat, rbp: nat, ps: seq<Para>, key: bv64)
    requires XorEnd(rsp, rbp) <= mem.Length && Fits(ps, mem.Length)
    modifies mem
    ensures mem[..] == XorFrame(old(mem[..]), rsp, rbp, ps, key)
    ensures forall a :: 0 <= a < mem.Length ==>
      mem[a] == if rsp <= rbp && rsp <= a < rsp + 8 * ((rbp - rsp) / 8 + 1) && !IsPara(ps, a)
        then old(mem[a]) ^ ByteAt(key, (a - rsp) % 8) else old(mem[a])
  {
    hide Packed, ByteAt, Xor8, IsPara;
    ghost var m := mem[..];
    var buf := SaveParameters(mem, ps);
    var p := XorWords(mem, rsp, rbp, key);
    if p < rbp {
      assert false;
    }
    RestoreParameters(mem, ps, buf, m);
    assert mem[..] == XorFrame(m, rsp, rbp, ps, key);
    forall a: nat | a < mem.Length ensures
      mem[a] == if rsp <= rbp && rsp <= a < rsp + 8 * ((rbp - rsp) / 8 + 1) && !IsPara(ps, a)
        then m[a] ^ ByteAt(key, (a - rsp) % 8) else m[a]
    {
      XorFrameAt(m, rsp, rbp, ps, key, a);
    }
  }

  /** Byte by byte, `ByteAtShift` being what the key byte is. */
  lemma XorFrameAt(m: seq<bv8>, rsp: nat, rbp: nat, ps: seq<Para>, key: bv64, a: nat)
    requires a < |m|
    ensures XorFrame(m, rsp, rbp, ps, key)[a] ==
      if rsp <= rbp && rsp <= a < rsp + 8 * ((rbp - rsp) / 8 + 1) && !IsPara(ps, a)
      then m[a] ^ ByteAt(key, (a - rsp) % 8) else m[a]
  {
    hide ByteAt, IsPara;
  }

  // ------------------------------------------------------------------ theorems

  /** Touched range: `[rsp, rsp + 8 * ((rbp - rsp) / 8 + 1))` reaches past rbp, by at
      most eight bytes, and is empty when rbp lies below rsp. */
  lemma TouchedRange(rsp: nat, rbp: nat)
    ensures rsp <= rbp ==> rbp < XorEnd(rsp, rbp) <= rbp + 8 && (XorEnd(rsp, rbp) - rsp) % 8 == 0
    ensures rbp < rsp ==> XorEnd(rsp, rbp) == rsp
  {
  }

  /** Xor round trip, for any parameter list.  `n` is the memory when decryption starts:
      it may differ from the encrypted memory in the parameters, which keep their new
      bytes, while all other bytes return to their originals. */
  lemma XorRoundTrip(m: seq<bv8>, n: seq<bv8>, rsp: nat, rbp: nat, ps: seq<Para>, key: bv64)
    requires |n| == |m|
    requires forall a :: 0 <= a < |m| && !IsPara(ps, a) ==> n[a] == XorFrame(m, rsp, rbp, ps, key)[a]
    ensures forall a :: 0 <= a < |m| ==>
      XorFrame(n, rsp, rbp, ps, key)[a] == if IsPara(ps, a) then n[a] else m[a]
  {
    hide ByteAt, Xor8;
    forall a | 0 <= a < |m| ensures XorFrame(n, rsp, rbp, ps, key)[a] == if IsPara(ps, a) then n[a] else m[a] {
      XorTwice(m[a], ByteAt(key, (a - rsp) % 8));
    }
  }

  /** With nothing rewritten in between, decryption undoes encryption. */
  lemma XorInvolution(m: seq<bv8>, rsp: nat, rbp: nat, ps: seq<Para>, key: bv64)
    ensures XorFrame(XorFrame(m, rsp, rbp, ps, key), rsp, rbp, ps, key) == m
  {
    XorRoundTrip(m, XorFrame(m, rsp, rbp, ps, key), rsp, rbp, ps, key);
  }
}
