/** kernel_probe/stack_buf.c: the list of saved stack segments of one frame, and
    the restore loop that copies them back around the holes. */
module StackBufs {
  import opened Bytes

  /** A saved run of user bytes: `bytes` is the kernel copy of memory at `start`. */
  datatype Segment = Segment(start: nat, bytes: seq<byte>)

  /** A range of a kernel copy that must not be copied back.  Its kernel address is
      the pair of the copy it points into and an offset there. */
  datatype Hole = Hole(seg: nat, off: nat, len: nat)

  ghost predicate Spans(s: Segment, a: int) {
    s.start <= a < s.start + |s.bytes|
  }

  ghost predicate Covers(h: Hole, off: int) {
    h.off <= off < h.off + h.len
  }

  ghost predicate InHole(hs: seq<Hole>, off: int) {
    exists x :: x in hs && Covers(x, off)
  }

  // ---------------------------------------------------------------- comparator

  /** Conversion of a 64-bit difference to `int`. */
  function ToInt32(x: int): (r: int)
    ensures -0x8000_0000 <= r < 0x8000_0000
    ensures (r - x) % 0x1_0000_0000 == 0
  {
    var m := x % 0x1_0000_0000;
    if m < 0x8000_0000 then m else m - 0x1_0000_0000
  }

  /** `cmp`.  Two holes in different kernel copies have no defined distance; the
      restore loop stops at such a hole wherever the sort puts it. */
  function Cmp(a: Hole, b: Hole): (r: int) {
    if a.seg == b.seg then ToInt32(a.off - b.off) else 0
  }

  /** The truncated difference has the sign of the full one for offsets less than
      2^31 apart. */
  lemma CmpIsAddressOrder(a: Hole, b: Hole)
    requires a.seg == b.seg
    requires -0x8000_0000 <= a.off - b.off < 0x8000_0000
    ensures Cmp(a, b) == a.off - b.off
  {
    var x := a.off - b.off;
    assert x % 0x1_0000_0000 == if x >= 0 then x else x + 0x1_0000_0000;
  }

  // ---------------------------------------------------------------------- sort

  /** Places the earlier-filed `h` in front of the first hole not ordered before it. */
  function Insert(h: Hole, hs: seq<Hole>): (r: seq<Hole>)
    ensures |r| == |hs| + 1
  {
    if hs == [] || Cmp(h, hs[0]) <= 0 then [h] + hs else [hs[0]] + Insert(h, hs[1..])
  }

  /** `list_sort(NULL, list, cmp)`: the stable sort of the list by `cmp`. */
  function ListSort(hs: seq<Hole>): (r: seq<Hole>)
    ensures |r| == |hs|
  {
    if hs == [] then [] else Insert(hs[0], ListSort(hs[1..]))
  }

  lemma {:induction false} InsertElements(h: Hole, hs: seq<Hole>)
    ensures multiset(Insert(h, hs)) == multiset([h] + hs)
  {
    if !(hs == [] || Cmp(h, hs[0]) <= 0) {
      InsertElements(h, hs[1..]);
      assert hs == [hs[0]] + hs[1..];
    }
  }

  lemma {:induction false} SortElements(hs: seq<Hole>)
    ensures multiset(ListSort(hs)) == multiset(hs)
    ensures forall h :: h in ListSort(hs) <==> h in hs
  {
    if hs != [] {
      SortElements(hs[1..]);
      InsertElements(hs[0], ListSort(hs[1..]));
      assert hs == [hs[0]] + hs[1..];
    }
    assert forall h :: h in ListSort(hs) <==> h in multiset(ListSort(hs));
  }

  ghost predicate Ascending(hs: seq<Hole>) {
    hs == [] || ((forall x :: x in hs[1..] ==> hs[0].off <= x.off) && Ascending(hs[1..]))
  }

  /** Each hole ends before every later one begins: the order in which the restore
      loop can step over them. */
  ghost predicate EndToEnd(hs: seq<Hole>) {
    hs == [] || ((forall x :: x in hs[1..] ==> hs[0].off + hs[0].len <= x.off) && EndToEnd(hs[1..]))
  }

  /** `a`, filed before `b`, can be stepped over together with it. */
  ghost predicate Separate(a: Hole, b: Hole) {
    if a.off <= b.off then a.off + a.len <= b.off else b.off + b.len <= a.off
  }

  ghost predicate AllSeparate(hs: seq<Hole>) {
    hs == [] || ((forall x :: x in hs[1..] ==> Separate(hs[0], x)) && AllSeparate(hs[1..]))
  }

  lemma {:induction false} AllSeparateIff(hs: seq<Hole>)
    ensures AllSeparate(hs) <==> forall k, l :: 0 <= k < l < |hs| ==> Separate(hs[k], hs[l])
  {
    if hs != [] {
      var t := hs[1..];
      AllSeparateIff(t);
      hide AllSeparate, Separate;
      assert AllSeparate(hs) <==> (forall l :: 0 <= l < |t| ==> Separate(hs[0], t[l])) && AllSeparate(t) by {
        SeparateStep(hs);
      }
      assert forall l :: 0 < l < |hs| ==> hs[l] == t[l - 1];
      assert forall l :: 0 <= l < |t| ==> t[l] == hs[l + 1];
    }
  }

  lemma SeparateStep(hs: seq<Hole>)
    requires hs != []
    ensures AllSeparate(hs) <==>
      (forall l :: 0 <= l < |hs[1..]| ==> Separate(hs[0], hs[1..][l])) && AllSeparate(hs[1..])
  {
    hide Separate;
  }

  /** All holes lie in copy `k`, whose length is `n`. */
  ghost predicate Inside(hs: seq<Hole>, k: nat, n: nat) {
    forall x :: x in hs ==> x.seg == k && x.off + x.len <= n
  }

  lemma {:induction false} EndToEndAt(hs: seq<Hole>, i: nat, j: nat)
    requires EndToEnd(hs) && i < j < |hs|
    ensures hs[i].off + hs[i].len <= hs[j].off
  {
    if i == 0 {
      assert hs[j] == hs[1..][j - 1];
    } else {
      EndToEndAt(hs[1..], i - 1, j - 1);
    }
  }

  lemma InsertInFront(h: Hole, hs: seq<Hole>)
    requires Ascending(hs) && (forall x :: x in hs ==> h.off <= x.off)
    ensures Ascending([h] + hs)
    ensures EndToEnd([h] + hs) <==> EndToEnd(hs) && forall x :: x in hs ==> Separate(h, x)
  {
    assert ([h] + hs)[1..] == hs;
  }

  lemma InsertBehind(h: Hole, y: Hole, t: seq<Hole>, r: seq<Hole>)
    requires y.off < h.off && Ascending([y] + t) && Ascending(r)
    requires forall x :: x in r <==> x == h || x in t
    requires EndToEnd(r) <==> EndToEnd(t) && forall x :: x in t ==> Separate(h, x)
    ensures Ascending([y] + r)
    ensures EndToEnd([y] + r) <==> EndToEnd([y] + t) && Separate(h, y) && forall x :: x in t ==> Separate(h, x)
  {
    assert ([y] + r)[1..] == r && ([y] + t)[1..] == t;
  }

  lemma {:induction false} InsertSorts(h: Hole, hs: seq<Hole>, k: nat, n: nat)
    requires n < 0x8000_0000
    requires Inside(hs, k, n) && h.seg == k && h.off <= n && Ascending(hs)
    ensures Ascending(Insert(h, hs))
    ensures EndToEnd(Insert(h, hs)) <==> EndToEnd(hs) && forall x :: x in hs ==> Separate(h, x)
  {
    if hs == [] {
      InsertInFront(h, hs);
    } else {
      var y, t := hs[0], hs[1..];
      assert hs == [y] + t;
      CmpIsAddressOrder(h, y);
      if h.off <= y.off {
        InsertInFront(h, hs);
      } else {
        InsertSorts(h, t, k, n);
        InsertElements(h, t);
        SameElements(Insert(h, t), [h] + t);
        InsertBehind(h, y, t, Insert(h, t));
      }
    }
  }

  lemma SameElements(r: seq<Hole>, v: seq<Hole>)
    requires multiset(r) == multiset(v)
    ensures forall y :: y in r <==> y in v
  {
    assert forall y :: y in r <==> y in multiset(r);
    assert forall y :: y in v <==> y in multiset(v);
  }

  /** For a copy shorter than 2^31 bytes the sorted list can be stepped over exactly
      when the holes, taken in the order they were filed, are pairwise separate. */
  lemma {:induction false} SortedEndToEnd(hs: seq<Hole>, k: nat, n: nat)
    requires n < 0x8000_0000 && Inside(hs, k, n)
    ensures Ascending(ListSort(hs))
    ensures EndToEnd(ListSort(hs)) <==> AllSeparate(hs)
  {
    if hs != [] {
      var h, t := hs[0], hs[1..];
      assert hs == [h] + t;
      SortedEndToEnd(t, k, n);
      SortElements(t);
      InsertSorts(h, ListSort(t), k, n);
    }
  }

  // ------------------------------------------------------- what a restore means

  /** Memory after one segment is copied back, except for the bytes in `hs`. */
  ghost function RestoreOne(mem: seq<byte>, s: Segment, hs: seq<Hole>): (r: seq<byte>)
    ensures |r| == |mem|
  {
    seq(|mem|, a requires 0 <= a < |mem| =>
      if Spans(s, a) && !InHole(hs, a - s.start) then s.bytes[a - s.start] else mem[a])
  }

  ghost function RestoreAll(mem: seq<byte>, segs: seq<Segment>, lists: seq<seq<Hole>>): (r: seq<byte>)
    requires |segs| <= |lists|
    ensures |r| == |mem|
    decreases |segs|
  {
    if segs == [] then mem
    else
      var n := |segs| - 1;
      RestoreOne(RestoreAll(mem, segs[..n], lists), segs[n], lists[n])
  }

  /** The holes filed under copy `k` can be stepped over. */
  ghost predicate Steppable(s: Segment, k: nat, hs: seq<Hole>) {
    Inside(ListSort(hs), k, |s.bytes|) && EndToEnd(ListSort(hs))
  }

  ghost predicate Restorable(segs: seq<Segment>, lists: seq<seq<Hole>>)
    requires |segs| <= |lists|
  {
    forall k :: 0 <= k < |segs| ==> Steppable(segs[k], k, lists[k])
  }

  /** The condition a caller can read off the holes as filed. */
  lemma SteppableIff(s: Segment, k: nat, hs: seq<Hole>)
    requires |s.bytes| < 0x8000_0000
    ensures Steppable(s, k, hs) <==> Inside(hs, k, |s.bytes|) && AllSeparate(hs)
  {
    SortElements(hs);
    if Inside(hs, k, |s.bytes|) {
      SortedEndToEnd(hs, k, |s.bytes|);
    }
  }

  // ------------------------------------------------------------------ the code

  /** The block of `sbuf_t` records of one frame.  `lists[i]` is the hole list of
      record `i`; `moved` says that the records were copied by value from a smaller
      block, so that the hole-list heads still link into the freed one. */
  class StackBuf {
    var recs: seq<Segment>
    var lists: seq<seq<Hole>>
    var cur: nat
    var cap: nat
    var moved: bool
    var freed: bool

    ghost predicate Valid()
      reads this
    {
      |recs| == |lists| == cap && cur <= cap && 0 < cap
    }

    ghost function Segs(): (s: seq<Segment>)
      requires Valid()
      reads this
    {
      recs[..cur]
    }

    ghost function Lists(): (l: seq<seq<Hole>>)
      requires Valid()
      reads this
    {
      lists[..cur]
    }

    /** Fills the first unused record. */
    method Append(s: Segment)
      requires Valid() && cur < cap
      modifies this`recs, this`lists, this`cur
      ensures Valid()
      ensures Segs() == old(Segs()) + [s] && Lists() == old(Lists()) + [[]]
    {
      recs := recs[cur := s];
      lists := lists[cur := []];
      cur := cur + 1;
    }

    /** `init_stack_buf` */
    constructor (size: nat)
      requires 0 < size
      ensures Valid() && cur == 0 && cap == size && !freed && !moved
    {
      recs, lists := seq(size, _ => Segment(0, [])), seq(size, _ => []);
      cur, cap := 0, size;
      moved, freed := false, false;
    }
  }

  /** `copy_stack_buf`: `res` is what the caller's pointer holds afterwards.  A full
      block is replaced by a fresh one of twice the size and freed. */
  method CopyStackBuf(sbuf: StackBuf, mem: Memory, start: nat, len: nat) returns (res: StackBuf)
    requires sbuf.Valid() && start + len <= |mem.bytes|
    modifies sbuf
    ensures res.Valid() && res.Segs() == old(sbuf.Segs()) + [Segment(start, mem.bytes[start..start + len])]
    ensures res.Lists() == old(sbuf.Lists()) + [[]]
    ensures old(sbuf.cur < sbuf.cap) ==>
      res == sbuf && res.cap == old(sbuf.cap) && res.moved == old(sbuf.moved) && res.freed == old(sbuf.freed)
    ensures old(sbuf.cur == sbuf.cap) ==>
      fresh(res) && res.cap == 2 * old(sbuf.cap) && res.moved && !res.freed && sbuf.freed
  {
    res := sbuf;
    if sbuf.cur == sbuf.cap {
      res := Grow(sbuf);
    }
    res.Append(Segment(start, mem.bytes[start..start + len]));
  }

  method Grow(sbuf: StackBuf) returns (tmp: StackBuf)
    requires sbuf.Valid() && sbuf.cur == sbuf.cap
    modifies sbuf`freed
    ensures fresh(tmp) && tmp.Valid() && tmp.cap == 2 * sbuf.cap && tmp.cur == sbuf.cur
    ensures tmp.Segs() == sbuf.Segs() && tmp.Lists() == sbuf.Lists()
    ensures tmp.moved && !tmp.freed && sbuf.freed
  {
    tmp := new StackBuf(2 * sbuf.cap);
    var cur := sbuf.cur;
    tmp.cur := cur;
    for i := 0 to cur
      invariant tmp.Valid() && tmp.cur == cur && tmp.cap == 2 * cur && !tmp.freed
      invariant tmp.recs[..i] == sbuf.recs[..i] && tmp.lists[..i] == sbuf.lists[..i]
    {
      tmp.recs := tmp.recs[i := sbuf.recs[i]];
      tmp.lists := tmp.lists[i := sbuf.lists[i]];
    }
    tmp.moved := true;
    sbuf.freed := true;
  }

  /** No hole wraps around the kernel address space. */
  ghost predicate Addressable(hs: seq<Hole>) {
    forall x :: x in hs ==> x.off + x.len < TWO64
  }

  /** State of the copy loop: `m` is `m0` with the segment copied back up to offset
      `from`, except for `hs`, the holes stepped over so far. */
  ghost predicate CopiedTo(m0: seq<byte>, m: seq<byte>, s: Segment, i: nat, hs: seq<Hole>, from: nat) {
    && (if hs == [] then from == 0 else from == hs[|hs| - 1].off + hs[|hs| - 1].len)
    && (forall x :: x in hs ==> x.seg == i && x.off + x.len <= from)
    && EndToEnd(hs)
    && |m| == |m0|
    && forall a :: 0 <= a < |m| ==>
      m[a] == if Spans(s, a) && a - s.start < from && !InHole(hs, a - s.start) then s.bytes[a - s.start] else m0[a]
  }

  lemma CopyStart(m: seq<byte>, s: Segment, i: nat)
    ensures CopiedTo(m, m, s, i, [], 0)
  {
  }

  /** One round of the copy loop: the bytes up to the hole are copied, the hole is not. */
  lemma CopyStep(m0: seq<byte>, m: seq<byte>, s: Segment, i: nat, hs: seq<Hole>, from: nat, h: Hole)
    requires s.start + |s.bytes| <= |m| && h.seg == i
    requires CopiedTo(m0, m, s, i, hs, from) && from <= h.off
    ensures h.off == from ==> CopiedTo(m0, m, s, i, hs + [h], h.off + h.len)
    ensures h.off <= |s.bytes| ==>
      CopiedTo(m0, Splice(m, s.start + from, s.bytes[from..h.off]), s, i, hs + [h], h.off + h.len)
  {
    assert forall x :: x in hs + [h] <==> x in hs || x == h;
    assert forall off :: InHole(hs + [h], off) <==> InHole(hs, off) || Covers(h, off);
    EndToEndAppend(hs, h);
  }

  lemma {:induction false} EndToEndAppend(hs: seq<Hole>, h: Hole)
    requires EndToEnd(hs) && forall x :: x in hs ==> x.off + x.len <= h.off
    ensures EndToEnd(hs + [h])
  {
    if hs != [] {
      EndToEndAppend(hs[1..], h);
      assert (hs + [h])[1..] == hs[1..] + [h];
    }
  }

  /** After the last hole the rest of the copy either fits, or a hole stuck out of it. */
  lemma CopyEnd(m0: seq<byte>, m: seq<byte>, s: Segment, i: nat, hs: seq<Hole>, from: nat)
    requires s.start + |s.bytes| <= |m|
    requires CopiedTo(m0, m, s, i, hs, from)
    ensures EndToEnd(hs) && (Inside(hs, i, |s.bytes|) <==> from <= |s.bytes|)
    ensures from <= |s.bytes| ==> Splice(m, s.start + from, s.bytes[from..]) == RestoreOne(m0, s, hs)
  {
    if hs != [] {
      assert hs[|hs| - 1] in hs;
    }
  }

  lemma CopyStuck(m0: seq<byte>, m: seq<byte>, s: Segment, i: nat, hs: seq<Hole>, j: nat, from: nat)
    requires j < |hs| && CopiedTo(m0, m, s, i, hs[..j], from)
    requires hs[j].seg != i || hs[j].off < from || hs[j].off > |s.bytes|
    ensures !(Inside(hs, i, |s.bytes|) && EndToEnd(hs))
  {
    assert hs[j] in hs;
    if EndToEnd(hs) && 0 < j {
      EndToEndAt(hs, j - 1, j);
    }
  }

  /** The unsigned distance between two kernel addresses below 2^64. */
  lemma Distance(x: nat, from: nat, n: nat)
    requires x < TWO64 && from < TWO64 && n < TWO64
    ensures var len := (x - from) % TWO64;
      && (from + len <= n ==> x == from + len)
      && (from + len > n ==> x < from || x > n)
      && (len == 0 ==> x == from)
  {
  }

  /** Copies record `i` back, stepping over its sorted holes.  `ok` is false when a
      `memcpy` would run outside the kernel copy, or when the distance to the next
      hole is not defined because it points into another copy. */
  method RestoreRecord(s: Segment, i: nat, hs: seq<Hole>, mem: Memory) returns (ok: bool)
    requires s.start + |s.bytes| <= |mem.bytes| < TWO64
    requires Addressable(hs)
    modifies mem
    ensures |mem.bytes| == |old(mem.bytes)|
    ensures ok <==> Inside(hs, i, |s.bytes|) && EndToEnd(hs)
    ensures ok ==> mem.bytes == RestoreOne(old(mem.bytes), s, hs)
  {
    hide CopiedTo, EndToEnd, Inside, RestoreOne, Splice;
    var from: nat, to: nat := 0, s.start;
    CopyStart(mem.bytes, s, i);
    for j := 0 to |hs|
      invariant |mem.bytes| == |old(mem.bytes)| && from < TWO64
      invariant to == s.start + from            // from - buf == to - start
      invariant CopiedTo(old(mem.bytes), mem.bytes, s, i, hs[..j], from)
    {
      var h := hs[j];
      assert h in hs && hs[..j + 1] == hs[..j] + [h];
      if h.seg != i {
        CopyStuck(old(mem.bytes), mem.bytes, s, i, hs, j, from);
        return false;
      }
      var len := (h.off - from) % TWO64;
      Distance(h.off, from, |s.bytes|);
      if len != 0 {
        if from + len > |s.bytes| {
          CopyStuck(old(mem.bytes), mem.bytes, s, i, hs, j, from);
          return false;
        }
        CopyStep(old(mem.bytes), mem.bytes, s, i, hs[..j], from, h);
        mem.Memcpy(to, s.bytes[from..from + len]);
      } else {
        CopyStep(old(mem.bytes), mem.bytes, s, i, hs[..j], from, h);
      }
      from := h.off + h.len;
      to := to + len + h.len;
    }
    assert hs[..|hs|] == hs;
    var len := (|s.bytes| - from) % TWO64;
    Distance(|s.bytes|, from, |s.bytes|);
    CopyEnd(old(mem.bytes), mem.bytes, s, i, hs, from);
    if from + len > |s.bytes| {
      return false;
    }
    mem.Memcpy(to, s.bytes[from..from + len]);
    ok := true;
  }

  lemma RestoreIgnoresOrder(m: seq<byte>, s: Segment, hs: seq<Hole>)
    ensures RestoreOne(m, s, ListSort(hs)) == RestoreOne(m, s, hs)
  {
    SortElements(hs);
    assert forall off :: InHole(ListSort(hs), off) <==> InHole(hs, off);
  }

  /** `restore_stack_buf`: completes exactly when the block is still allocated and the
      holes of every record can be stepped over; then every saved byte outside the
      holes is back, nothing else changed, and the block is empty again. */
  method RestoreStackBuf(sbuf: StackBuf, mem: Memory) returns (ok: bool)
    requires |mem.bytes| < TWO64
    requires !sbuf.freed ==>
      sbuf.Valid() && Fit(sbuf.Segs(), |mem.bytes|) && forall l :: l in sbuf.Lists() ==> Addressable(l)
    modifies sbuf, mem
    ensures |mem.bytes| == |old(mem.bytes)|
    ensures ok <==> old(!sbuf.freed && Restorable(sbuf.Segs(), sbuf.Lists()))
    ensures ok ==> mem.bytes == RestoreAll(old(mem.bytes), old(sbuf.Segs()), old(sbuf.Lists()))
    ensures ok ==> sbuf.Valid() && sbuf.cur == 0
    ensures sbuf.cap == old(sbuf.cap) && sbuf.freed == old(sbuf.freed) && sbuf.moved == old(sbuf.moved)
  {
    hide EndToEnd, Inside, RestoreOne, ListSort;
    if sbuf.freed {
      return false;
    }
    var cur := sbuf.cur;
    ghost var segs, lists := sbuf.Segs(), sbuf.Lists();
    for i := 0 to cur
      invariant sbuf.Valid() && sbuf.cur == cur - i && sbuf.recs == old(sbuf.recs) && |mem.bytes| == |old(mem.bytes)|
      invariant sbuf.cap == old(sbuf.cap) && sbuf.freed == old(sbuf.freed) && sbuf.moved == old(sbuf.moved)
      invariant forall k :: i <= k < cur ==> sbuf.lists[k] == lists[k]
      invariant Restorable(segs[..i], lists)
      invariant mem.bytes == RestoreAll(old(mem.bytes), segs[..i], lists)
    {
      var sorted := ListSort(sbuf.lists[i]);
      sbuf.lists := sbuf.lists[i := sorted];
      assert lists[i] in lists && segs[i] == sbuf.recs[i];
      SortElements(lists[i]);
      RestoreIgnoresOrder(mem.bytes, segs[i], lists[i]);
      var r := RestoreRecord(sbuf.recs[i], i, sorted, mem);
      if !r {
        assert !Steppable(segs[i], i, lists[i]);
        return false;
      }
      assert segs[..i + 1][..i] == segs[..i];
      sbuf.cur := sbuf.cur - 1;
    }
    assert segs[..cur] == segs;
    ok := true;
  }

  /** All segments lie in a memory of `n` bytes. */
  ghost predicate Fit(segs: seq<Segment>, n: nat) {
    forall k :: 0 <= k < |segs| ==> segs[k].start + |segs[k].bytes| <= n
  }
}
