/** kernel_probe/jprobe.c: `find_in_stack_buf` and `restore_pointers`, which puts the
    chains and targets of pointer parameters back on the blanked stack. */
module Pointers {
  import opened Bytes
  import opened Parameters
  import opened StackBufs
  import opened FrameScan

  /** A kernel address inside one of the saved copies, or NULL. */
  datatype Lookup = NotFound | Found(seg: nat, off: nat)

  /** The range test of `find_in_stack_buf`, whose sum is taken modulo 2^64. */
  predicate Passes(s: Segment, a: ulong, len: ulong) {
    s.start <= a && (a + len) % TWO64 <= s.start + |s.bytes|
  }

  /** The first copy, from record `k` on, that passes the range test. */
  function FindFrom(segs: seq<Segment>, a: ulong, len: ulong, k: nat): (r: Lookup)
    decreases |segs| - k
    ensures r.Found? ==> k <= r.seg < |segs| && a == segs[r.seg].start + r.off
  {
    if k >= |segs| then NotFound
    else if Passes(segs[k], a, len) then Found(k, a - segs[k].start)
    else FindFrom(segs, a, len, k + 1)
  }

  function Find(segs: seq<Segment>, a: ulong, len: ulong): (r: Lookup)
    ensures r.Found? ==> r.seg < |segs| && a == segs[r.seg].start + r.off
  {
    FindFrom(segs, a, len, 0)
  }

  ghost predicate Holds(s: Segment, a: int, len: int) {
    s.start <= a && a + len <= s.start + |s.bytes|
  }

  /** When `[a, a + len)` does not wrap, the lookup finds a copy that contains all of
      it, and finds one whenever there is one. */
  lemma {:induction false} FindFromExact(segs: seq<Segment>, a: ulong, len: ulong, k: nat)
    requires a + len < TWO64
    ensures var r := FindFrom(segs, a, len, k);
      && (r.Found? ==> Holds(segs[r.seg], a, len))
      && (r.NotFound? ==> forall j :: k <= j < |segs| ==> !Holds(segs[j], a, len))
    decreases |segs| - k
  {
    if k < |segs| {
      assert (a + len) % TWO64 == a + len;
      FindFromExact(segs, a, len, k + 1);
    }
  }

  lemma FindExact(segs: seq<Segment>, a: ulong, len: ulong)
    ensures var r := Find(segs, a, len);
      a + len < TWO64 ==>
        && (r.Found? ==> Holds(segs[r.seg], a, len))
        && (r.NotFound? ==> forall s :: s in segs ==> !Holds(s, a, len))
  {
    if a + len < TWO64 {
      FindFromExact(segs, a, len, 0);
    }
  }

  ghost predicate Findable(segs: seq<Segment>, a: ulong, len: ulong) {
    exists s :: s in segs && Passes(s, a, len)
  }

  lemma {:induction false} FindFromIff(segs: seq<Segment>, a: ulong, len: ulong, k: nat)
    ensures FindFrom(segs, a, len, k).Found? <==> exists j :: k <= j < |segs| && Passes(segs[j], a, len)
    decreases |segs| - k
  {
    if k < |segs| {
      FindFromIff(segs, a, len, k + 1);
    }
  }

  lemma FindIff(segs: seq<Segment>, a: ulong, len: ulong)
    ensures Find(segs, a, len).Found? <==> Findable(segs, a, len)
  {
    FindFromIff(segs, a, len, 0);
  }

  /** A range that wraps is in no copy, and a copy that is found all the same ends
      before the range does. */
  lemma FindWrapped(m: seq<byte>, segs: seq<Segment>, a: ulong, len: ulong)
    requires SavedFrom(m, segs) && |m| < TWO64 <= a + len
    ensures forall s :: s in segs ==> !Holds(s, a, len)
    ensures var r := Find(segs, a, len); r.Found? ==> r.off + len > |segs[r.seg].bytes|
  {
    var r := Find(segs, a, len);
    if r.Found? {
      assert segs[r.seg] in segs;
    }
  }

  /** `find_in_stack_buf` */
  method FindInStackBuf(addr: ulong, len: ulong, sbuf: StackBuf) returns (r: Lookup)
    requires sbuf.Valid()
    ensures r == Find(sbuf.Segs(), addr, len)
  {
    for i := 0 to sbuf.cur
      invariant Find(sbuf.Segs(), addr, len) == FindFrom(sbuf.Segs(), addr, len, i)
    {
      var tmp := sbuf.recs[i];
      if addr >= tmp.start && (addr + len) % TWO64 <= tmp.start + |tmp.bytes| {
        return Found(i, addr - tmp.start);
      }
    }
    r := NotFound;
  }

  // ------------------------------------------------------- what must be exposed

  /** Number of rounds that decrementing `pointer` to zero takes; a negative `int`
      wraps around. */
  function Levels(pointer: int): (n: nat)
    ensures IsInt(pointer) ==> n == if pointer >= 0 then pointer else pointer + 0x1_0000_0000
  {
    pointer % 0x1_0000_0000
  }

  function Decrement(pointer: int): (r: int) {
    if pointer == -0x8000_0000 then 0x7fff_ffff else pointer - 1
  }

  predicate IsInt(x: int) {
    -0x8000_0000 <= x < 0x8000_0000
  }

  lemma DecrementLevels(pointer: int)
    requires IsInt(pointer) && pointer != 0
    ensures IsInt(Decrement(pointer)) && Levels(Decrement(pointer)) == Levels(pointer) - 1
  {
  }

  /** Holes for a pointer chain, or a crash on the way. */
  datatype Trail = Trail(holes: seq<Hole>, crash: bool)

  /** Follows `levels` pointers from `a` in the original memory `m`. */
  ghost function Follow(m: seq<byte>, segs: seq<Segment>, a: ulong, levels: nat, size: ulong): (t: Trail)
    requires SavedFrom(m, segs)
    decreases levels
  {
    var len := if levels == 0 then size else WORD;
    match Find(segs, a, len)
    case NotFound => Trail([], levels != 0)
    case Found(k, off) =>
      assert segs[k] in segs;
      if off + len > |segs[k].bytes| then Trail([], true)
      else if levels == 0 then Trail([Hole(k, off, len)], false)
      else
        var t := Follow(m, segs, WordAt(m, a), levels - 1, size);
        Trail([Hole(k, off, len)] + t.holes, t.crash)
  }

  /** How `restore_pointers` ends: with 0, with -1 at an entry that is not in a saved
      copy, or not at all. */
  datatype Ending = Complete | Missing(at: nat) | Crash

  datatype Filing = Filing(holes: seq<Hole>, end: Ending)

  /** The holes filed for the parameters from index `i` on.  `moved` blocks have hole
      lists that still link into freed memory. */
  ghost function File(m: seq<byte>, segs: seq<Segment>, moved: bool, ps: seq<Para>, i: nat): (f: Filing)
    requires SavedFrom(m, segs)
    decreases |ps| - i
  {
    if i >= |ps| then Filing([], Complete)
    else if ps[i].pointer == 0 then File(m, segs, moved, ps, i + 1)
    else if Find(segs, ps[i].addr, WORD).NotFound? then Filing([], Missing(i))
    else
      var t := Follow(m, segs, ps[i].addr, Levels(ps[i].pointer), ps[i].size);
      if moved || t.crash then Filing([], Crash)
      else
        var f := File(m, segs, moved, ps, i + 1);
        Filing(t.holes + f.holes, f.end)
  }

  /** The parameter list afterwards: the pointer counts of all processed entries have
      been used up. */
  function UsedUp(ps: seq<Para>, end: Ending): (r: seq<Para>)
    ensures |r| == |ps|
  {
    seq(|ps|, j requires 0 <= j < |ps| =>
      if end.Missing? && end.at < j then ps[j]
      else if end.Missing? && end.at == j then ps[j].(pointer := Decrement(ps[j].pointer))
      else ps[j].(pointer := 0))
  }

  // ------------------------------------------------------------------ the code

  /** Writing saved bytes back and filing them as a hole lifts the veil from them. */
  lemma LiftVeil(m: seq<byte>, segs: seq<Segment>, holes: seq<Hole>, h: Hole)
    requires SavedFrom(m, segs) && h.seg < |segs| && h.off + h.len <= |segs[h.seg].bytes|
    ensures segs[h.seg].start + h.off + h.len <= |m|
    ensures |Veil(m, segs, holes)| == |m|
    ensures var a, src := segs[h.seg].start + h.off, segs[h.seg].bytes[h.off..h.off + h.len];
      src == m[a..a + h.len] && Splice(Veil(m, segs, holes), a, src) == Veil(m, segs, holes + [h])
  {
    var s := segs[h.seg];
    assert s in segs && s.bytes == m[s.start..s.start + |s.bytes|];
    SubSlice(m, s.start, |s.bytes|, h.off, h.len);
    assert forall x :: x in holes + [h] <==> x in holes || x == h;
    assert forall a :: Exposed(segs, holes + [h], a) <==> Exposed(segs, holes, a) || Shows(segs, h, a);
  }

  /** `sbuf` and `mem` agree that exactly `holes` of the saved copies are exposed. */
  ghost predicate Showing(sbuf: StackBuf, mem: Memory, m: seq<byte>, segs: seq<Segment>, holes: seq<Hole>)
    reads sbuf, mem
  {
    && sbuf.Valid() && sbuf.Segs() == segs && SavedFrom(m, segs) && mem.bytes == Veil(m, segs, holes)
    && if segs == [] then holes == [] else sbuf.lists[0] == holes
  }

  /** Only the hole list of the first record may differ. */
  twostate predicate OnlyFirstList(sbuf: StackBuf)
    reads sbuf
  {
    0 < |sbuf.lists| && 0 < |old(sbuf.lists)| && sbuf.lists[1..] == old(sbuf.lists)[1..]
  }

  /** Copies saved bytes back to the live stack and files the hole under the first
      record. */
  method Expose(sbuf: StackBuf, mem: Memory, k: nat, off: nat, src: seq<byte>,
                ghost m: seq<byte>, ghost segs: seq<Segment>, ghost holes: seq<Hole>)
    requires Showing(sbuf, mem, m, segs, holes) && k < |segs|
    requires off + |src| <= |segs[k].bytes| && src == segs[k].bytes[off..off + |src|]
    modifies sbuf`lists, mem
    ensures OnlyFirstList(sbuf) && Showing(sbuf, mem, m, segs, holes + [Hole(k, off, |src|)])
    ensures var a := segs[k].start + off;
      a + |src| <= |m| == |mem.bytes| && mem.bytes[a..a + |src|] == m[a..a + |src|]
  {
    hide Veil;
    var h := Hole(k, off, |src|);
    LiftVeil(m, segs, holes, h);
    mem.Memcpy(sbuf.recs[k].start + off, src);
    sbuf.lists := sbuf.lists[0 := sbuf.lists[0] + [h]];
  }

  /** One link of a chain: puts the pointer word stored at `a` back and loads it from
      the live stack. */
  method ExposeWord(sbuf: StackBuf, mem: Memory, a: ulong, r: Lookup,
                    ghost m: seq<byte>, ghost segs: seq<Segment>, ghost holes: seq<Hole>)
    returns (next: ulong)
    requires Showing(sbuf, mem, m, segs, holes)
    requires r == Find(segs, a, WORD) && r.Found? && r.off + WORD <= |segs[r.seg].bytes|
    modifies sbuf`lists, mem
    ensures OnlyFirstList(sbuf) && Showing(sbuf, mem, m, segs, holes + [Hole(r.seg, r.off, WORD)])
    ensures a + WORD <= |m| && next == WordAt(m, a)
  {
    hide Veil;
    var src := sbuf.recs[r.seg].bytes[r.off..r.off + WORD];
    var org_value := Decode(src);
    StoreAfterLoad(src);
    Expose(sbuf, mem, r.seg, r.off, Encode(org_value, WORD), m, segs, holes);
    next := WordAt(mem.bytes, a);
  }

  /** `t` is what has been filed so far followed by the rest of the chain from `a`. */
  ghost predicate Onward(t: Trail, links: seq<Hole>, m: seq<byte>, segs: seq<Segment>,
                         a: ulong, pointer: int, size: ulong)
    requires SavedFrom(m, segs)
  {
    var rest := Follow(m, segs, a, Levels(pointer), size);
    t == Trail(links + rest.holes, rest.crash)
  }

  lemma OnwardStep(t: Trail, links: seq<Hole>, m: seq<byte>, segs: seq<Segment>, a: ulong, pointer: int, size: ulong)
    requires SavedFrom(m, segs) && IsInt(pointer) && pointer != 0
    requires Onward(t, links, m, segs, a, pointer, size)
    ensures IsInt(Decrement(pointer)) && Levels(Decrement(pointer)) < Levels(pointer)
    ensures match Find(segs, a, WORD)
      case NotFound => t.crash
      case Found(k, off) =>
        if off + WORD > |segs[k].bytes| then t.crash
        else a + WORD <= |m| && Onward(t, links + [Hole(k, off, WORD)], m, segs, WordAt(m, a), Decrement(pointer), size)
  {
    DecrementLevels(pointer);
    var r := Find(segs, a, WORD);
    if r.Found? && r.off + WORD <= |segs[r.seg].bytes| {
      assert segs[r.seg] in segs;
      var rest := Follow(m, segs, WordAt(m, a), Levels(Decrement(pointer)), size);
      assert links + ([Hole(r.seg, r.off, WORD)] + rest.holes) == links + [Hole(r.seg, r.off, WORD)] + rest.holes;
    }
  }

  /** At the end of the links only the target is left. */
  lemma OnwardEnd(t: Trail, links: seq<Hole>, m: seq<byte>, segs: seq<Segment>, a: ulong, size: ulong)
    requires SavedFrom(m, segs) && Onward(t, links, m, segs, a, 0, size)
    ensures match Find(segs, a, size)
      case NotFound => t == Trail(links, false)
      case Found(k, off) =>
        if off + size > |segs[k].bytes| then t.crash else t == Trail(links + [Hole(k, off, size)], false)
  {
    assert links + [] == links;
  }

  /** The inner loop of `restore_pointers`: follows and uses up the remaining levels of
      entry `j`.  The chain read from the partly restored stack is the chain of the
      original memory. */
  method FollowLinks(plt: ParaList, j: nat, start: ulong, sbuf: StackBuf, mem: Memory, ghost m: seq<byte>,
                     ghost segs: seq<Segment>, ghost holes: seq<Hole>, ghost t: Trail, ghost first: seq<Hole>)
    returns (crash: bool, addr: ulong, ghost links: seq<Hole>)
    requires j < |plt.plist| && IsInt(plt.plist[j].pointer)
    requires Showing(sbuf, mem, m, segs, holes + first)
    requires Onward(t, first, m, segs, start, plt.plist[j].pointer, plt.plist[j].size)
    modifies plt, sbuf`lists, mem
    ensures sbuf.Valid() && OnlyFirstList(sbuf)
    ensures crash ==> t.crash
    ensures !crash ==>
      && Showing(sbuf, mem, m, segs, holes + links)
      && Onward(t, links, m, segs, addr, 0, old(plt.plist[j].size))
      && plt.plist == old(plt.plist)[j := old(plt.plist[j]).(pointer := 0)]
  {
    hide Veil, Find, WordAt, SavedFrom, Onward, Levels, Decrement, IsInt;
    ghost var p := plt.plist[j];
    addr, links := start, first;
    while plt.plist[j].pointer != 0
      invariant |plt.plist| == |old(plt.plist)| && IsInt(plt.plist[j].pointer)
      invariant plt.plist == old(plt.plist)[j := p.(pointer := plt.plist[j].pointer)]
      invariant OnlyFirstList(sbuf) && Showing(sbuf, mem, m, segs, holes + links)
      invariant Onward(t, links, m, segs, addr, plt.plist[j].pointer, p.size)
      decreases Levels(plt.plist[j].pointer)
    {
      var r := FindInStackBuf(addr, WORD, sbuf);
      OnwardStep(t, links, m, segs, addr, plt.plist[j].pointer, p.size);
      if r.NotFound? || r.off + WORD > |sbuf.recs[r.seg].bytes| {
        return true, addr, links;
      }
      addr := ExposeWord(sbuf, mem, addr, r, m, segs, holes + links);
      assert holes + links + [Hole(r.seg, r.off, WORD)] == holes + (links + [Hole(r.seg, r.off, WORD)]);
      links := links + [Hole(r.seg, r.off, WORD)];
      plt.plist := plt.plist[j := plt.plist[j].(pointer := Decrement(plt.plist[j].pointer))];
    }
    crash := false;
  }

  /** The end of a chain: the target is put back if a saved copy holds all of it. */
  method ExposeTarget(addr: ulong, size: ulong, sbuf: StackBuf, mem: Memory, ghost m: seq<byte>,
                      ghost segs: seq<Segment>, ghost holes: seq<Hole>, ghost t: Trail, ghost links: seq<Hole>)
    returns (crash: bool)
    requires Showing(sbuf, mem, m, segs, holes + links)
    requires Onward(t, links, m, segs, addr, 0, size)
    modifies sbuf`lists, mem
    ensures sbuf.Valid() && OnlyFirstList(sbuf)
    ensures crash == t.crash
    ensures !crash ==> Showing(sbuf, mem, m, segs, holes + t.holes)
  {
    OnwardEnd(t, links, m, segs, addr, size);
    hide Veil, Find, SavedFrom, Onward;
    var r := FindInStackBuf(addr, size, sbuf);
    if r.Found? {
      if r.off + size > |sbuf.recs[r.seg].bytes| {
        return true;
      }
      Expose(sbuf, mem, r.seg, r.off, sbuf.recs[r.seg].bytes[r.off..r.off + size], m, segs, holes + links);
      assert holes + links + [Hole(r.seg, r.off, size)] == holes + t.holes;
    }
    return false;
  }

  /** Entry `j` from the word found by its first lookup on, to the end of its chain. */
  method FollowChain(plt: ParaList, j: nat, a: ulong, size: ulong, r: Lookup, sbuf: StackBuf, mem: Memory,
                     ghost m: seq<byte>, ghost segs: seq<Segment>, ghost holes: seq<Hole>, ghost t: Trail)
    returns (crash: bool)
    requires j < |plt.plist| && IsInt(plt.plist[j].pointer) && size == plt.plist[j].size
    requires Showing(sbuf, mem, m, segs, holes)
    requires r == Find(segs, a, WORD) && r.Found? && r.off + WORD <= |segs[r.seg].bytes| && a + WORD <= |m|
    requires Onward(t, [] + [Hole(r.seg, r.off, WORD)], m, segs, WordAt(m, a), plt.plist[j].pointer, size)
    modifies plt, sbuf`lists, mem
    ensures sbuf.Valid() && OnlyFirstList(sbuf)
    ensures crash == t.crash
    ensures !crash ==>
      && Showing(sbuf, mem, m, segs, holes + t.holes)
      && plt.plist == old(plt.plist)[j := old(plt.plist[j]).(pointer := 0)]
  {
    hide Veil, Find, WordAt, SavedFrom, Onward, Follow, Levels, IsInt;
    ghost var first := [] + [Hole(r.seg, r.off, WORD)];
    assert holes + first == holes + [Hole(r.seg, r.off, WORD)];
    var addr := ExposeWord(sbuf, mem, a, r, m, segs, holes);
    ghost var links;
    crash, addr, links := FollowLinks(plt, j, addr, sbuf, mem, m, segs, holes, t, first);
    if !crash {
      crash := ExposeTarget(addr, size, sbuf, mem, m, segs, holes, t, links);
    }
  }

  /** The body of the loop of `restore_pointers` for the pointer parameter `j`. */
  method RestorePointer(plt: ParaList, j: nat, sbuf: StackBuf, mem: Memory,
                        ghost m: seq<byte>, ghost segs: seq<Segment>, ghost holes: seq<Hole>)
    returns (end: Ending, ghost t: Trail)
    requires j < |plt.plist| && plt.plist[j].pointer != 0 && IsInt(plt.plist[j].pointer)
    requires Showing(sbuf, mem, m, segs, holes)
    modifies plt, sbuf`lists, mem
    ensures t == Follow(m, segs, old(plt.plist[j].addr), Levels(old(plt.plist[j].pointer)), old(plt.plist[j].size))
    ensures sbuf.Valid() && OnlyFirstList(sbuf)
    ensures end.Missing? <==> Find(segs, old(plt.plist[j].addr), WORD).NotFound?
    ensures end.Missing? ==>
      && end.at == j && Showing(sbuf, mem, m, segs, holes)
      && plt.plist == old(plt.plist)[j := old(plt.plist[j]).(pointer := Decrement(old(plt.plist[j].pointer)))]
    ensures end.Crash? <==> !end.Missing? && (sbuf.moved || t.crash)
    ensures end.Complete? ==>
      && Showing(sbuf, mem, m, segs, holes + t.holes)
      && plt.plist == old(plt.plist)[j := old(plt.plist[j]).(pointer := 0)]
  {
    ghost var p := plt.plist[j];
    t := Follow(m, segs, p.addr, Levels(p.pointer), p.size);
    assert Onward(t, [], m, segs, p.addr, p.pointer, p.size);
    OnwardStep(t, [], m, segs, p.addr, p.pointer, p.size);
    hide Veil, Find, WordAt, SavedFrom, Onward, Follow, Levels, Decrement, IsInt, OnlyFirstList;
    var addr, size := plt.plist[j].addr, plt.plist[j].size;
    plt.plist := plt.plist[j := plt.plist[j].(pointer := Decrement(plt.plist[j].pointer))];
    var r := FindInStackBuf(addr, WORD, sbuf);
    if r.NotFound? {
      return Missing(j), t;
    }
    if r.off + WORD > |sbuf.recs[r.seg].bytes| || sbuf.moved {
      return Crash, t;
    }
    var crash := FollowChain(plt, j, addr, size, r, sbuf, mem, m, segs, holes, t);
    end := if crash then Crash else Complete;
  }

  /** `f` is what has been filed so far followed by the rest from entry `i` on. */
  ghost predicate FiledSo(f: Filing, holes: seq<Hole>, m: seq<byte>, segs: seq<Segment>, moved: bool,
                          ps: seq<Para>, i: nat)
    requires SavedFrom(m, segs)
  {
    var rest := File(m, segs, moved, ps, i);
    f.end == rest.end && (!f.end.Crash? ==> f.holes == holes + rest.holes)
  }

  lemma FiledStep(f: Filing, holes: seq<Hole>, m: seq<byte>, segs: seq<Segment>, moved: bool, ps: seq<Para>, i: nat)
    requires SavedFrom(m, segs) && i < |ps| && FiledSo(f, holes, m, segs, moved, ps, i)
    ensures var t := Follow(m, segs, ps[i].addr, Levels(ps[i].pointer), ps[i].size);
      if ps[i].pointer == 0 then FiledSo(f, holes, m, segs, moved, ps, i + 1)
      else if Find(segs, ps[i].addr, WORD).NotFound? then f == Filing(holes, Missing(i))
      else if moved || t.crash then f.end.Crash?
      else FiledSo(f, holes + t.holes, m, segs, moved, ps, i + 1)
  {
    hide Follow, Find, Levels, SavedFrom;
    assert holes + [] == holes;
    var t := Follow(m, segs, ps[i].addr, Levels(ps[i].pointer), ps[i].size);
    var rest := File(m, segs, moved, ps, i + 1);
    assert holes + (t.holes + rest.holes) == holes + t.holes + rest.holes;
  }

  /** The entries before `i` are used up, the others untouched. */
  ghost predicate UsedUpTo(ps: seq<Para>, qs: seq<Para>, i: nat) {
    |qs| == |ps| && forall k :: 0 <= k < |ps| ==> qs[k] == if k < i then ps[k].(pointer := 0) else ps[k]
  }

  /** `restore_pointers`: exposes exactly the chains and targets that the original
      memory prescribes, and uses up the pointer counts of the parameter list. */
  method RestorePointers(plt: ParaList, sbuf: StackBuf, mem: Memory, ghost m: seq<byte>, ghost segs: seq<Segment>)
    returns (end: Ending)
    requires Showing(sbuf, mem, m, segs, [])
    requires forall p :: p in plt.plist ==> IsInt(p.pointer)
    modifies plt, sbuf`lists, mem
    ensures sbuf.Valid() && OnlyFirstList(sbuf)
    ensures var f := File(m, segs, sbuf.moved, old(plt.plist), 0);
      && end == f.end
      && (!end.Crash? ==> Showing(sbuf, mem, m, segs, f.holes) && plt.plist == UsedUp(old(plt.plist), end))
  {
    ghost var ps := plt.plist;
    ghost var f := File(m, segs, sbuf.moved, ps, 0);
    ghost var holes: seq<Hole> := [];
    assert holes + f.holes == f.holes;
    assert FiledSo(f, holes, m, segs, sbuf.moved, ps, 0);
    hide Veil, Find, SavedFrom, FiledSo, Follow, File, Levels, Decrement, IsInt, UsedUp;
    for i := 0 to |plt.plist|
      invariant UsedUpTo(ps, plt.plist, i)
      invariant OnlyFirstList(sbuf) && Showing(sbuf, mem, m, segs, holes)
      invariant FiledSo(f, holes, m, segs, sbuf.moved, ps, i)
    {
      FiledStep(f, holes, m, segs, sbuf.moved, ps, i);
      assert ps[i] in ps && plt.plist[i] == ps[i];
      if plt.plist[i].pointer != 0 {
        UsedUpEnd(ps, plt.plist, i);
        ghost var t;
        end, t := RestorePointer(plt, i, sbuf, mem, m, segs, holes);
        if !end.Complete? {
          return;
        }
        holes := holes + t.holes;
      }
    }
    FiledEnd(f, holes, m, segs, sbuf.moved, ps);
    UsedUpEnd(ps, plt.plist, |ps|);
    end := Complete;
  }

  lemma UsedUpEnd(ps: seq<Para>, qs: seq<Para>, i: nat)
    requires i <= |ps| && UsedUpTo(ps, qs, i)
    ensures i == |ps| ==> qs == UsedUp(ps, Complete)
    ensures i < |ps| ==> qs[i := qs[i].(pointer := Decrement(qs[i].pointer))] == UsedUp(ps, Missing(i))
  {
  }

  lemma FiledEnd(f: Filing, holes: seq<Hole>, m: seq<byte>, segs: seq<Segment>, moved: bool, ps: seq<Para>)
    requires SavedFrom(m, segs) && FiledSo(f, holes, m, segs, moved, ps, |ps|)
    ensures f == Filing(holes, Complete)
  {
    assert holes + [] == holes;
  }

  // ------------------------------------------------------------ chain theorems

  /** `x` is a byte of a pointer word met when following `levels` pointers from `a` in
      memory `m`, or of the target if one saved copy holds all of it. */
  ghost predicate OnChain(m: seq<byte>, segs: seq<Segment>, a: ulong, levels: nat, size: ulong, x: int)
    decreases levels
  {
    if levels == 0 then a <= x < a + size && exists s :: s in segs && Holds(s, a, size)
    else a <= x < a + WORD || (a + WORD <= |m| && OnChain(m, segs, WordAt(m, a), levels - 1, size, x))
  }

  ghost predicate InBounds(segs: seq<Segment>, holes: seq<Hole>) {
    forall h :: h in holes ==> h.seg < |segs| && h.off + h.len <= |segs[h.seg].bytes|
  }

  /** Following `levels` pointers from `a` leaves the saved copies: some pointer word is
      in no copy, or the target wraps around and a copy passes the range test for it. */
  ghost predicate Leaves(m: seq<byte>, segs: seq<Segment>, a: ulong, levels: nat, size: ulong)
    decreases levels
  {
    if levels == 0 then a + size >= TWO64 && Findable(segs, a, size)
    else
      || (forall s :: s in segs ==> !Holds(s, a, WORD))
      || (a + WORD <= |m| && Leaves(m, segs, WordAt(m, a), levels - 1, size))
  }

  /** Following a chain faults exactly when the chain leaves the saved copies. */
  lemma {:induction false} FollowFaultsIff(m: seq<byte>, segs: seq<Segment>, a: ulong, levels: nat, size: ulong)
    requires SavedFrom(m, segs) && |m| < TWO64
    ensures Follow(m, segs, a, levels, size).crash <==> Leaves(m, segs, a, levels, size)
    decreases levels
  {
    var len := if levels == 0 then size else WORD;
    var r := Find(segs, a, len);
    FindExact(segs, a, len);
    FindIff(segs, a, len);
    if a + len >= TWO64 {
      FindWrapped(m, segs, a, len);
    }
    hide Find, WordAt, Findable;
    if r.Found? {
      assert segs[r.seg] in segs;
      if levels != 0 && r.off + len <= |segs[r.seg].bytes| {
        FollowFaultsIff(m, segs, WordAt(m, a), levels - 1, size);
      }
    }
  }

  lemma {:induction false} FollowInBounds(m: seq<byte>, segs: seq<Segment>, a: ulong, levels: nat, size: ulong)
    requires SavedFrom(m, segs)
    ensures InBounds(segs, Follow(m, segs, a, levels, size).holes)
    decreases levels
  {
    var len := if levels == 0 then size else WORD;
    var r := Find(segs, a, len);
    hide Find, WordAt;
    if levels != 0 && r.Found? && r.off + len <= |segs[r.seg].bytes| {
      assert segs[r.seg] in segs;
      FollowInBounds(m, segs, WordAt(m, a), levels - 1, size);
    }
  }

  /** A chain that stays in the saved copies is exposed: all its pointer words and its
      target, and nothing else. */
  lemma {:induction false} FollowExposesChain(m: seq<byte>, segs: seq<Segment>, a: ulong, levels: nat, size: ulong)
    requires SavedFrom(m, segs) && |m| < TWO64 && !Leaves(m, segs, a, levels, size)
    ensures !Follow(m, segs, a, levels, size).crash
    ensures forall x ::
      Exposed(segs, Follow(m, segs, a, levels, size).holes, x) <==> OnChain(m, segs, a, levels, size, x)
    decreases levels
  {
    var len := if levels == 0 then size else WORD;
    var t, r := Follow(m, segs, a, levels, size), Find(segs, a, len);
    FollowFaultsIff(m, segs, a, levels, size);
    FindExact(segs, a, len);
    hide Find, WordAt, Exposed, Shows;
    if r.Found? {
      var h := Hole(r.seg, r.off, len);
      assert segs[r.seg] in segs && Holds(segs[r.seg], a, len);
      ExposedOne(segs, h, a);
      if levels == 0 {
        assert t.holes == [h];
      } else {
        FollowExposesChain(m, segs, WordAt(m, a), levels - 1, size);
        ExposedConcat(segs, [h], Follow(m, segs, WordAt(m, a), levels - 1, size).holes);
      }
    } else {
      ExposedNone(segs);
      if a + len >= TWO64 {
        FindWrapped(m, segs, a, len);
      }
    }
  }

  lemma ExposedOne(segs: seq<Segment>, h: Hole, a: int)
    requires h.seg < |segs| && a == segs[h.seg].start + h.off
    ensures forall x :: Exposed(segs, [h], x) <==> a <= x < a + h.len
  {
    assert h in [h];
    assert forall x :: Shows(segs, h, x) <==> a <= x < a + h.len;
  }

  lemma ExposedNone(segs: seq<Segment>)
    ensures forall x :: !Exposed(segs, [], x)
  {
  }

  lemma ExposedConcat(segs: seq<Segment>, g: seq<Hole>, h: seq<Hole>)
    ensures forall x :: Exposed(segs, g + h, x) <==> Exposed(segs, g, x) || Exposed(segs, h, x)
  {
    assert forall y :: y in g + h <==> y in g || y in h;
  }

  /** The first pointer parameter from `i` on whose word no saved copy is found for, or
      the length of the list: `restore_pointers` gets no further. */
  ghost function FirstMissing(segs: seq<Segment>, ps: seq<Para>, i: nat): (n: nat)
    requires i <= |ps|
    ensures i <= n <= |ps|
    ensures forall j :: i <= j < n && ps[j].pointer != 0 ==> Findable(segs, ps[j].addr, WORD)
    ensures n < |ps| ==> ps[n].pointer != 0 && !Findable(segs, ps[n].addr, WORD)
    decreases |ps| - i
  {
    if i == |ps| || (ps[i].pointer != 0 && !Findable(segs, ps[i].addr, WORD)) then i else FirstMissing(segs, ps, i + 1)
  }

  /** Some pointer parameter with index in `[i, n)` cannot be filed: the hole lists were
      moved, or its chain leaves the saved copies. */
  ghost predicate SomeLeaves(m: seq<byte>, segs: seq<Segment>, moved: bool, ps: seq<Para>, i: nat, n: nat)
    requires n <= |ps|
  {
    exists j :: i <= j < n && ps[j].pointer != 0 &&
      (moved || Leaves(m, segs, ps[j].addr, Levels(ps[j].pointer), ps[j].size))
  }

  lemma SomeLeavesStep(m: seq<byte>, segs: seq<Segment>, moved: bool, ps: seq<Para>, i: nat, n: nat)
    requires i < n <= |ps|
    ensures SomeLeaves(m, segs, moved, ps, i, n) <==>
      || SomeLeaves(m, segs, moved, ps, i + 1, n)
      || (ps[i].pointer != 0 && (moved || Leaves(m, segs, ps[i].addr, Levels(ps[i].pointer), ps[i].size)))
  {
    hide Leaves, Levels;
  }

  /** `restore_pointers` faults exactly when a pointer parameter before the first missing
      one cannot be filed; otherwise it stops at the missing one or completes. */
  lemma {:induction false} FileEnds(m: seq<byte>, segs: seq<Segment>, moved: bool, ps: seq<Para>, i: nat)
    requires SavedFrom(m, segs) && |m| < TWO64 && i <= |ps|
    ensures var n := FirstMissing(segs, ps, i);
      File(m, segs, moved, ps, i).end ==
        if SomeLeaves(m, segs, moved, ps, i, n) then Crash else if n < |ps| then Missing(n) else Complete
    decreases |ps| - i
  {
    hide Follow, Find, Leaves, Levels, Findable, SomeLeaves, SavedFrom;
    var n := FirstMissing(segs, ps, i);
    if i < n {
      FileEnds(m, segs, moved, ps, i + 1);
      SomeLeavesStep(m, segs, moved, ps, i, n);
    } else {
      NoneLeaves(m, segs, moved, ps, n);
    }
    if i < |ps| {
      FindIff(segs, ps[i].addr, WORD);
      FollowFaultsIff(m, segs, ps[i].addr, Levels(ps[i].pointer), ps[i].size);
    }
  }

  lemma NoneLeaves(m: seq<byte>, segs: seq<Segment>, moved: bool, ps: seq<Para>, n: nat)
    requires n <= |ps|
    ensures !SomeLeaves(m, segs, moved, ps, n, n)
  {
  }

  /** `x` is on the chain of a pointer parameter with index in `[i, n)`. */
  ghost predicate OnSomeChain(m: seq<byte>, segs: seq<Segment>, ps: seq<Para>, i: nat, n: nat, x: int)
    requires n <= |ps|
  {
    exists j :: i <= j < n && ps[j].pointer != 0 && OnChain(m, segs, ps[j].addr, Levels(ps[j].pointer), ps[j].size, x)
  }

  lemma OnSomeChainStep(m: seq<byte>, segs: seq<Segment>, ps: seq<Para>, i: nat, n: nat, x: int)
    requires i <= n <= |ps|
    ensures OnSomeChain(m, segs, ps, i, n, x) <==>
      i < n && (
        || OnSomeChain(m, segs, ps, i + 1, n, x)
        || (ps[i].pointer != 0 && OnChain(m, segs, ps[i].addr, Levels(ps[i].pointer), ps[i].size, x)))
  {
    hide OnChain, Levels;
  }

  /** For counts that are not negative the depth of a chain is the count itself. */
  lemma DepthIsPointer(m: seq<byte>, segs: seq<Segment>, ps: seq<Para>, i: nat, n: nat, x: int)
    requires n <= |ps| && forall j :: i <= j < n ==> 0 <= ps[j].pointer && IsInt(ps[j].pointer)
    ensures OnSomeChain(m, segs, ps, i, n, x) <==>
      exists j :: i <= j < n && 0 < ps[j].pointer && OnChain(m, segs, ps[j].addr, ps[j].pointer, ps[j].size, x)
  {
    hide OnChain;
  }

  lemma {:induction false} FileInBounds(m: seq<byte>, segs: seq<Segment>, moved: bool, ps: seq<Para>, i: nat)
    requires SavedFrom(m, segs)
    ensures InBounds(segs, File(m, segs, moved, ps, i).holes)
    decreases |ps| - i
  {
    hide Follow, Find, Levels, SavedFrom;
    if i < |ps| {
      FileInBounds(m, segs, moved, ps, i + 1);
      FollowInBounds(m, segs, ps[i].addr, Levels(ps[i].pointer), ps[i].size);
    }
  }

  /** Pointer-chain restoration: unless it faults, the exposed bytes are exactly the chain
      words and targets, in the original memory, of the pointer parameters before the
      first missing one. */
  lemma {:induction false} FileExposesChains(m: seq<byte>, segs: seq<Segment>, moved: bool, ps: seq<Para>, i: nat)
    requires SavedFrom(m, segs) && |m| < TWO64 && i <= |ps|
    requires !SomeLeaves(m, segs, moved, ps, i, FirstMissing(segs, ps, i))
    ensures var f, n := File(m, segs, moved, ps, i), FirstMissing(segs, ps, i);
      && f.end == (if n < |ps| then Missing(n) else Complete)
      && forall x :: Exposed(segs, f.holes, x) <==> OnSomeChain(m, segs, ps, i, n, x)
    decreases |ps| - i
  {
    hide Follow, Find, Leaves, Levels, Findable, SomeLeaves, SavedFrom, Exposed, OnSomeChain, OnChain;
    var f, n := File(m, segs, moved, ps, i), FirstMissing(segs, ps, i);
    FileEnds(m, segs, moved, ps, i);
    forall x ensures OnSomeChain(m, segs, ps, i, n, x) <==>
      i < n && (
        || OnSomeChain(m, segs, ps, i + 1, n, x)
        || (ps[i].pointer != 0 && OnChain(m, segs, ps[i].addr, Levels(ps[i].pointer), ps[i].size, x)))
    {
      OnSomeChainStep(m, segs, ps, i, n, x);
    }
    if i < n {
      var p, rest := ps[i], File(m, segs, moved, ps, i + 1);
      SomeLeavesStep(m, segs, moved, ps, i, n);
      FileExposesChains(m, segs, moved, ps, i + 1);
      FindIff(segs, p.addr, WORD);
      if p.pointer != 0 {
        var t := Follow(m, segs, p.addr, Levels(p.pointer), p.size);
        FollowExposesChain(m, segs, p.addr, Levels(p.pointer), p.size);
        ExposedConcat(segs, t.holes, rest.holes);
      }
    } else {
      ExposedNone(segs);
      if i < |ps| {
        FindIff(segs, ps[i].addr, WORD);
      }
    }
  }

  // ------------------------------------------------------- holes as user memory

  /** A range of user memory. */
  datatype Range = Range(addr: nat, len: nat)

  /** The pointer words met when following `levels` pointers from `a` in memory `m`, and
      the target if one saved copy holds all of it. */
  ghost function ChainRanges(m: seq<byte>, segs: seq<Segment>, a: ulong, levels: nat, size: ulong): (r: seq<Range>)
    decreases levels
  {
    if levels == 0 then
      if exists s :: s in segs && Holds(s, a, size) then [Range(a, size)] else []
    else
      [Range(a, WORD)] + if a + WORD <= |m| then ChainRanges(m, segs, WordAt(m, a), levels - 1, size) else []
  }

  /** The same for the pointer parameters with index in `[i, n)`, in list order. */
  ghost function ListRanges(m: seq<byte>, segs: seq<Segment>, ps: seq<Para>, i: nat, n: nat): (r: seq<Range>)
    requires n <= |ps|
    decreases n - i
  {
    if i >= n then []
    else
      (if ps[i].pointer == 0 then [] else ChainRanges(m, segs, ps[i].addr, Levels(ps[i].pointer), ps[i].size))
      + ListRanges(m, segs, ps, i + 1, n)
  }

  /** `h` is the range `r` of user memory, in the first copy if that holds all of it. */
  ghost predicate Locates(segs: seq<Segment>, h: Hole, r: Range) {
    && h.seg < |segs| && segs[h.seg].start + h.off == r.addr && h.len == r.len
    && (h.seg == 0 <==> Holds(segs[0], r.addr, r.len))
  }

  ghost predicate Locate(segs: seq<Segment>, holes: seq<Hole>, ranges: seq<Range>) {
    && |holes| == |ranges| && (segs == [] ==> holes == [])
    && forall k :: 0 <= k < |holes| ==> Locates(segs, holes[k], ranges[k])
  }

  lemma LocateConcat(segs: seq<Segment>, g: seq<Hole>, q: seq<Range>, h: seq<Hole>, r: seq<Range>)
    requires Locate(segs, g, q) && Locate(segs, h, r)
    ensures Locate(segs, g + h, q + r)
  {
    hide Locates;
  }

  lemma FoundLocates(segs: seq<Segment>, a: ulong, len: ulong)
    requires a + len < TWO64
    ensures var r := Find(segs, a, len); r.Found? ==> Locates(segs, Hole(r.seg, r.off, len), Range(a, len))
  {
    FindExact(segs, a, len);
  }

  /** The holes of a chain that stays in the saved copies are its words and its target. */
  lemma {:induction false} FollowRanges(m: seq<byte>, segs: seq<Segment>, a: ulong, levels: nat, size: ulong)
    requires SavedFrom(m, segs) && |m| < TWO64 && !Leaves(m, segs, a, levels, size)
    ensures Locate(segs, Follow(m, segs, a, levels, size).holes, ChainRanges(m, segs, a, levels, size))
    decreases levels
  {
    var len := if levels == 0 then size else WORD;
    var r := Find(segs, a, len);
    FollowFaultsIff(m, segs, a, levels, size);
    FindExact(segs, a, len);
    hide Find, WordAt, Locates;
    if r.Found? {
      var h := Hole(r.seg, r.off, len);
      assert segs[r.seg] in segs && Holds(segs[r.seg], a, len);
      FoundLocates(segs, a, len);
      if levels != 0 {
        FollowRanges(m, segs, WordAt(m, a), levels - 1, size);
        LocateConcat(segs, [h], [Range(a, len)], Follow(m, segs, WordAt(m, a), levels - 1, size).holes,
                     ChainRanges(m, segs, WordAt(m, a), levels - 1, size));
      }
    } else if a + len >= TWO64 {
      FindWrapped(m, segs, a, len);
    }
  }

  /** So are the holes of a list that does not fault. */
  lemma {:induction false} FileRanges(m: seq<byte>, segs: seq<Segment>, moved: bool, ps: seq<Para>, i: nat)
    requires SavedFrom(m, segs) && |m| < TWO64 && i <= |ps|
    requires !SomeLeaves(m, segs, moved, ps, i, FirstMissing(segs, ps, i))
    ensures Locate(segs, File(m, segs, moved, ps, i).holes, ListRanges(m, segs, ps, i, FirstMissing(segs, ps, i)))
    decreases |ps| - i
  {
    hide Follow, Find, Leaves, Levels, Findable, SomeLeaves, SavedFrom, ChainRanges, Locates;
    var n := FirstMissing(segs, ps, i);
    FileEnds(m, segs, moved, ps, i);
    if i < n {
      var p := ps[i];
      SomeLeavesStep(m, segs, moved, ps, i, n);
      FileRanges(m, segs, moved, ps, i + 1);
      FindIff(segs, p.addr, WORD);
      if p.pointer != 0 {
        FollowRanges(m, segs, p.addr, Levels(p.pointer), p.size);
        LocateConcat(segs, Follow(m, segs, p.addr, Levels(p.pointer), p.size).holes,
                     ChainRanges(m, segs, p.addr, Levels(p.pointer), p.size),
                     File(m, segs, moved, ps, i + 1).holes, ListRanges(m, segs, ps, i + 1, n));
      } else {
        assert [] + ListRanges(m, segs, ps, i + 1, n) == ListRanges(m, segs, ps, i + 1, n);
      }
    } else if i < |ps| {
      FindIff(segs, ps[i].addr, WORD);
    }
  }

  /** Of two ranges, `r` being filed first, the one that comes first ends before the
      other begins; if both begin at one address, `r` comes first. */
  ghost predicate InOrder(r: Range, t: Range) {
    if r.addr <= t.addr then r.addr + r.len <= t.addr else t.addr + t.len <= r.addr
  }

  /** All ranges lie in the first copy and none overlaps another. */
  ghost predicate Recoverable(segs: seq<Segment>, ranges: seq<Range>) {
    && (forall k :: 0 <= k < |ranges| ==> segs != [] && Holds(segs[0], ranges[k].addr, ranges[k].len))
    && (forall k, l :: 0 <= k < l < |ranges| ==> InOrder(ranges[k], ranges[l]))
  }

  /** What the restore loop needs of the holes, in terms of user memory. */
  lemma LocatedSeparate(segs: seq<Segment>, holes: seq<Hole>, ranges: seq<Range>)
    requires Locate(segs, holes, ranges)
    ensures (segs != [] ==> Inside(holes, 0, |segs[0].bytes|) && AllSeparate(holes)) <==> Recoverable(segs, ranges)
  {
    AllSeparateIff(holes);
    hide AllSeparate;
    if segs != [] {
      assert Inside(holes, 0, |segs[0].bytes|) <==>
        forall k :: 0 <= k < |holes| ==> holes[k].seg == 0 && holes[k].off + holes[k].len <= |segs[0].bytes|;
      if forall k :: 0 <= k < |holes| ==> holes[k].seg == 0 {
        forall k, l | 0 <= k < l < |holes| ensures Separate(holes[k], holes[l]) <==> InOrder(ranges[k], ranges[l]) {
          assert Locates(segs, holes[k], ranges[k]) && Locates(segs, holes[l], ranges[l]);
        }
      }
    }
  }

  // -------------------------------------------------------------- lists used twice

  /** A list that stopped at a missing pointer variable, passed again where that variable
      is still missing, stops there again with one level less, until none is left; then
      it gets past it, and the variable counts as a by-value parameter. */
  lemma RetriedList(segs: seq<Segment>, ps: seq<Para>)
    requires FirstMissing(segs, ps, 0) < |ps| && forall k :: 0 <= k < |ps| ==> IsInt(ps[k].pointer)
    ensures var n := FirstMissing(segs, ps, 0);
      var qs := UsedUp(ps, Missing(n));
      && Levels(qs[n].pointer) == Levels(ps[n].pointer) - 1 && qs[n].addr == ps[n].addr && qs[n].size == ps[n].size
      && qs[n + 1..] == ps[n + 1..]
      && if Levels(ps[n].pointer) == 1 then n < FirstMissing(segs, qs, 0) && qs[n].pointer == 0
        else FirstMissing(segs, qs, 0) == n
  {
    var n := FirstMissing(segs, ps, 0);
    var qs := UsedUp(ps, Missing(n));
    DecrementLevels(ps[n].pointer);
    hide Findable, FirstMissing, Decrement;
  }

  /** A list whose pointer counts are used up files no hole. */
  lemma {:induction false} SpentFilesNothing(m: seq<byte>, segs: seq<Segment>, moved: bool, ps: seq<Para>, i: nat)
    requires SavedFrom(m, segs)
    ensures File(m, segs, moved, UsedUp(ps, Complete), i) == Filing([], Complete)
    decreases |ps| - i
  {
    if i < |ps| {
      SpentFilesNothing(m, segs, moved, ps, i + 1);
    }
  }

  /** In such a list the first entry at an address keeps its bytes there by value,
      pointer variables included. */
  lemma {:induction false} SpentKeeps(ps: seq<Para>, j: nat)
    requires j < |ps| && forall l :: 0 <= l < j ==> ps[l].addr != ps[j].addr
    ensures KeepAt(UsedUp(ps, Complete), ps[j].addr) == ps[j].size
  {
    var qs := UsedUp(ps, Complete);
    assert qs[1..] == UsedUp(ps[1..], Complete);
    if j > 0 {
      SpentKeeps(ps[1..], j - 1);
    }
  }
}
