/** kernel_probe/jprobe.c: `contains` and the scan of `jsys_encrypt_stack`, which
    saves and blanks every run of frame bytes that is not a by-value parameter. */
module FrameScan {
  import opened Bytes
  import opened Parameters
  import opened StackBufs

  const BLANK: byte := 48                          // '0'

  /** Bytes from `a` on that stay live: the first entry listed for `a` decides. */
  function KeepAt(ps: seq<Para>, a: int): (n: ulong) {
    if ps == [] then 0
    else if ps[0].addr == a then (if ps[0].pointer != 0 then 0 else ps[0].size)
    else KeepAt(ps[1..], a)
  }

  /** `para_list_t`, in user memory outside the frame. */
  class ParaList {
    var plist: seq<Para>

    constructor (ps: seq<Para>)
      ensures plist == ps
    {
      plist := ps;
    }
  }

  /** Entry `j` is the first one listed for address `a`. */
  ghost predicate FirstFor(ps: seq<Para>, a: int, j: nat) {
    j < |ps| && ps[j].addr == a && forall l :: 0 <= l < j ==> ps[l].addr != a
  }

  /** Whatever else is listed, only the first entry for an address counts. */
  lemma {:induction false} KeepAtDecides(ps: seq<Para>, a: int)
    ensures forall j: nat :: FirstFor(ps, a, j) ==> KeepAt(ps, a) == if ps[j].pointer == 0 then ps[j].size else 0
    ensures (forall j :: 0 <= j < |ps| ==> ps[j].addr != a) ==> KeepAt(ps, a) == 0
  {
    if ps != [] && ps[0].addr != a {
      KeepAtDecides(ps[1..], a);
      forall j: nat | FirstFor(ps, a, j) ensures KeepAt(ps, a) == if ps[j].pointer == 0 then ps[j].size else 0 {
        assert FirstFor(ps[1..], a, j - 1);
      }
    }
  }

  lemma {:induction false} FirstForExists(ps: seq<Para>, a: int, j: nat)
    requires j < |ps| && ps[j].addr == a
    ensures exists l :: FirstFor(ps, a, l)
  {
    if l: nat :| l < j && ps[l].addr == a {
      FirstForExists(ps, a, l);
    } else {
      assert FirstFor(ps, a, j);
    }
  }

  /** `contains`: the first entry for the address decides, whatever comes before it. */
  method Contains(addr: int, plt: ParaList) returns (n: ulong)
    ensures n == KeepAt(plt.plist, addr)
    ensures forall j: nat :: FirstFor(plt.plist, addr, j) ==>
      n == if plt.plist[j].pointer == 0 then plt.plist[j].size else 0
    ensures (forall j :: 0 <= j < |plt.plist| ==> plt.plist[j].addr != addr) ==> n == 0
  {
    KeepAtDecides(plt.plist, addr);
    for i := 0 to |plt.plist|
      invariant KeepAt(plt.plist, addr) == KeepAt(plt.plist[i..], addr)
    {
      var tmp := plt.plist[i];
      assert plt.plist[i..][1..] == plt.plist[i + 1..];
      if addr == tmp.addr {
        if tmp.pointer != 0 {
          return 0;
        } else {
          return tmp.size;
        }
      }
    }
    n := 0;
  }

  /** A half-open address range. */
  datatype Span = Span(lo: nat, hi: nat)

  function Run(lo: nat, hi: nat): (r: seq<Span>) {
    if lo < hi then [Span(lo, hi)] else []
  }

  /** The runs that the scan still saves from `i` on, `prev` being the start of the
      current run. */
  function Scan(ps: seq<Para>, i: nat, prev: nat, rbp: nat): (r: seq<Span>)
    decreases rbp + 1 - i
  {
    if i > rbp then []
    else
      var skip := KeepAt(ps, i);
      if skip != 0 then Run(prev, i) + Scan(ps, i + skip, i + skip, rbp)
      else if i == rbp then Run(prev, i)
      else Scan(ps, i + 1, prev, rbp)
  }

  lemma ScanStep(ps: seq<Para>, i: nat, prev: nat, rbp: nat, all: seq<Span>, done: seq<Span>)
    requires all == done + Scan(ps, i, prev, rbp)
    ensures var skip := KeepAt(ps, i);
      if i > rbp then all == done
      else if skip != 0 then all == (done + Run(prev, i)) + Scan(ps, i + skip, i + skip, rbp)
      else if i == rbp then all == (done + Run(prev, i)) + Scan(ps, i + 1, prev, rbp)
      else all == done + Scan(ps, i + 1, prev, rbp)
  {
  }

  ghost predicate InSpans(spans: seq<Span>, a: int) {
    exists s :: s in spans && s.lo <= a < s.hi
  }

  /** Runs are non-empty, ascending and separated by at least one kept byte. */
  ghost predicate Separated(spans: seq<Span>, lo: int, hi: int) {
    if spans == [] then true
    else lo <= spans[0].lo < spans[0].hi <= hi && Separated(spans[1..], spans[0].hi + 1, hi)
  }

  lemma {:induction false} ScanSeparated(ps: seq<Para>, i: nat, prev: nat, rbp: nat)
    requires prev <= i
    ensures Separated(Scan(ps, i, prev, rbp), prev, rbp)
    decreases rbp + 1 - i
  {
    if i <= rbp {
      var skip := KeepAt(ps, i);
      if skip != 0 {
        ScanSeparated(ps, i + skip, i + skip, rbp);
        SeparatedRun(prev, i, i + skip, Scan(ps, i + skip, i + skip, rbp), rbp);
      } else if i < rbp {
        ScanSeparated(ps, i + 1, prev, rbp);
      }
    }
  }

  lemma SeparatedRun(prev: nat, i: nat, next: nat, rest: seq<Span>, rbp: nat)
    requires prev <= i < next && i <= rbp && Separated(rest, next, rbp)
    ensures Separated(Run(prev, i) + rest, prev, rbp)
  {
    if prev < i {
      SeparatedWeaken(rest, next, i + 1, rbp);
      assert (Run(prev, i) + rest)[1..] == rest;
    } else {
      SeparatedWeaken(rest, next, prev, rbp);
      assert Run(prev, i) + rest == rest;
    }
  }

  lemma SeparatedWeaken(spans: seq<Span>, lo: int, lo': int, hi: int)
    requires lo' <= lo && Separated(spans, lo, hi)
    ensures Separated(spans, lo', hi)
  {
  }

  /** Byte `a` is stepped over by the scan from `i` on. */
  ghost predicate Swept(ps: seq<Para>, i: nat, rbp: nat, a: int)
    decreases rbp + 1 - i
  {
    if i > rbp then false
    else
      var skip := KeepAt(ps, i);
      if skip != 0 then i <= a < i + skip || Swept(ps, i + skip, rbp, a)
      else Swept(ps, i + 1, rbp, a)
  }

  /** Whatever the parameters, the saved runs are the frame minus what was stepped over. */
  lemma {:induction false} ScanComplement(ps: seq<Para>, i: nat, prev: nat, rbp: nat, a: int)
    requires prev <= i && (i <= rbp || prev == i)
    ensures InSpans(Scan(ps, i, prev, rbp), a) <==>
      prev <= a < rbp && !Swept(ps, i, rbp, a)
    decreases rbp + 1 - i
  {
    if a < i {
      SweptAbove(ps, i, rbp, a);
    }
    if i <= rbp {
      var skip := KeepAt(ps, i);
      if skip != 0 {
        ScanComplement(ps, i + skip, i + skip, rbp, a);
        if a < i + skip {
          SweptAbove(ps, i + skip, rbp, a);
        }
        InSpansConcat(Run(prev, i), Scan(ps, i + skip, i + skip, rbp), a);
      } else if i < rbp {
        ScanComplement(ps, i + 1, prev, rbp, a);
      } else {
        assert !Swept(ps, i + 1, rbp, a);
      }
    }
  }

  lemma InSpansConcat(r: seq<Span>, t: seq<Span>, a: int)
    ensures InSpans(r + t, a) <==> InSpans(r, a) || InSpans(t, a)
  {
    assert forall s :: s in r + t <==> s in r || s in t;
  }

  /** No by-value parameter wraps around the address space. */
  ghost predicate NoWrap(ps: seq<Para>) {
    forall p :: p in ps && p.pointer == 0 ==> p.addr + p.size < TWO64
  }

  // ------------------------------------------------------ the partition theorem

  ghost predicate Live(p: Para, a: int) {
    p.pointer == 0 && p.addr <= a < p.addr + p.size
  }

  /** `a` belongs to a by-value parameter. */
  ghost predicate ByValue(ps: seq<Para>, a: int) {
    exists p :: p in ps && Live(p, a)
  }

  /** Each by-value parameter that meets the frame starts inside it, does not stick out
      of another by-value parameter that its first byte lies in, and the first entry for
      its address is by value.  Disjoint parameters at distinct addresses at or above rsp
      are the common case. */
  ghost predicate Placed(ps: seq<Para>, rsp: nat, rbp: nat) {
    forall p :: p in ps && p.pointer == 0 && 0 < p.size && p.addr < rbp && rsp < p.addr + p.size ==>
      && rsp <= p.addr
      && (forall l: nat :: FirstFor(ps, p.addr, l) ==> ps[l].pointer == 0 && ps[l].size != 0)
      && forall q :: q in ps && Live(q, p.addr) ==> p.addr + p.size <= q.addr + q.size || rbp <= q.addr + q.size
  }

  lemma {:induction false} KeepAtIsListed(ps: seq<Para>, a: nat)
    requires KeepAt(ps, a) != 0
    ensures exists p :: p in ps && p.pointer == 0 && p.addr == a && p.size == KeepAt(ps, a)
  {
    if ps[0].addr != a {
      KeepAtIsListed(ps[1..], a);
      var p :| p in ps[1..] && p.pointer == 0 && p.addr == a && p.size == KeepAt(ps[1..], a);
      assert p in ps;
    } else {
      assert ps[0] in ps;
    }
  }

  lemma KeepFits(ps: seq<Para>, a: nat)
    requires NoWrap(ps) && KeepAt(ps, a) != 0
    ensures a + KeepAt(ps, a) < TWO64
  {
    KeepAtIsListed(ps, a);
  }

  /** Parameters that start before `i` do not reach past it inside the frame. */
  ghost predicate Behind(ps: seq<Para>, i: nat, rbp: nat) {
    forall p :: p in ps && p.pointer == 0 && p.addr < i && 0 < p.size ==> p.addr + p.size <= i || rbp <= i
  }

  lemma {:induction false} SweptIsByValue(ps: seq<Para>, rsp: nat, i: nat, rbp: nat, a: int)
    requires Placed(ps, rsp, rbp) && rsp <= i && i <= a < rbp
    requires forall p :: p in ps && Live(p, a) ==> i <= p.addr
    requires Behind(ps, i, rbp)
    ensures Swept(ps, i, rbp, a) <==> ByValue(ps, a)
    decreases rbp + 1 - i
  {
    var skip := KeepAt(ps, i);
    if skip != 0 {
      KeepAtIsListed(ps, i);
      var q :| q in ps && q.pointer == 0 && q.addr == i && q.size == skip;
      if a < i + skip {
        assert Live(q, a);
      } else {
        BehindNext(ps, rsp, i, rbp, q);
        SweptIsByValue(ps, rsp, i + skip, rbp, a);
      }
    } else {
      NoneStartsAt(ps, rsp, i, rbp);
      if i == a {
        SweptAbove(ps, i + 1, rbp, a);
      } else {
        SweptIsByValue(ps, rsp, i + 1, rbp, a);
      }
    }
  }

  lemma BehindNext(ps: seq<Para>, rsp: nat, i: nat, rbp: nat, q: Para)
    requires Placed(ps, rsp, rbp) && Behind(ps, i, rbp) && rsp <= i < rbp
    requires q in ps && q.pointer == 0 && q.addr == i && 0 < q.size
    ensures Behind(ps, i + q.size, rbp)
  {
    hide FirstFor;
    forall p | p in ps && p.pointer == 0 && p.addr < i + q.size && 0 < p.size
      ensures p.addr + p.size <= i + q.size || rbp <= i + q.size
    {
      if i <= p.addr { assert Live(q, p.addr); }
    }
  }

  /** Where `contains` answers 0, no by-value parameter starts. */
  lemma NoneStartsAt(ps: seq<Para>, rsp: nat, i: nat, rbp: nat)
    requires Placed(ps, rsp, rbp) && rsp <= i < rbp && KeepAt(ps, i) == 0
    ensures forall p :: p in ps && p.pointer == 0 && 0 < p.size ==> p.addr != i
  {
    KeepAtDecides(ps, i);
    hide KeepAt, Live;
    forall p | p in ps && p.pointer == 0 && 0 < p.size ensures p.addr != i {
      if p.addr == i {
        var j :| 0 <= j < |ps| && ps[j] == p;
        FirstForExists(ps, i, j);
      }
    }
  }

  lemma SweptAbove(ps: seq<Para>, i: nat, rbp: nat, a: int)
    requires a < i
    ensures !Swept(ps, i, rbp, a)
    decreases rbp + 1 - i
  {
  }

  /** Scan partition: the saved runs are non-empty, ascending and separated, and their
      union is exactly the frame minus the by-value parameters, also for parameters
      that end at or cross rbp. */
  lemma ScanPartition(ps: seq<Para>, rsp: nat, rbp: nat)
    requires Placed(ps, rsp, rbp) && rsp <= rbp
    ensures Separated(Scan(ps, rsp, rsp, rbp), rsp, rbp)
    ensures forall a :: InSpans(Scan(ps, rsp, rsp, rbp), a) <==> rsp <= a < rbp && !ByValue(ps, a)
  {
    ScanSeparated(ps, rsp, rsp, rbp);
    forall a ensures InSpans(Scan(ps, rsp, rsp, rbp), a) <==> rsp <= a < rbp && !ByValue(ps, a) {
      ScanComplement(ps, rsp, rsp, rbp, a);
      if rsp <= a < rbp {
        SweptIsByValue(ps, rsp, rsp, rbp, a);
      }
    }
  }

  /** Positions at which the scan from `i` on asks `contains`. */
  ghost predicate Visited(ps: seq<Para>, i: nat, rbp: nat, x: int)
    decreases rbp + 1 - i
  {
    i <= rbp && (x == i || Visited(ps, if KeepAt(ps, i) != 0 then i + KeepAt(ps, i) else i + 1, rbp, x))
  }

  /** What is not stepped over was asked about and refused. */
  lemma {:induction false} UnsweptIsRefused(ps: seq<Para>, i: nat, rbp: nat, a: int)
    requires i <= a < rbp
    ensures !Swept(ps, i, rbp, a) <==> Visited(ps, i, rbp, a) && KeepAt(ps, a) == 0
    ensures Swept(ps, i, rbp, a) ==> ByValue(ps, a)
    decreases rbp + 1 - i
  {
    var skip := KeepAt(ps, i);
    var next := if skip != 0 then i + skip else i + 1;
    if skip != 0 {
      KeepAtIsListed(ps, i);
    }
    if next <= a {
      UnsweptIsRefused(ps, next, rbp, a);
    } else {
      SweptAbove(ps, next, rbp, a);
      VisitedAbove(ps, next, rbp, a);
      if skip != 0 {
        var q :| q in ps && q.pointer == 0 && q.addr == i && q.size == skip;
        assert Live(q, a);
      }
    }
  }

  lemma VisitedAbove(ps: seq<Para>, i: nat, rbp: nat, a: int)
    requires a < i
    ensures !Visited(ps, i, rbp, a)
    decreases rbp + 1 - i
  {
  }

  /** For every parameter list: the saved runs are exactly the frame minus the by-value
      parameters if and only if `contains` never answers 0 at a position that the scan
      visits inside a by-value parameter. */
  lemma ScanPartitionIff(ps: seq<Para>, rsp: nat, rbp: nat)
    requires rsp <= rbp
    ensures (forall a :: InSpans(Scan(ps, rsp, rsp, rbp), a) <==> rsp <= a < rbp && !ByValue(ps, a)) <==>
      (forall x :: rsp <= x < rbp && Visited(ps, rsp, rbp, x) && KeepAt(ps, x) == 0 ==> !ByValue(ps, x))
  {
    var spans := Scan(ps, rsp, rsp, rbp);
    forall a ensures InSpans(spans, a) <==>
      rsp <= a < rbp && Visited(ps, rsp, rbp, a) && KeepAt(ps, a) == 0
    {
      ScanComplement(ps, rsp, rsp, rbp, a);
      if rsp <= a < rbp {
        UnsweptIsRefused(ps, rsp, rbp, a);
      }
    }
    forall a | rsp <= a < rbp && !ByValue(ps, a) ensures InSpans(spans, a) {
      UnsweptIsRefused(ps, rsp, rbp, a);
    }
  }

  /** A by-value parameter that starts below rsp is hidden where it reaches into the
      frame. */
  lemma ParameterBelowFrame()
    ensures var ps := [Para(0, 8, 0)]; InSpans(Scan(ps, 4, 4, 12), 6) && ByValue(ps, 6)
  {
    var ps := [Para(0, 8, 0)];
    assert Live(ps[0], 6) && ps[0] in ps;
    NoneListed(ps, 4, 4, 12);
    assert Span(4, 12) in Scan(ps, 4, 4, 12);
  }

  lemma {:induction false} NoneListed(ps: seq<Para>, i: nat, prev: nat, rbp: nat)
    requires prev <= i <= rbp && forall a: nat :: i <= a <= rbp ==> KeepAt(ps, a) == 0
    ensures Scan(ps, i, prev, rbp) == Run(prev, rbp)
    decreases rbp - i
  {
    if i < rbp {
      NoneListed(ps, i + 1, prev, rbp);
    }
  }

  // -------------------------------------------------- saved and blanked memory

  ghost predicate Covered(segs: seq<Segment>, a: int) {
    exists s :: s in segs && Spans(s, a)
  }

  /** `h` keeps byte `a` of user memory live. */
  ghost predicate Shows(segs: seq<Segment>, h: Hole, a: int) {
    h.seg < |segs| && segs[h.seg].start + h.off <= a < segs[h.seg].start + h.off + h.len
  }

  ghost predicate Exposed(segs: seq<Segment>, holes: seq<Hole>, a: int) {
    exists h :: h in holes && Shows(segs, h, a)
  }

  /** A frame byte that is hidden from the callee. */
  ghost predicate Hidden(segs: seq<Segment>, holes: seq<Hole>, a: int) {
    Covered(segs, a) && !Exposed(segs, holes, a)
  }

  /** `m` with every saved byte outside the holes overwritten. */
  ghost function Veil(m: seq<byte>, segs: seq<Segment>, holes: seq<Hole>): (r: seq<byte>)
    ensures |r| == |m|
  {
    seq(|m|, a requires 0 <= a < |m| => if Hidden(segs, holes, a) then BLANK else m[a])
  }

  /** Every segment is a copy of `m`. */
  ghost predicate SavedFrom(m: seq<byte>, segs: seq<Segment>) {
    forall s :: s in segs ==> s.start + |s.bytes| <= |m| && s.bytes == m[s.start..s.start + |s.bytes|]
  }

  ghost predicate InMemory(spans: seq<Span>, n: nat) {
    forall k :: 0 <= k < |spans| ==> spans[k].lo <= spans[k].hi <= n
  }

  ghost function Saved(m: seq<byte>, spans: seq<Span>): (r: seq<Segment>)
    requires InMemory(spans, |m|)
    ensures |r| == |spans|
  {
    if spans == [] then []
    else [Segment(spans[0].lo, m[spans[0].lo..spans[0].hi])] + Saved(m, spans[1..])
  }

  lemma {:induction false} SavedAppend(m: seq<byte>, spans: seq<Span>, s: Span)
    requires InMemory(spans, |m|) && s.lo <= s.hi <= |m|
    ensures InMemory(spans + [s], |m|)
    ensures Saved(m, spans + [s]) == Saved(m, spans) + [Segment(s.lo, m[s.lo..s.hi])]
  {
    if spans == [] {
      assert spans + [s] == [s];
    } else {
      SavedAppend(m, spans[1..], s);
      assert (spans + [s])[1..] == spans[1..] + [s];
    }
  }

  lemma {:induction false} SavedCovers(m: seq<byte>, spans: seq<Span>)
    requires InMemory(spans, |m|)
    ensures SavedFrom(m, Saved(m, spans))
    ensures forall a :: Covered(Saved(m, spans), a) <==> InSpans(spans, a)
  {
    if spans != [] {
      assert forall x :: x in spans <==> x in spans[1..] || x == spans[0];
      SavedCovers(m, spans[1..]);
      var first := Segment(spans[0].lo, m[spans[0].lo..spans[0].hi]);
      assert forall x :: x in Saved(m, spans) <==> x in Saved(m, spans[1..]) || x == first;
      forall a ensures Covered(Saved(m, spans), a) <==> InSpans(spans, a) {
        assert Covered(Saved(m, spans), a) <==> Spans(first, a) || Covered(Saved(m, spans[1..]), a);
      }
    }
  }

  lemma VeilAt(m: seq<byte>, spans: seq<Span>, a: nat)
    requires InMemory(spans, |m|) && a < |m|
    ensures Veil(m, Saved(m, spans), [])[a] == if InSpans(spans, a) then BLANK else m[a]
  {
    SavedCovers(m, spans);
  }

  lemma InSpansAppend(spans: seq<Span>, s: Span, a: int)
    ensures InSpans(spans + [s], a) <==> InSpans(spans, a) || s.lo <= a < s.hi
  {
    assert forall x :: x in spans + [s] <==> x in spans || x == s;
  }

  /** Copying a run and overwriting it veils exactly that run as well. */
  lemma VeilRun(m: seq<byte>, spans: seq<Span>, lo: nat, hi: nat)
    requires InMemory(spans, |m|) && lo < hi <= |m|
    requires forall s :: s in spans ==> s.hi <= lo
    ensures InMemory(spans + [Span(lo, hi)], |m|)
    ensures Veil(m, Saved(m, spans), [])[lo..hi] == m[lo..hi]
    ensures Splice(Veil(m, Saved(m, spans), []), lo, seq(hi - lo, _ => BLANK))
         == Veil(m, Saved(m, spans + [Span(lo, hi)]), [])
  {
    var more := spans + [Span(lo, hi)];
    var v, w := Veil(m, Saved(m, spans), []), Veil(m, Saved(m, more), []);
    hide Veil, Saved;
    var r := Splice(v, lo, seq(hi - lo, _ => BLANK));
    forall a: nat | a < |m| ensures r[a] == w[a] && (lo <= a < hi ==> v[a] == m[a]) {
      VeilAt(m, spans, a);
      VeilAt(m, more, a);
      InSpansAppend(spans, Span(lo, hi), a);
    }
  }

  lemma {:induction false} SeparatedInMemory(spans: seq<Span>, lo: nat, hi: nat)
    requires Separated(spans, lo, hi)
    ensures InMemory(spans, hi) && forall s :: s in spans ==> lo <= s.lo
  {
    if spans != [] {
      SeparatedInMemory(spans[1..], spans[0].hi + 1, hi);
      assert forall x :: x in spans <==> x in spans[1..] || x == spans[0];
    }
  }

  // ------------------------------------------------------------------ the code

  ghost predicate AllEmpty(lists: seq<seq<Hole>>) {
    forall l :: l in lists ==> l == []
  }

  /** State of the scan after the runs `done` of the original memory `m`: they are saved
      in `res` and overwritten in `mem`.  Up to 32 of them fit the slot; more have moved
      to another block, and the slot's own was freed. */
  ghost predicate Hiding(res: StackBuf, slot: StackBuf, mem: Memory, m: seq<byte>, done: seq<Span>)
    reads res, slot, mem
  {
    && res.Valid() && InMemory(done, |m|) && res.Segs() == Saved(m, done) && AllEmpty(res.Lists())
    && mem.bytes == Veil(m, Saved(m, done), [])
    && (res.cur <= 32 ==> res == slot && slot.cap == 32 && !slot.moved && !slot.freed)
    && (res.cur > 32 ==> res != slot && res.moved && slot.freed)
  }

  lemma NothingHidden(slot: StackBuf, mem: Memory)
    requires slot.Valid() && slot.cur == 0 && slot.cap == 32 && !slot.moved && !slot.freed
    ensures Hiding(slot, slot, mem, mem.bytes, [])
  {
    assert Veil(mem.bytes, [], []) == mem.bytes;
  }

  /** Saves the run `[lo, hi)`, if there is one, and overwrites it. */
  method SaveRun(sbuf: StackBuf, slot: StackBuf, mem: Memory, lo: nat, hi: nat,
                 ghost m: seq<byte>, ghost done: seq<Span>)
    returns (res: StackBuf)
    requires Hiding(sbuf, slot, mem, m, done) && lo <= hi <= |m|
    requires forall s :: s in done ==> s.hi <= lo
    modifies sbuf, mem
    ensures Hiding(res, slot, mem, m, done + Run(lo, hi)) && (res == sbuf || fresh(res))
    ensures forall s :: s in done + Run(lo, hi) ==> s.hi <= hi
  {
    hide Veil;
    if hi > lo {
      VeilRun(m, done, lo, hi);
      SavedAppend(m, done, Span(lo, hi));
      res := CopyStackBuf(sbuf, mem, lo, hi - lo);
      mem.Memset(lo, BLANK, hi - lo);
    } else {
      assert done + Run(lo, hi) == done;
      res := sbuf;
    }
  }

  /** The scan of `jsys_encrypt_stack`.  The caller's local pointer follows the block
      when it grows past 32 records; the slot it was taken from keeps the freed one. */
  method HideRuns(rsp: nat, rbp: nat, plt: ParaList, slot: StackBuf, mem: Memory) returns (res: StackBuf)
    requires rsp <= rbp <= |mem.bytes| < TWO64 - 1 && NoWrap(plt.plist)
    requires slot.Valid() && slot.cur == 0 && slot.cap == 32 && !slot.moved && !slot.freed
    modifies slot, mem
    ensures Hiding(res, slot, mem, old(mem.bytes), Scan(plt.plist, rsp, rsp, rbp)) && (res == slot || fresh(res))
  {
    hide Hiding, KeepAt, Scan, Run, NoWrap;
    ghost var m, ps := mem.bytes, plt.plist;
    ghost var all := Scan(ps, rsp, rsp, rbp);
    ghost var done: seq<Span> := [];
    NothingHidden(slot, mem);
    res := slot;
    var i, prev := rsp, rsp;
    while i <= rbp
      invariant rsp <= prev <= i && (i <= rbp + 1 || prev == i)
      invariant all == done + Scan(ps, i, prev, rbp)
      invariant i <= rbp ==> forall s :: s in done ==> s.hi <= prev
      invariant Hiding(res, slot, mem, m, done) && (res == slot || fresh(res))
      decreases rbp + 1 - i
    {
      var skip := Contains(i, plt);
      ScanStep(ps, i, prev, rbp, all, done);
      if skip != 0 {
        res := SaveRun(res, slot, mem, prev, i, m, done);
        done := done + Run(prev, i);
        KeepFits(ps, i);
        i := i + skip;
        prev := i;
      } else if i == rbp {
        res := SaveRun(res, slot, mem, prev, i, m, done);
        done := done + Run(prev, i);
        i := i + 1;
      } else {
        i := i + 1;
      }
    }
    ScanStep(ps, i, prev, rbp, all, done);
  }
}
