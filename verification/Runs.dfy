/** Whole runs of the vault: encrypt and decrypt calls interleaved with arbitrary
    writes of the user process. */
module Runs {
  import opened Bytes
  import opened Parameters
  import opened StackBufs
  import opened FrameScan
  import opened Pointers
  import opened VaultSpec

  datatype Step =
    | Encrypt(name: Name, rsp: nat, rbp: nat, ps: seq<Para>)
    | Decrypt(name: Name)
    | Write(addr: nat, value: byte)

  ghost predicate Enabled(s: State, st: Step) {
    match st
    case Encrypt(_, rsp, rbp, ps) => Callable(s, rsp, rbp, ps)
    case Decrypt(_) => true
    case Write(a, _) => a < |s.mem|
  }

  ghost function Next(s: State, st: Step): (r: Result)
    requires Enabled(s, st)
  {
    match st
    case Encrypt(name, rsp, rbp, ps) => EncryptSpec(s, name, rsp, rbp, ps)
    case Decrypt(name) => DecryptSpec(s, name)
    case Write(a, v) => Return(s.(mem := s.mem[a := v]), 0)
  }

  ghost predicate Moves(s: State, st: Step, t: State) {
    Enabled(s, st) && Next(s, st).Return? && Next(s, st).s == t
  }

  /** `ss[i]` is the state before `steps[i]`, and no call faults. */
  ghost predicate Trace(ss: seq<State>, steps: seq<Step>) {
    |ss| == |steps| + 1 && forall i :: 0 <= i < |steps| ==> Moves(ss[i], steps[i], ss[i + 1])
  }

  // ------------------------------------------------------------- single frames

  /** The frame that an accepted encrypt call pushes. */
  ghost function Pushed(s: State, st: Step): (f: Frame)
    requires st.Encrypt? && st.name.Known? && st.rsp <= st.rbp <= |s.mem|
  {
    Frame(st.rsp, st.rbp, st.name.text,
          SegsOf(s.mem, st.rsp, st.rbp, st.ps), FilingOf(s.mem, st.rsp, st.rbp, st.ps).holes)
  }

  ghost predicate Accepted(s: State, st: Step) {
    st.Encrypt? && st.name.Known? && st.rsp <= st.rbp <= |s.mem|
  }

  ghost predicate Hides(f: Frame, a: int) {
    Hidden(f.segs, f.holes, a)
  }

  /** What a step can do: every call that is refused leaves memory and frames alone. */
  lemma StepCases(s: State, st: Step, t: State)
    requires Moves(s, st, t)
    ensures |t.mem| == |s.mem|
    ensures if st.Write? then t == s.(mem := s.mem[st.addr := st.value])
      else if |t.frames| > |s.frames| then
        && Accepted(s, st) && t.frames == s.frames + [Pushed(s, st)]
        && t.mem == Veil(s.mem, Pushed(s, st).segs, Pushed(s, st).holes)
      else if |t.frames| < |s.frames| then
        var n := |s.frames| - 1;
        var f := s.frames[n];
        && st.Decrypt? && t.frames == s.frames[..n] && Decryptable(f)
        && t.mem == RestoreAll(s.mem, f.segs, HoleLists(|f.segs|, f.holes))
      else t.mem == s.mem && t.frames == s.frames
  {
  }

  /** Segments lie one after the other. */
  ghost predicate Apart(segs: seq<Segment>) {
    forall k, l :: 0 <= k < l < |segs| ==> segs[k].start + |segs[k].bytes| <= segs[l].start
  }

  ghost predicate WithinBounds(segs: seq<Segment>, lo: int, hi: int) {
    forall s :: s in segs ==> lo <= s.start && s.start + |s.bytes| <= hi
  }

  lemma {:induction false} SavedApart(m: seq<byte>, spans: seq<Span>, lo: nat, hi: nat)
    requires Separated(spans, lo, hi) && hi <= |m| && InMemory(spans, |m|)
    ensures Apart(Saved(m, spans)) && WithinBounds(Saved(m, spans), lo, hi)
  {
    if spans != [] {
      assert forall x :: x in spans[1..] ==> x in spans;
      SavedApart(m, spans[1..], spans[0].hi + 1, hi);
      ApartCons(Segment(spans[0].lo, m[spans[0].lo..spans[0].hi]), Saved(m, spans[1..]), lo, hi);
    }
  }

  lemma ApartCons(first: Segment, rest: seq<Segment>, lo: int, hi: int)
    requires lo <= first.start && first.start + |first.bytes| <= hi
    requires Apart(rest) && WithinBounds(rest, first.start + |first.bytes| + 1, hi)
    ensures Apart([first] + rest) && WithinBounds([first] + rest, lo, hi)
  {
    var segs := [first] + rest;
    forall k, l | 0 <= k < l < |segs| ensures segs[k].start + |segs[k].bytes| <= segs[l].start {
      assert segs[l] == rest[l - 1] && rest[l - 1] in rest;
      if k > 0 {
        assert segs[k] == rest[k - 1];
      }
    }
    assert forall s :: s in segs <==> s == first || s in rest;
  }

  /** Facts about the saved copies of a new frame. */
  lemma SegsOfShape(m: seq<byte>, rsp: nat, rbp: nat, ps: seq<Para>)
    requires rsp <= rbp <= |m|
    ensures var segs := SegsOf(m, rsp, rbp, ps);
      && Apart(segs) && SavedFrom(m, segs) && WithinBounds(segs, rsp, rbp)
      && forall a :: Covered(segs, a) <==> rsp <= a < rbp && !Swept(ps, rsp, rbp, a)
  {
    var spans := Scan(ps, rsp, rsp, rbp);
    ScanSeparated(ps, rsp, rsp, rbp);
    SeparatedInMemory(spans, rsp, rbp);
    SavedApart(m, spans, rsp, rbp);
    SavedCovers(m, spans);
    forall a ensures InSpans(spans, a) <==> rsp <= a < rbp && !Swept(ps, rsp, rbp, a) {
      ScanComplement(ps, rsp, rsp, rbp, a);
    }
  }

  /** The holes of a decryptable frame all point into the first copy. */
  lemma HolesInFirst(segs: seq<Segment>, holes: seq<Hole>)
    requires segs != [] && Restorable(segs, HoleLists(|segs|, holes))
    ensures Inside(holes, 0, |segs[0].bytes|)
  {
    assert Steppable(segs[0], 0, HoleLists(|segs|, holes)[0]);
    SortElements(holes);
  }

  /** `a` is put back by the first `n` records. */
  ghost predicate PutBack(segs: seq<Segment>, holes: seq<Hole>, n: nat, a: int)
    requires n <= |segs|
  {
    exists k :: 0 <= k < n && Spans(segs[k], a) && !(k == 0 && InHole(holes, a - segs[0].start))
  }

  lemma PutBackStep(segs: seq<Segment>, holes: seq<Hole>, n: nat, a: int)
    requires 0 < n <= |segs|
    ensures PutBack(segs, holes, n, a) <==>
      || PutBack(segs, holes, n - 1, a)
      || (Spans(segs[n - 1], a) && !(n == 1 && InHole(holes, a - segs[0].start)))
  {
    hide InHole, Spans;
  }

  lemma {:induction false} RestorePrefix(m: seq<byte>, mem: seq<byte>, segs: seq<Segment>, holes: seq<Hole>,
                                         n: nat, a: nat)
    requires SavedFrom(m, segs) && |m| == |mem| && n <= |segs| && a < |mem|
    ensures RestoreAll(mem, segs[..n], HoleLists(|segs|, holes))[a] ==
      if PutBack(segs, holes, n, a) then m[a] else mem[a]
    decreases n
  {
    if n > 0 {
      RestorePrefix(m, mem, segs, holes, n - 1, a);
      PutBackStep(segs, holes, n, a);
      assert segs[..n][..n - 1] == segs[..n - 1] && segs[n - 1] in segs;
      hide PutBack;
      assert Spans(segs[n - 1], a) ==> segs[n - 1].bytes[a - segs[n - 1].start] == m[a];
      if n > 1 {
        assert !InHole([], a - segs[n - 1].start);
      }
    }
  }

  /** Restoring brings every hidden byte back and touches no other. */
  lemma RestoreAt(m: seq<byte>, mem: seq<byte>, segs: seq<Segment>, holes: seq<Hole>, a: nat)
    requires SavedFrom(m, segs) && Apart(segs) && |m| == |mem| && a < |mem|
    requires Restorable(segs, HoleLists(|segs|, holes))
    ensures RestoreAll(mem, segs, HoleLists(|segs|, holes))[a] == if Hidden(segs, holes, a) then m[a] else mem[a]
  {
    RestorePrefix(m, mem, segs, holes, |segs|, a);
    assert segs[..|segs|] == segs;
    if segs != [] {
      HolesInFirst(segs, holes);
      assert Exposed(segs, holes, a) <==> Spans(segs[0], a) && InHole(holes, a - segs[0].start) by {
        assert forall h :: h in holes ==> (Shows(segs, h, a) <==> Covers(h, a - segs[0].start));
      }
    }
    hide Restorable, RestoreAll, HoleLists, Exposed, InHole;
    if PutBack(segs, holes, |segs|, a) {
      var k :| 0 <= k < |segs| && Spans(segs[k], a) && !(k == 0 && InHole(holes, a - segs[0].start));
      assert segs[k] in segs;
    }
    if Covered(segs, a) && !PutBack(segs, holes, |segs|, a) {
      var s :| s in segs && Spans(s, a);
      var k :| 0 <= k < |segs| && segs[k] == s;
    }
  }

  // --------------------------------------------------------------- round trips

  /** As long as the depth stays at least `d`, the `d` outermost frames do not change. */
  lemma {:induction false} FramesStay(ss: seq<State>, steps: seq<Step>, i: nat, j: nat, d: nat)
    requires Trace(ss, steps) && i <= j < |ss|
    requires forall k :: i <= k <= j ==> d <= |ss[k].frames|
    ensures ss[j].frames[..d] == ss[i].frames[..d] && |ss[j].mem| == |ss[i].mem|
    decreases j - i
  {
    hide RestoreAll, Veil, Pushed, Decryptable, Accepted, Moves;
    if i < j {
      FramesStay(ss, steps, i, j - 1, d);
      StepCases(ss[j - 1], steps[j - 1], ss[j]);
    }
  }

  /** Step `j` is the decrypt call that pops the frame pushed by step `i`. */
  ghost predicate Matches(ss: seq<State>, steps: seq<Step>, i: nat, j: nat) {
    && Trace(ss, steps) && i < j < |steps|
    && |ss[i + 1].frames| == |ss[i].frames| + 1 && !steps[i].Write?
    && (forall k :: i < k <= j ==> |ss[i].frames| < |ss[k].frames|)
    && |ss[j + 1].frames| == |ss[i].frames|
  }

  /** Between a matching pair the frame pushed by the encrypt call stays in place, and
      it is the one the decrypt call pops. */
  lemma FrameBetween(ss: seq<State>, steps: seq<Step>, i: nat, j: nat, k: nat)
    requires Matches(ss, steps, i, j) && i < k <= j
    ensures Accepted(ss[i], steps[i]) && |ss[k].mem| == |ss[i].mem|
    ensures |ss[j].frames| == |ss[i].frames| + 1
    ensures ss[k].frames[..|ss[i].frames| + 1] == ss[i].frames + [Pushed(ss[i], steps[i])]
  {
    hide RestoreAll, Veil, Pushed;
    StepCases(ss[i], steps[i], ss[i + 1]);
    StepCases(ss[j], steps[j], ss[j + 1]);
    var d := |ss[i].frames| + 1;
    FramesStay(ss, steps, i + 1, k, d);
    assert ss[i + 1].frames[..d] == ss[i + 1].frames;
  }

  /** Whole-run round trip.  In every run, whatever happens between an encrypt call
      and the decrypt call that pops its frame, the decrypt call sets each byte hidden
      by the frame back to its value just before the encrypt call, and leaves every
      other byte as it finds it. */
  lemma RoundTrip(ss: seq<State>, steps: seq<Step>, i: nat, j: nat)
    requires Matches(ss, steps, i, j)
    ensures Accepted(ss[i], steps[i])
    ensures ss[j + 1].frames == ss[i].frames && |ss[j + 1].mem| == |ss[j].mem| == |ss[i].mem|
    ensures forall a :: 0 <= a < |ss[i].mem| ==>
      ss[j + 1].mem[a] == if Hides(Pushed(ss[i], steps[i]), a) then ss[i].mem[a] else ss[j].mem[a]
  {
    hide RestoreAll, HoleLists, SegsOf, FilingOf, Hidden, Apart, SavedFrom, Restorable, Veil, Moves;
    hide WithinBounds, Swept, Covered;
    FrameBetween(ss, steps, i, j, j);
    StepCases(ss[j], steps[j], ss[j + 1]);
    var s, st, t := ss[i], steps[i], ss[j];
    var f, d := Pushed(s, st), |s.frames|;
    assert t.frames[..d + 1] == t.frames;
    assert t.frames[d] == f && t.frames[..d] == s.frames;
    SegsOfShape(s.mem, st.rsp, st.rbp, st.ps);
    forall a: nat | a < |s.mem|
      ensures ss[j + 1].mem[a] == if Hides(f, a) then s.mem[a] else t.mem[a]
    {
      RestoreAt(s.mem, t.mem, f.segs, f.holes, a);
    }
  }

  /** The bytes a frame hides, in terms of the caller's memory and parameters: the
      frame minus what the scan steps over, which is the by-value parameters if they are
      well placed, minus the pointer chains and targets of the entries before the first
      one whose pointer word is not saved. */
  lemma HiddenBytes(s: State, st: Step, a: int)
    requires Accepted(s, st) && Callable(s, st.rsp, st.rbp, st.ps) && |s.frames| < MAX_DEPTH
    requires !Faulty(s.mem, st.rsp, st.rbp, st.ps)
    ensures var r := Next(s, st); r.Return? && r.code == 0 && r.s.frames == s.frames + [Pushed(s, st)]
    ensures var segs := Pushed(s, st).segs;
      Hides(Pushed(s, st), a) <==>
        && st.rsp <= a < st.rbp && !Swept(st.ps, st.rsp, st.rbp, a)
        && !OnSomeChain(s.mem, segs, st.ps, 0, FirstMissing(segs, st.ps, 0), a)
    ensures Placed(st.ps, st.rsp, st.rbp) && st.rsp <= a < st.rbp ==>
      (Swept(st.ps, st.rsp, st.rbp, a) <==> ByValue(st.ps, a))
  {
    var segs := Pushed(s, st).segs;
    FileExposesChains(s.mem, segs, |segs| > SLOT_CAP, st.ps, 0);
    hide SegsOf, Swept, OnSomeChain, Exposed, SomeLeaves, FirstMissing, Veil;
    SegsOfShape(s.mem, st.rsp, st.rbp, st.ps);
    if Placed(st.ps, st.rsp, st.rbp) && st.rsp <= a < st.rbp {
      SweptIsByValue(st.ps, st.rsp, st.rsp, st.rbp, a);
    }
  }

  /** What the callee sees right after an accepted encrypt call: '0' in the hidden
      bytes, the original value everywhere else. */
  lemma EncryptHides(s: State, st: Step, t: State, a: nat)
    requires Moves(s, st, t) && |t.frames| > |s.frames| && a < |s.mem|
    ensures Accepted(s, st) && |t.mem| == |s.mem|
    ensures t.mem[a] as int == if Hides(Pushed(s, st), a) then '0' as int else s.mem[a] as int
  {
    StepCases(s, st, t);
  }

  /** The pointer words and targets that an accepted encrypt call exposes, in the order
      in which it exposes them. */
  ghost function ExposedRanges(s: State, st: Step): (r: seq<Range>)
    requires Accepted(s, st)
  {
    var segs := Pushed(s, st).segs;
    ListRanges(s.mem, segs, st.ps, 0, FirstMissing(segs, st.ps, 0))
  }

  /** The pushed frame can be put back if and only if there are at most 32 copies, all
      exposed words and targets lie in the first one, and of any two the one that comes
      first (on a tie, the one exposed first) ends before the other begins. */
  lemma DecryptableIff(s: State, st: Step)
    requires Accepted(s, st) && Callable(s, st.rsp, st.rbp, st.ps) && st.rbp - st.rsp < 0x8000_0000
    requires !Faulty(s.mem, st.rsp, st.rbp, st.ps)
    ensures var f := Pushed(s, st);
      Decryptable(f) <==> |f.segs| <= 32 && Recoverable(f.segs, ExposedRanges(s, st))
  {
    hide SegsOf, SomeLeaves, FirstMissing, File, ListRanges, Locate, Recoverable, Restorable, AllSeparate, HoleLists;
    var f := Pushed(s, st);
    FileRanges(s.mem, f.segs, |f.segs| > SLOT_CAP, st.ps, 0);
    LocatedSeparate(f.segs, f.holes, ExposedRanges(s, st));
    SegsOfShape(s.mem, st.rsp, st.rbp, st.ps);
    RestorableIff(f, st.rbp - st.rsp);
  }

  /** Whether a frame can be decrypted is settled, by memory and parameters, when it is
      encrypted. */
  lemma DecryptSucceedsIff(ss: seq<State>, steps: seq<Step>, i: nat, j: nat, name: Name)
    requires Trace(ss, steps) && i < j < |ss| && !steps[i].Write?
    requires |ss[i + 1].frames| == |ss[i].frames| + 1 == |ss[j].frames|
    requires forall k :: i < k <= j ==> |ss[i].frames| < |ss[k].frames|
    requires Accepted(ss[i], steps[i]) ==> steps[i].rbp - steps[i].rsp < 0x8000_0000
    ensures Accepted(ss[i], steps[i])
    ensures var f := Pushed(ss[i], steps[i]);
      DecryptSpec(ss[j], name).Return? <==>
        ss[j].ready && name.Known? && |f.segs| <= 32 && Recoverable(f.segs, ExposedRanges(ss[i], steps[i]))
  {
    hide Decryptable, Recoverable, ExposedRanges, Pushed, Veil, RestoreAll, HoleLists, Faulty;
    StepCases(ss[i], steps[i], ss[i + 1]);
    var s, st, d := ss[i], steps[i], |ss[i].frames|;
    var f := Pushed(s, st);
    FramesStay(ss, steps, i + 1, j, d + 1);
    assert ss[j].frames[..d + 1] == ss[j].frames && ss[i + 1].frames[..d + 1] == ss[i + 1].frames;
    assert ss[j].frames[d] == f;
    EncryptFaultsIff(s, st.name, st.rsp, st.rbp, st.ps);
    DecryptableIff(s, st);
  }

  lemma RestorableIff(f: Frame, n: nat)
    requires n < 0x8000_0000 && forall s :: s in f.segs ==> |s.bytes| <= n
    ensures Restorable(f.segs, HoleLists(|f.segs|, f.holes)) <==>
      (f.segs != [] ==> Inside(f.holes, 0, |f.segs[0].bytes|) && AllSeparate(f.holes))
  {
    var lists := HoleLists(|f.segs|, f.holes);
    if f.segs != [] {
      assert f.segs[0] in f.segs;
      SteppableIff(f.segs[0], 0, f.holes);
    }
    forall k | 1 <= k < |f.segs| ensures Steppable(f.segs[k], k, lists[k]) {
      assert lists[k] == [];
    }
  }

  lemma {:induction false} SeparateParts(g: seq<Hole>, h: seq<Hole>)
    requires AllSeparate(g + h)
    ensures AllSeparate(h) && forall x, y :: x in g && y in h ==> Separate(x, y)
  {
    if g == [] {
      assert g + h == h;
    } else {
      assert (g + h)[1..] == g[1..] + h;
      SeparateParts(g[1..], h);
      assert forall x :: x in g <==> x == g[0] || x in g[1..];
      assert forall y :: y in h ==> y in g[1..] + h;
    }
  }

  lemma FirstHole(m: seq<byte>, segs: seq<Segment>, p: Para)
    requires SavedFrom(m, segs) && p.pointer != 0 && IsInt(p.pointer)
    ensures var r, t := Find(segs, p.addr, WORD), Follow(m, segs, p.addr, Levels(p.pointer), p.size);
      !t.crash ==> r.Found? && Hole(r.seg, r.off, WORD) in t.holes
  {
    var r, t := Find(segs, p.addr, WORD), Follow(m, segs, p.addr, Levels(p.pointer), p.size);
    if !t.crash {
      assert t.holes[0] == Hole(r.seg, r.off, WORD);
    }
  }

  /** The pointer word of every pointer parameter before the first missing one is filed
      as a hole. */
  lemma {:induction false} PointerWordFiled(m: seq<byte>, segs: seq<Segment>, moved: bool, ps: seq<Para>,
                                            i: nat, j: nat)
    requires SavedFrom(m, segs) && i <= j < |ps| && ps[j].pointer != 0 && IsInt(ps[j].pointer)
    requires !File(m, segs, moved, ps, i).end.Crash? && j < FirstMissing(segs, ps, i)
    ensures var r := Find(segs, ps[j].addr, WORD);
      r.Found? && Hole(r.seg, r.off, WORD) in File(m, segs, moved, ps, i).holes
    decreases |ps| - i
  {
    hide Find, Findable, Follow, Levels, SavedFrom;
    FindIff(segs, ps[i].addr, WORD);
    if i < j {
      PointerWordFiled(m, segs, moved, ps, i + 1, j);
    } else {
      FirstHole(m, segs, ps[j]);
    }
  }

  /** Naming one pointer variable twice files its word twice, and the two holes overlap. */
  lemma {:induction false} SharedWordOverlaps(m: seq<byte>, segs: seq<Segment>, moved: bool, ps: seq<Para>,
                                              i: nat, j: nat, k: nat)
    requires SavedFrom(m, segs) && i <= j < k < |ps| && ps[j].addr == ps[k].addr
    requires ps[j].pointer != 0 && ps[k].pointer != 0 && IsInt(ps[j].pointer) && IsInt(ps[k].pointer)
    requires !File(m, segs, moved, ps, i).end.Crash? && k < FirstMissing(segs, ps, i)
    ensures !AllSeparate(File(m, segs, moved, ps, i).holes)
    decreases j - i
  {
    hide Find, Findable, Follow, Levels, AllSeparate, SavedFrom;
    var holes := File(m, segs, moved, ps, i).holes;
    FindIff(segs, ps[i].addr, WORD);
    if AllSeparate(holes) {
      if ps[i].pointer == 0 {
        SharedWordOverlaps(m, segs, moved, ps, i + 1, j, k);
      } else {
        var t, rest := Follow(m, segs, ps[i].addr, Levels(ps[i].pointer), ps[i].size), File(m, segs, moved, ps, i + 1);
        SeparateParts(t.holes, rest.holes);
        if i < j {
          SharedWordOverlaps(m, segs, moved, ps, i + 1, j, k);
        } else {
          FirstHole(m, segs, ps[j]);
          PointerWordFiled(m, segs, moved, ps, i + 1, k);
        }
      }
    }
  }

  /** A frame whose parameter list names one pointer variable twice, both times before
      the first missing one, is hidden but can never be put back. */
  lemma SamePointerTwice(s: State, st: Step, j: nat, k: nat)
    requires Accepted(s, st) && Callable(s, st.rsp, st.rbp, st.ps) && st.rbp - st.rsp < 0x8000_0000
    requires !Faulty(s.mem, st.rsp, st.rbp, st.ps)
    requires j < k < FirstMissing(Pushed(s, st).segs, st.ps, 0)
    requires st.ps[j].pointer != 0 && st.ps[k].pointer != 0 && st.ps[j].addr == st.ps[k].addr
    ensures !Decryptable(Pushed(s, st))
  {
    var f := Pushed(s, st);
    SegsOfShape(s.mem, st.rsp, st.rbp, st.ps);
    RestorableIff(f, st.rbp - st.rsp);
    assert st.ps[j] in st.ps && st.ps[k] in st.ps;
    FileEnds(s.mem, f.segs, |f.segs| > SLOT_CAP, st.ps, 0);
    PointerWordFiled(s.mem, f.segs, |f.segs| > SLOT_CAP, st.ps, 0, k);
    SharedWordOverlaps(s.mem, f.segs, |f.segs| > SLOT_CAP, st.ps, 0, j, k);
  }

  /** The same holds when a pointer variable before the first missing one lies beyond
      the end of the first saved copy. */
  lemma PointerBeyondFirstCopy(s: State, st: Step, k: nat)
    requires Accepted(s, st) && Callable(s, st.rsp, st.rbp, st.ps) && st.rbp - st.rsp < 0x8000_0000
    requires !Faulty(s.mem, st.rsp, st.rbp, st.ps)
    requires k < FirstMissing(Pushed(s, st).segs, st.ps, 0) && st.ps[k].pointer != 0
    requires var segs := Pushed(s, st).segs; segs != [] ==> segs[0].start + |segs[0].bytes| <= st.ps[k].addr
    ensures !Decryptable(Pushed(s, st))
  {
    var f := Pushed(s, st);
    SegsOfShape(s.mem, st.rsp, st.rbp, st.ps);
    RestorableIff(f, st.rbp - st.rsp);
    assert st.ps[k] in st.ps;
    FileEnds(s.mem, f.segs, |f.segs| > SLOT_CAP, st.ps, 0);
    PointerWordFiled(s.mem, f.segs, |f.segs| > SLOT_CAP, st.ps, 0, k);
  }

  lemma {:induction false} NothingKept(ps: seq<Para>, a: int)
    requires forall i :: 0 <= i < |ps| ==> ps[i].pointer != 0
    ensures KeepAt(ps, a) == 0
  {
    if ps != [] {
      NothingKept(ps[1..], a);
    }
  }

  lemma WholeFrameSaved(ps: seq<Para>, rsp: nat, rbp: nat)
    requires rsp <= rbp && forall k :: 0 <= k < |ps| ==> ps[k].pointer != 0
    ensures Scan(ps, rsp, rsp, rbp) == Run(rsp, rbp)
  {
    forall a: nat | rsp <= a <= rbp ensures KeepAt(ps, a) == 0 {
      NothingKept(ps, a);
    }
    NoneListed(ps, rsp, rsp, rbp);
  }

  const SAMPLE: seq<byte> := [8, 0, 0, 0, 0, 0, 0, 0, 1, 2, 3, 4, 5, 6, 7, 8]
  const ALIASED: seq<Para> := [Para(0, 8, 1), Para(0, 8, 1)]

  lemma SampleWord()
    ensures WordAt(SAMPLE, 0) == 8
  {
    assert SAMPLE[0..8] == [8, 0, 0, 0, 0, 0, 0, 0];
    assert Decode([0, 0]) == 0 && Decode([0, 0, 0, 0]) == 0 && Decode([0, 0, 0, 0, 0, 0, 0]) == 0;
  }

  lemma SampleChain()
    ensures Follow(SAMPLE, [Segment(0, SAMPLE)], 0, 1, 8) == Trail([Hole(0, 0, 8), Hole(0, 8, 8)], false)
  {
    var segs := [Segment(0, SAMPLE)];
    SampleWord();
    hide WordAt;
    assert Find(segs, 0, 8) == Found(0, 0) && Find(segs, 8, 8) == Found(0, 8);
    assert Follow(SAMPLE, segs, 8, 0, 8) == Trail([Hole(0, 8, 8)], false);
  }

  const SAVED: seq<Segment> := [Segment(0, SAMPLE)]
  const TRAIL: seq<Hole> := [Hole(0, 0, 8), Hole(0, 8, 8)]

  lemma SampleSegs(ps: seq<Para>)
    requires forall k :: 0 <= k < |ps| ==> ps[k].pointer != 0
    ensures SegsOf(SAMPLE, 0, 16, ps) == SAVED && SavedFrom(SAMPLE, SAVED)
  {
    WholeFrameSaved(ps, 0, 16);
    hide Scan;
    assert Run(0, 16)[1..] == [] && SAMPLE[0..16] == SAMPLE;
    assert Saved(SAMPLE, Run(0, 16)) == SAVED;
  }

  lemma SampleStep(ps: seq<Para>, i: nat)
    requires i < |ps| && ps[i] == Para(0, 8, 1) && SavedFrom(SAMPLE, SAVED)
    ensures var rest := File(SAMPLE, SAVED, false, ps, i + 1);
      File(SAMPLE, SAVED, false, ps, i) == Filing(TRAIL + rest.holes, rest.end)
  {
    SampleChain();
    hide Follow, WordAt;
    assert Find(SAVED, 0, 8).Found? && Levels(1) == 1;
  }

  lemma SampleFiling()
    ensures FilingOf(SAMPLE, 0, 16, [Para(0, 8, 1)]) == Filing(TRAIL, Complete)
    ensures FilingOf(SAMPLE, 0, 16, ALIASED).end == Complete
  {
    var once := [Para(0, 8, 1)];
    SampleSegs(once);
    SampleSegs(ALIASED);
    hide Follow, SegsOf;
    SampleStep(once, 0);
    assert File(SAMPLE, SAVED, false, once, 1) == Filing([], Complete);
    SampleStep(ALIASED, 0);
    SampleStep(ALIASED, 1);
    assert File(SAMPLE, SAVED, false, ALIASED, 2) == Filing([], Complete);
    assert TRAIL + [] == TRAIL;
  }

  lemma SampleRestorable(name: string)
    ensures Restorable(SAVED, HoleLists(1, TRAIL))
  {
    assert TRAIL[1..] == [Hole(0, 8, 8)] && TRAIL[1..][1..] == [];
    assert AllSeparate(TRAIL);
    RestorableIff(Frame(0, 16, name, SAVED, TRAIL), 16);
  }

  /** A sixteen-byte frame whose first word points at its second, passed as a pointer
      parameter: it is hidden and put back. */
  lemma SampleSucceeds(name: Name)
    requires name.Known?
    ensures var r := EncryptSpec(State(SAMPLE, [], true), name, 0, 16, [Para(0, 8, 1)]);
      r.Return? && |r.s.frames| == 1 && DecryptSpec(r.s, name).Return?
  {
    hide SegsOf, FilingOf, Restorable, HoleLists, Veil, RestoreAll;
    SampleSegs([Para(0, 8, 1)]);
    SampleFiling();
    SampleRestorable(name.text);
  }

  /** If the whole list was filed, no parameter is missing and none leaves the copies. */
  lemma WhenComplete(m: seq<byte>, rsp: nat, rbp: nat, ps: seq<Para>)
    requires rsp <= rbp <= |m| < TWO64 && FilingOf(m, rsp, rbp, ps).end.Complete?
    ensures !Faulty(m, rsp, rbp, ps) && FirstMissing(SegsOf(m, rsp, rbp, ps), ps, 0) == |ps|
  {
    hide SegsOf, SomeLeaves, File, FirstMissing;
    var segs := SegsOf(m, rsp, rbp, ps);
    FileEnds(m, segs, |segs| > SLOT_CAP, ps, 0);
  }

  /** The same frame with the pointer parameter named twice: the encrypt call succeeds,
      and the decrypt call faults. */
  lemma AliasedExample(name: Name)
    requires name.Known?
    ensures var r := EncryptSpec(State(SAMPLE, [], true), name, 0, 16, ALIASED);
      r.Return? && |r.s.frames| == 1 && DecryptSpec(r.s, name) == Oops
  {
    hide SegsOf, FilingOf;
    SampleFiling();
    WhenComplete(SAMPLE, 0, 16, ALIASED);
    SamePointerTwice(State(SAMPLE, [], true), Encrypt(name, 0, 16, ALIASED), 0, 1);
  }

  const STRAY: seq<Para> := [Para(16, 8, 1), Para(0, 8, 1)]

  lemma StrayFiling()
    ensures FilingOf(SAMPLE, 0, 16, STRAY) == Filing([], Missing(0))
  {
    SampleSegs(STRAY);
    hide SegsOf, Follow;
    assert Find(SAVED, 16, 8) == NotFound;
  }

  lemma StrayHidden(a: nat)
    requires a < 16
    ensures Hidden(SAVED, [], a)
  {
    assert Spans(SAVED[0], a) && SAVED[0] in SAVED;
  }

  /** The same frame with a list whose first pointer variable lies outside it: the call
      succeeds, but the chain of the second entry stays hidden, like everything else. */
  lemma MissingExample(name: Name, a: nat)
    requires name.Known? && a < 16
    ensures var r := EncryptSpec(State(SAMPLE, [], true), name, 0, 16, STRAY);
      r.Return? && r.code == 0 && |r.s.frames| == 1 && Hides(r.s.frames[0], a) && r.s.mem[a] == BLANK
  {
    hide SegsOf, FilingOf, Veil, Hidden;
    SampleSegs(STRAY);
    StrayFiling();
    StrayHidden(a);
    var s, st := State(SAMPLE, [], true), Encrypt(name, 0, 16, STRAY);
    assert Accepted(s, st) && Enabled(s, st);
    EncryptHides(s, st, Next(s, st).s, a);
  }

  lemma DecodeTwo(b: seq<byte>)
    requires |b| >= 2
    ensures Decode(b) >= b[0] as nat + 256 * b[1] as nat
  {
    assert b[1..][0] == b[1];
    assert Decode(b[1..]) >= b[1] as nat;
  }

  lemma SampleFarWord()
    ensures WordAt(SAMPLE, 8) > 16
  {
    var b := SAMPLE[8..16];
    assert b[1] == SAMPLE[9] == 2;
    DecodeTwo(b);
  }

  lemma SampleLeaves()
    ensures Leaves(SAMPLE, SAVED, 8, 2, 8)
    ensures Leaves(SAMPLE, SAVED, 0, 1, TWO64 - 8)
  {
    hide WordAt;
    SampleWord();
    SampleFarWord();
    assert Leaves(SAMPLE, SAVED, WordAt(SAMPLE, 8), 1, 8);
    assert Passes(SAVED[0], 8, TWO64 - 8) && SAVED[0] in SAVED;
    assert Leaves(SAMPLE, SAVED, 8, 0, TWO64 - 8);
  }

  lemma SampleFaulty(p: Para)
    requires p.pointer != 0 && p.addr <= 8 && Leaves(SAMPLE, SAVED, p.addr, Levels(p.pointer), p.size)
    ensures Faulty(SAMPLE, 0, 16, [p])
  {
    SampleSegs([p]);
    hide SegsOf, Leaves, Levels;
    assert Passes(SAVED[0], p.addr, WORD) && SAVED[0] in SAVED;
    assert [p][0] == p && FirstMissing(SAVED, [p], 0) == 1;
  }

  /** Encrypt calls that fault on the same frame: a pointer to a pointer whose second
      word is in no saved copy, and a target whose size makes its end wrap around. */
  lemma FaultExample(name: Name)
    requires name.Known?
    ensures EncryptSpec(State(SAMPLE, [], true), name, 0, 16, [Para(8, 8, 2)]) == Oops
    ensures EncryptSpec(State(SAMPLE, [], true), name, 0, 16, [Para(0, TWO64 - 8, 1)]) == Oops
  {
    hide SegsOf, FilingOf, Leaves, Faulty, Veil;
    SampleLeaves();
    SampleFaulty(Para(8, 8, 2));
    SampleFaulty(Para(0, TWO64 - 8, 1));
    EncryptFaultsIff(State(SAMPLE, [], true), name, 0, 16, [Para(8, 8, 2)]);
    EncryptFaultsIff(State(SAMPLE, [], true), name, 0, 16, [Para(0, TWO64 - 8, 1)]);
  }

  /** A list that an earlier call used up completely, passed again: no chain is exposed,
      the call cannot fault in `restore_pointers`, and everything is hidden but what the
      scan steps over.  `SpentKeeps` says what the scan now finds. */
  lemma ReusedList(s: State, st: Step, ps: seq<Para>, a: int)
    requires Accepted(s, st) && Callable(s, st.rsp, st.rbp, st.ps) && |s.frames| < MAX_DEPTH
    requires st.ps == UsedUp(ps, Complete)
    ensures Next(s, st).Return? && Pushed(s, st).holes == []
    ensures Hides(Pushed(s, st), a) <==> st.rsp <= a < st.rbp && !Swept(st.ps, st.rsp, st.rbp, a)
  {
    var segs := Pushed(s, st).segs;
    hide SegsOf, Swept, Exposed, Veil, UsedUp, File, NoWrap, IsInt;
    SpentFilesNothing(s.mem, segs, |segs| > SLOT_CAP, ps, 0);
    SegsOfShape(s.mem, st.rsp, st.rbp, st.ps);
    ExposedNone(segs);
  }

  // -------------------------------------------------------------- transparency

  /** The last value written to `a` by steps `i` to `j`, or `v` if there is none. */
  ghost function LastWrite(steps: seq<Step>, i: nat, j: nat, a: nat, v: byte): (r: byte)
    requires j <= |steps|
    decreases j
  {
    if j <= i then v
    else if steps[j - 1].Write? && steps[j - 1].addr == a then steps[j - 1].value
    else LastWrite(steps, i, j - 1, a, v)
  }

  lemma {:induction false} LastWriteJoin(steps: seq<Step>, i: nat, k: nat, j: nat, a: nat, v: byte)
    requires i <= k <= j <= |steps|
    ensures LastWrite(steps, i, j, a, v) == LastWrite(steps, k, j, a, LastWrite(steps, i, k, a, v))
    decreases j
  {
    if k < j {
      LastWriteJoin(steps, i, k, j - 1, a, v);
    }
  }

  lemma {:induction false} NoWrite(steps: seq<Step>, i: nat, j: nat, a: nat, v: byte)
    requires i <= j <= |steps|
    requires forall k :: i <= k < j ==> !(steps[k].Write? && steps[k].addr == a)
    ensures LastWrite(steps, i, j, a, v) == v
    decreases j
  {
    if i < j {
      NoWrite(steps, i, j - 1, a, v);
    }
  }

  /** Which write that is, by index. */
  lemma {:induction false} LastWriteByIndex(steps: seq<Step>, i: nat, k: nat, j: nat, a: nat, v: byte)
    requires i <= k < j <= |steps| && steps[k].Write? && steps[k].addr == a
    requires forall l :: k < l < j ==> !(steps[l].Write? && steps[l].addr == a)
    ensures LastWrite(steps, i, j, a, v) == steps[k].value
    decreases j
  {
    if k < j - 1 {
      LastWriteByIndex(steps, i, k, j - 1, a, v);
    }
  }

  /** Steps `i` to `j` start and end at depth `d` and never go below it. */
  ghost predicate Balanced(ss: seq<State>, steps: seq<Step>, i: nat, j: nat, d: nat) {
    && Trace(ss, steps) && i <= j < |ss|
    && |ss[i].frames| == d == |ss[j].frames|
    && forall k :: i <= k <= j ==> d <= |ss[k].frames|
  }

  /** The process writes `a` only while no frame pushed above depth `d` hides it. */
  ghost predicate Respects(ss: seq<State>, steps: seq<Step>, i: nat, j: nat, d: nat, a: nat)
    requires |ss| == |steps| + 1 && j < |ss|
  {
    forall k, l :: i <= k < j && steps[k].Write? && steps[k].addr == a && d <= l < |ss[k].frames| ==>
      !Hides(ss[k].frames[l], a)
  }

  /** The first state after `i` that is back at depth `d`. */
  lemma {:induction false} FirstReturn(ss: seq<State>, i: nat, j: nat, d: nat) returns (r: nat)
    requires i < j < |ss| && |ss[j].frames| == d < |ss[i + 1].frames|
    requires forall k :: i <= k <= j ==> d <= |ss[k].frames|
    ensures i + 1 < r <= j && |ss[r].frames| == d && forall k :: i < k < r ==> d < |ss[k].frames|
  {
    r := i + 2;
    while |ss[r].frames| != d
      invariant i + 1 < r <= j && forall k :: i < k < r ==> d < |ss[k].frames|
      decreases j - r
    {
      r := r + 1;
    }
  }

  lemma PairHidden(ss: seq<State>, steps: seq<Step>, i: nat, j: nat, a: nat)
    requires Matches(ss, steps, i, j) && a < |ss[i].mem|
    requires Respects(ss, steps, i, j, |ss[i].frames|, a)
    requires Accepted(ss[i], steps[i]) && Hides(Pushed(ss[i], steps[i]), a)
    ensures |ss[j + 1].mem| == |ss[i].mem|
    ensures ss[j + 1].mem[a] == ss[i].mem[a] == LastWrite(steps, i, j + 1, a, ss[i].mem[a])
  {
    hide Hides, Pushed, LastWrite, Moves, Respects, Accepted;
    assert |ss[j + 1].mem| == |ss[i].mem| && ss[j + 1].mem[a] == ss[i].mem[a] by { RoundTrip(ss, steps, i, j); }
    forall k | i <= k <= j ensures !(steps[k].Write? && steps[k].addr == a) {
      NotWritten(ss, steps, i, j, k, a);
    }
    NoWrite(steps, i, j + 1, a, ss[i].mem[a]);
  }

  /** A process that respects hidden bytes does not write one between matching calls. */
  lemma NotWritten(ss: seq<State>, steps: seq<Step>, i: nat, j: nat, k: nat, a: nat)
    requires Matches(ss, steps, i, j) && i <= k <= j
    requires Respects(ss, steps, i, j, |ss[i].frames|, a)
    requires Accepted(ss[i], steps[i]) && Hides(Pushed(ss[i], steps[i]), a)
    ensures !(steps[k].Write? && steps[k].addr == a)
  {
    hide Hides, Pushed, Moves, Veil, RestoreAll;
    var d := |ss[i].frames|;
    if i < k < j {
      FrameBetween(ss, steps, i, j, k);
      assert ss[k].frames[d] == ss[k].frames[..d + 1][d] == Pushed(ss[i], steps[i]);
    } else if k == j {
      StepCases(ss[j], steps[j], ss[j + 1]);
    }
  }

  lemma PairUnhidden(ss: seq<State>, steps: seq<Step>, i: nat, j: nat, a: nat)
    requires Matches(ss, steps, i, j) && a < |ss[i].mem|
    requires Accepted(ss[i], steps[i]) && !Hides(Pushed(ss[i], steps[i]), a)
    requires |ss[j].mem| == |ss[i + 1].mem| == |ss[i].mem|
    requires ss[j].mem[a] == LastWrite(steps, i + 1, j, a, ss[i + 1].mem[a])
    ensures |ss[j + 1].mem| == |ss[i].mem|
    ensures ss[j + 1].mem[a] == LastWrite(steps, i, j + 1, a, ss[i].mem[a])
  {
    hide Hides, Pushed, LastWrite;
    assert ss[i + 1].mem[a] == ss[i].mem[a] by { EncryptHides(ss[i], steps[i], ss[i + 1], a); }
    assert |ss[j + 1].mem| == |ss[i].mem| && ss[j + 1].mem[a] == ss[j].mem[a] by { RoundTrip(ss, steps, i, j); }
    assert steps[j].Decrypt? by { StepCases(ss[j], steps[j], ss[j + 1]); }
    LastWriteEnds(steps, i, j, a, ss[i].mem[a]);
  }

  lemma LastWriteEnds(steps: seq<Step>, i: nat, j: nat, a: nat, v: byte)
    requires i < j < |steps| && !steps[i].Write? && !steps[j].Write?
    ensures LastWrite(steps, i, j + 1, a, v) == LastWrite(steps, i + 1, j, a, v)
  {
    LastWriteJoin(steps, i, i + 1, j, a, v);
    OneWrite(steps, i, a, v);
  }

  /** Transparency: a balanced run leaves each byte with the last value the process
      itself wrote there, as if no vault call had been made, provided the process does
      not write the byte while it is hidden.  Frames may overlap. */
  lemma {:induction false} Transparent(ss: seq<State>, steps: seq<Step>, i: nat, j: nat, d: nat, a: nat)
    requires Balanced(ss, steps, i, j, d) && a < |ss[i].mem| && Respects(ss, steps, i, j, d, a)
    ensures |ss[j].mem| == |ss[i].mem| && ss[j].mem[a] == LastWrite(steps, i, j, a, ss[i].mem[a])
    decreases j - i
  {
    hide RestoreAll, Veil, Pushed, Decryptable, Hides, LastWrite, Moves, Accepted;
    if i < j {
      StepCases(ss[i], steps[i], ss[i + 1]);
      LastWriteJoin(steps, i, i + 1, j, a, ss[i].mem[a]);
      if |ss[i + 1].frames| == d {
        Transparent(ss, steps, i + 1, j, d, a);
        OneWrite(steps, i, a, ss[i].mem[a]);
      } else {
        var r := FirstReturn(ss, i, j, d);
        StepCases(ss[r - 1], steps[r - 1], ss[r]);
        assert Matches(ss, steps, i, r - 1);
        if Hides(Pushed(ss[i], steps[i]), a) {
          PairHidden(ss, steps, i, r - 1, a);
        } else {
          Transparent(ss, steps, i + 1, r - 1, d + 1, a);
          PairUnhidden(ss, steps, i, r - 1, a);
        }
        Transparent(ss, steps, r, j, d, a);
        LastWriteJoin(steps, i, r, j, a, ss[i].mem[a]);
      }
    } else {
      NoWrite(steps, i, j, a, ss[i].mem[a]);
    }
  }

  lemma OneWrite(steps: seq<Step>, i: nat, a: nat, v: byte)
    requires i < |steps|
    ensures LastWrite(steps, i, i + 1, a, v) == if steps[i].Write? && steps[i].addr == a then steps[i].value else v
  {
    assert LastWrite(steps, i, i, a, v) == v;
  }

  /** A complete run, from no hidden frame to no hidden frame, ends in the memory that
      the process's own writes produce. */
  lemma WholeRun(ss: seq<State>, steps: seq<Step>)
    requires Trace(ss, steps) && ss[0].frames == [] && ss[|steps|].frames == []
    requires forall a: nat :: a < |ss[0].mem| ==> Respects(ss, steps, 0, |steps|, 0, a)
    ensures |ss[|steps|].mem| == |ss[0].mem|
    ensures forall a: nat :: a < |ss[0].mem| ==>
      ss[|steps|].mem[a] == LastWrite(steps, 0, |steps|, a, ss[0].mem[a])
  {
    FramesStay(ss, steps, 0, |steps|, 0);
    forall a: nat | a < |ss[0].mem| ensures ss[|steps|].mem[a] == LastWrite(steps, 0, |steps|, a, ss[0].mem[a]) {
      Transparent(ss, steps, 0, |steps|, 0, a);
    }
  }

  // ----------------------------------------------------------------- isolation

  /** Each frame lies strictly below the one pushed before it: the condition that the
      encrypt call checks but only logs. */
  ghost predicate Legal(s: State, st: Step) {
    Accepted(s, st) && s.frames != [] ==> st.rbp < s.frames[|s.frames| - 1].rsp
  }

  /** The process leaves hidden bytes alone. */
  ghost predicate Polite(s: State, st: Step) {
    st.Write? ==> forall f :: f in s.frames ==> !Hides(f, st.addr)
  }

  ghost predicate Descending(frames: seq<Frame>) {
    forall k, l :: 0 <= k < l < |frames| ==> frames[l].rbp < frames[k].rsp
  }

  /** Every frame keeps its copies inside its own bounds, and what it hides reads '0'. */
  ghost predicate Sealed(s: State) {
    && Descending(s.frames)
    && (forall f :: f in s.frames ==> f.rsp <= f.rbp) && Bounded(s)
    && (forall f, a :: f in s.frames && 0 <= a < |s.mem| && Hides(f, a) ==> s.mem[a] == BLANK)
  }

  lemma HiddenWithin(f: Frame, a: int)
    requires WithinBounds(f.segs, f.rsp, f.rbp) && Hides(f, a)
    ensures f.rsp <= a < f.rbp
  {
  }

  /** Every frame keeps its copies inside its own bounds. */
  ghost predicate Bounded(s: State) {
    forall f :: f in s.frames ==> WithinBounds(f.segs, f.rsp, f.rbp)
  }

  lemma BoundedStep(s: State, st: Step, t: State)
    requires Moves(s, st, t) && Bounded(s)
    ensures Bounded(t)
  {
    hide RestoreAll, Veil, SegsOf, FilingOf, Decryptable, WithinBounds, Moves, Apart, SavedFrom, Swept, Covered;
    StepCases(s, st, t);
    if |t.frames| > |s.frames| {
      SegsOfShape(s.mem, st.rsp, st.rbp, st.ps);
    }
  }

  lemma {:induction false} BoundedRun(ss: seq<State>, steps: seq<Step>, i: nat)
    requires Trace(ss, steps) && Bounded(ss[0]) && i < |ss|
    ensures Bounded(ss[i])
  {
    if i > 0 {
      BoundedRun(ss, steps, i - 1);
      BoundedStep(ss[i - 1], steps[i - 1], ss[i]);
    }
  }

  /** An encrypt or decrypt call writes only inside the bounds of its own frame. */
  lemma OwnFrameOnly(s: State, st: Step, t: State, a: nat)
    requires Moves(s, st, t) && !st.Write? && Bounded(s) && a < |s.mem|
    ensures |t.mem| == |s.mem|
    ensures |t.frames| > |s.frames| && !(st.rsp <= a < st.rbp) ==> t.mem[a] == s.mem[a]
    ensures |t.frames| < |s.frames| && !(var f := s.frames[|s.frames| - 1]; f.rsp <= a < f.rbp) ==> t.mem[a] == s.mem[a]
    ensures |t.frames| == |s.frames| ==> t.mem[a] == s.mem[a]
  {
    StepCases(s, st, t);
    if |t.frames| > |s.frames| {
      SegsOfShape(s.mem, st.rsp, st.rbp, st.ps);
      EncryptHides(s, st, t, a);
    } else if |t.frames| < |s.frames| {
      var f := s.frames[|s.frames| - 1];
      if !(f.rsp <= a < f.rbp) {
        RestoreOutside(s.mem, f.segs, HoleLists(|f.segs|, f.holes), f.rsp, f.rbp, a);
      }
    }
  }

  /** In every run from a state with no hidden frame, whatever the frames and whatever
      the process writes, each call writes only inside the bounds of its own frame. */
  lemma OwnFrameRun(ss: seq<State>, steps: seq<Step>, i: nat, a: nat)
    requires Trace(ss, steps) && ss[0].frames == [] && i < |steps| && !steps[i].Write? && a < |ss[i].mem|
    ensures |ss[i + 1].mem| == |ss[i].mem|
    ensures ss[i + 1].mem[a] != ss[i].mem[a] ==>
      if |ss[i + 1].frames| > |ss[i].frames| then steps[i].Encrypt? && steps[i].rsp <= a < steps[i].rbp
      else |ss[i + 1].frames| < |ss[i].frames| && var f := ss[i].frames[|ss[i].frames| - 1]; f.rsp <= a < f.rbp
  {
    hide RestoreAll, Veil, Pushed, Decryptable, WithinBounds, Accepted, Moves;
    BoundedRun(ss, steps, i);
    StepCases(ss[i], steps[i], ss[i + 1]);
    OwnFrameOnly(ss[i], steps[i], ss[i + 1], a);
  }

  lemma {:induction false} RestoreOutside(mem: seq<byte>, segs: seq<Segment>, lists: seq<seq<Hole>>,
                                          lo: int, hi: int, a: nat)
    requires |segs| <= |lists| && a < |mem| && WithinBounds(segs, lo, hi) && !(lo <= a < hi)
    ensures RestoreAll(mem, segs, lists)[a] == mem[a]
    decreases |segs|
  {
    if segs != [] {
      var n := |segs| - 1;
      assert segs[n] in segs;
      RestoreOutside(mem, segs[..n], lists, lo, hi, a);
    }
  }

  /** The bounds of the frames stay in order. */
  lemma OrderStep(s: State, st: Step, t: State)
    requires Moves(s, st, t) && Sealed(s) && Legal(s, st)
    ensures Descending(t.frames)
    ensures forall f :: f in t.frames ==> f.rsp <= f.rbp
  {
    hide RestoreAll, Veil, SegsOf, FilingOf, Decryptable, Hides, WithinBounds, Moves, Apart, SavedFrom, Swept, Covered;
    StepCases(s, st, t);
    if |t.frames| > |s.frames| {
      SegsOfShape(s.mem, st.rsp, st.rbp, st.ps);
      assert forall f :: f in t.frames <==> f in s.frames || f == Pushed(s, st);
      var n := |s.frames|;
      forall k | 0 <= k < n ensures t.frames[n].rbp < t.frames[k].rsp {
        assert s.frames[n - 1].rsp <= s.frames[n - 1].rbp by { assert s.frames[n - 1] in s.frames; }
      }
    } else if |t.frames| < |s.frames| {
      assert forall f :: f in t.frames ==> f in s.frames;
    }
  }

  /** What a frame hides still reads '0' after the step. */
  lemma BlankStep(s: State, st: Step, t: State, k: nat, a: nat)
    requires Moves(s, st, t) && Sealed(s) && Legal(s, st) && Polite(s, st)
    requires k < |t.frames| && a < |s.mem| && Hides(t.frames[k], a)
    ensures |t.mem| == |s.mem| && t.mem[a] == BLANK
  {
    StepCases(s, st, t);
    OrderStep(s, st, t);
    hide RestoreAll, Veil, SegsOf, FilingOf, Decryptable, Hides, WithinBounds, Legal;
    if k == |s.frames| {
      EncryptHides(s, st, t, a);
    } else {
      assert t.frames[k] == s.frames[k] && s.frames[k] in s.frames;
      if !st.Write? {
        HiddenWithin(s.frames[k], a);
        OwnFrameOnly(s, st, t, a);
        if |t.frames| > |s.frames| {
          assert t.frames[|s.frames|].rbp < t.frames[k].rsp;
        }
      }
    }
  }

  /** One legal step keeps every live frame sealed. */
  lemma SealedStep(s: State, st: Step, t: State)
    requires Moves(s, st, t) && Sealed(s) && Legal(s, st) && Polite(s, st)
    ensures Sealed(t)
  {
    OrderStep(s, st, t);
    BoundedStep(s, st, t);
    assert |t.mem| == |s.mem| by { StepCases(s, st, t); }
    hide Moves, Hides, WithinBounds, Legal, Polite;
    forall f, a: nat | f in t.frames && a < |t.mem| && Hides(f, a) ensures t.mem[a] == BLANK {
      var k :| 0 <= k < |t.frames| && t.frames[k] == f;
      BlankStep(s, st, t, k, a);
    }
  }

  /** Frame isolation over runs: as long as every encrypt call is legal and the process
      leaves hidden bytes alone, all bytes hidden by any live frame read '0' in every
      state, across every inner encrypt/decrypt pair, and hidden frames are disjoint. */
  lemma {:induction false} SealedRun(ss: seq<State>, steps: seq<Step>, i: nat)
    requires Trace(ss, steps) && Sealed(ss[0]) && i < |ss|
    requires forall k :: 0 <= k < i ==> Legal(ss[k], steps[k]) && Polite(ss[k], steps[k])
    ensures Sealed(ss[i])
    ensures forall f, g, a :: f in ss[i].frames && g in ss[i].frames && Hides(f, a) && Hides(g, a) ==> f == g
  {
    if i > 0 {
      SealedRun(ss, steps, i - 1);
      SealedStep(ss[i - 1], steps[i - 1], ss[i]);
    }
    forall f, g, a | f in ss[i].frames && g in ss[i].frames && Hides(f, a) && Hides(g, a) ensures f == g {
      HiddenWithin(f, a);
      HiddenWithin(g, a);
    }
  }
}

/** The code itself, driven through a run. */
module Driver {
  import opened Bytes
  import opened FrameScan
  import opened Pointers
  import opened VaultSpec
  import opened Vault
  import opened Runs

  /** A step whose addresses lie in a memory of `n` bytes. */
  ghost predicate Addressed(st: Step, n: nat) {
    match st
    case Encrypt(_, rsp, rbp, ps) => (rsp <= rbp ==> rbp <= n) && NoWrap(ps) && forall p :: p in ps ==> IsInt(p.pointer)
    case Decrypt(_) => true
    case Write(a, _) => a < n
  }

  /** One step of the process or one call into the module. */
  method Perform(v: Module, st: Step) returns (ok: bool)
    requires v.Valid() && Addressed(st, |v.mem.bytes|)
    modifies v, v.mem, v.callStack, v.sbufStack
    ensures ok ==> v.Valid() && Moves(old(v.Abs()), st, v.Abs())
    ensures !ok ==> Enabled(old(v.Abs()), st) && Next(old(v.Abs()), st).Oops?
    ensures v.callStack == old(v.callStack) && (v.sbufStack == old(v.sbufStack) || fresh(v.sbufStack))
  {
    hide EncryptSpec, DecryptSpec, NoWrap, IsInt, UsedUp;
    match st
    case Encrypt(name, rsp, rbp, ps) =>
      var plt := new ParaList(ps);
      var code;
      ok, code := v.EncryptStack(name, rsp, rbp, plt);
    case Decrypt(name) =>
      var code;
      ok, code := v.DecryptStack(name);
    case Write(a, b) =>
      v.mem.bytes := v.mem.bytes[a := b];
      ok := true;
  }

  /** Every run of the code is a trace of the specification, so that all theorems about
      traces hold of the code.  It stops early only where a call faults. */
  method Execute(v: Module, steps: seq<Step>) returns (n: nat, ghost ss: seq<State>)
    requires v.Valid() && forall i :: 0 <= i < |steps| ==> Addressed(steps[i], |v.mem.bytes|)
    modifies v, v.mem, v.callStack, v.sbufStack
    ensures n <= |steps| && Trace(ss, steps[..n]) && ss[0] == old(v.Abs())
    ensures n == |steps| ==> v.Valid() && ss[n] == v.Abs()
    ensures n < |steps| ==> Enabled(ss[n], steps[n]) && Next(ss[n], steps[n]).Oops?
  {
    hide Addressed, Moves, Enabled, Next;
    ss := [v.Abs()];
    for i := 0 to |steps|
      invariant v.Valid() && |v.mem.bytes| == |old(v.mem.bytes)|
      invariant v.callStack == old(v.callStack) && (v.sbufStack == old(v.sbufStack) || fresh(v.sbufStack))
      invariant Trace(ss, steps[..i]) && ss[0] == old(v.Abs()) && ss[i] == v.Abs()
    {
      ghost var s := v.Abs();
      var ok := Perform(v, steps[i]);
      if !ok {
        return i, ss;
      }
      StepCases(s, steps[i], v.Abs());
      TraceGrows(ss, steps, i, v.Abs());
      ss := ss + [v.Abs()];
    }
    assert steps[..|steps|] == steps;
    n := |steps|;
  }

  lemma TraceGrows(ss: seq<State>, steps: seq<Step>, i: nat, t: State)
    requires i < |steps| && Trace(ss, steps[..i]) && Moves(ss[i], steps[i], t)
    ensures Trace(ss + [t], steps[..i + 1])
  {
    hide Moves;
    var rs, st := ss + [t], steps[..i + 1];
    forall k | 0 <= k < |st| ensures Moves(rs[k], st[k], rs[k + 1]) {
      assert k < i ==> steps[..i][k] == st[k];
    }
  }
}
