/** kernel_probe/jprobe.c: `jsys_encrypt_stack` and `jsys_decrypt_stack` as a state
    machine on user memory and the stack of hidden frames. */
module VaultSpec {
  import opened Bytes
  import opened Parameters
  import opened StackBufs
  import opened FrameScan
  import opened Pointers

  const MAX_DEPTH: nat := 16                       // sbuf_stack[16]
  const SLOT_CAP: nat := 32                        // init_stack_buf(32)

  /** The outcome of `get_func_name`. */
  datatype Name = Unknown | Known(text: string)

  /** A hidden frame: its bounds, the saved copies and the holes filed for it. */
  datatype Frame = Frame(rsp: nat, rbp: nat, name: string, segs: seq<Segment>, holes: seq<Hole>)

  datatype State = State(mem: seq<byte>, frames: seq<Frame>, ready: bool)

  /** A call returns, or the kernel faults inside it. */
  datatype Result = Return(s: State, code: int) | Oops

  /** All holes are filed under the first record. */
  ghost function HoleLists(n: nat, holes: seq<Hole>): (r: seq<seq<Hole>>)
    ensures |r| == n
  {
    seq(n, k => if k == 0 then holes else [])
  }

  /** Arguments of an encrypt call that address mapped memory without wrapping. */
  ghost predicate Callable(s: State, rsp: nat, rbp: nat, ps: seq<Para>) {
    && |s.mem| < TWO64 - 1 && (rsp <= rbp ==> rbp <= |s.mem|)
    && NoWrap(ps) && forall p :: p in ps ==> IsInt(p.pointer)
  }

  ghost function SegsOf(m: seq<byte>, rsp: nat, rbp: nat, ps: seq<Para>): (r: seq<Segment>)
    requires rsp <= rbp <= |m|
    ensures SavedFrom(m, r)
  {
    ScanSeparated(ps, rsp, rsp, rbp);
    SeparatedInMemory(Scan(ps, rsp, rsp, rbp), rsp, rbp);
    SavedCovers(m, Scan(ps, rsp, rsp, rbp));
    Saved(m, Scan(ps, rsp, rsp, rbp))
  }

  ghost function FilingOf(m: seq<byte>, rsp: nat, rbp: nat, ps: seq<Para>): (r: Filing)
    requires rsp <= rbp <= |m|
  {
    var segs := SegsOf(m, rsp, rbp, ps);
    File(m, segs, |segs| > SLOT_CAP, ps, 0)
  }

  ghost function EncryptSpec(s: State, name: Name, rsp: nat, rbp: nat, ps: seq<Para>): (r: Result)
    requires Callable(s, rsp, rbp, ps)
  {
    if name.Unknown? then Return(s.(ready := true), 0)
    else if rbp < rsp then Return(s.(ready := true), -1)
    else if |s.frames| >= MAX_DEPTH then Oops
    else
      var segs, f := SegsOf(s.mem, rsp, rbp, ps), FilingOf(s.mem, rsp, rbp, ps);
      if f.end.Crash? then Oops
      else Return(State(Veil(s.mem, segs, f.holes), s.frames + [Frame(rsp, rbp, name.text, segs, f.holes)], true), 0)
  }

  /** The original memory and the parameters make `restore_pointers` fault: a pointer
      parameter before the first missing one leaves the saved copies, or there is one and
      the frame has more than 32 copies. */
  ghost predicate Faulty(m: seq<byte>, rsp: nat, rbp: nat, ps: seq<Para>)
    requires rsp <= rbp <= |m|
  {
    var segs := SegsOf(m, rsp, rbp, ps);
    SomeLeaves(m, segs, |segs| > SLOT_CAP, ps, 0, FirstMissing(segs, ps, 0))
  }

  /** Exactly when an encrypt call faults. */
  lemma EncryptFaultsIff(s: State, name: Name, rsp: nat, rbp: nat, ps: seq<Para>)
    requires Callable(s, rsp, rbp, ps)
    ensures EncryptSpec(s, name, rsp, rbp, ps).Oops? <==>
      name.Known? && rsp <= rbp && (|s.frames| >= 16 || Faulty(s.mem, rsp, rbp, ps))
  {
    if rsp <= rbp {
      var segs := SegsOf(s.mem, rsp, rbp, ps);
      FileEnds(s.mem, segs, |segs| > SLOT_CAP, ps, 0);
    }
  }

  /** The saved copies of a frame can be put back. */
  ghost predicate Decryptable(f: Frame) {
    |f.segs| <= SLOT_CAP && Restorable(f.segs, HoleLists(|f.segs|, f.holes))
  }

  ghost function DecryptSpec(s: State, name: Name): (r: Result) {
    if !s.ready then Oops
    else if s.frames == [] then Return(s, -1)
    else
      var n := |s.frames| - 1;
      var f := s.frames[n];
      if name.Unknown? || !Decryptable(f) then Oops
      else Return(State(RestoreAll(s.mem, f.segs, HoleLists(|f.segs|, f.holes)), s.frames[..n], true), 0)
  }
}

module Vault {
  import opened Bytes
  import opened StackBufs
  import opened FrameScan
  import opened Pointers
  import opened VaultSpec

  datatype CallItem = CallItem(rsp: nat, rbp: nat, name: string)

  method InitSlots() returns (slots: seq<StackBuf>)
    ensures |slots| == MAX_DEPTH && fresh(slots)
    ensures forall i, j :: 0 <= i < j < |slots| ==> slots[i] != slots[j]
    ensures forall i :: 0 <= i < |slots| ==> Idle(slots[i])
  {
    slots := [];
    for i := 0 to MAX_DEPTH
      invariant |slots| == i && fresh(slots)
      invariant forall i, j :: 0 <= i < j < |slots| ==> slots[i] != slots[j]
      invariant forall i :: 0 <= i < |slots| ==> Idle(slots[i])
    {
      var b := new StackBuf(SLOT_CAP);
      slots := slots + [b];
    }
  }

  /** An empty slot of the original capacity. */
  ghost predicate Idle(b: StackBuf)
    reads b
  {
    b.Valid() && b.cur == 0 && b.cap == SLOT_CAP && !b.moved && !b.freed
  }

  /** The slot holds the saved copies of `f`, or was freed when they outgrew it. */
  ghost predicate Keeps(b: StackBuf, f: Frame, n: nat)
    reads b
  {
    && Fit(f.segs, n) && InBounds(f.segs, f.holes)
    && (b.freed <==> |f.segs| > SLOT_CAP)
    && (!b.freed ==>
      && b.Valid() && b.cap == SLOT_CAP && !b.moved && b.Segs() == f.segs && b.Lists() == HoleLists(|f.segs|, f.holes))
  }

  lemma ListsOf(n: nat, lists: seq<seq<Hole>>, holes: seq<Hole>)
    requires |lists| == n && (0 < n ==> lists[0] == holes)
    requires forall k :: 1 <= k < n ==> lists[k] == []
    ensures lists == HoleLists(n, holes)
  {
  }

  /** The part of `jsys_encrypt_stack` that works on memory: the scan and
      `restore_pointers`, on the slot taken from the save stack. */
  method HideFrame(slot: StackBuf, rsp: nat, rbp: nat, plt: ParaList, mem: Memory, ghost name: string)
    returns (ok: bool)
    requires Idle(slot) && rsp <= rbp <= |mem.bytes| < TWO64 - 1
    requires NoWrap(plt.plist) && forall p :: p in plt.plist ==> IsInt(p.pointer)
    modifies slot, plt, mem
    ensures var m, ps := old(mem.bytes), old(plt.plist);
      var segs, f := SegsOf(m, rsp, rbp, ps), FilingOf(m, rsp, rbp, ps);
      && (ok <==> !f.end.Crash?)
      && (ok ==>
        && mem.bytes == Veil(m, segs, f.holes)
        && Keeps(slot, Frame(rsp, rbp, name, segs, f.holes), |mem.bytes|)
        && plt.plist == UsedUp(ps, f.end))
  {
    hide Veil, Scan, NoWrap, UsedUp, Saved, InBounds, File, Shows;
    ghost var m, ps := mem.bytes, plt.plist;
    ghost var segs, f := SegsOf(m, rsp, rbp, ps), FilingOf(m, rsp, rbp, ps);
    var sbuf := HideRuns(rsp, rbp, plt, slot, mem);
    assert sbuf.Segs() == segs;
    ghost var before := sbuf.Lists();
    assert forall k :: 0 <= k < |before| ==> before[k] in before && before[k] == sbuf.lists[k];
    assert Showing(sbuf, mem, m, segs, []);
    var end := RestorePointers(plt, sbuf, mem, m, segs);
    ok := !end.Crash?;
    if ok {
      FileInBounds(m, segs, |segs| > SLOT_CAP, ps, 0);
      assert Fit(segs, |m|);
      if |segs| <= SLOT_CAP {
        assert forall k :: 1 <= k < |segs| ==> sbuf.lists[k] == sbuf.lists[1..][k - 1] == before[k];
        ListsOf(|segs|, sbuf.Lists(), f.holes);
      }
    }
  }

  /** The global state of the kernel module. */
  class Module {
    const mem: Memory
    var callStack: array<CallItem>
    var callTop: nat
    var sbufStack: seq<StackBuf>
    var sbufTop: nat
    var init: bool
    ghost var frames: seq<Frame>

    /** The two stacks move in lockstep; slots at or above the top are empty. */
    ghost predicate Valid()
      reads this, mem, callStack, sbufStack
    {
      && callStack.Length == 64 && callTop == sbufTop == |frames| <= MAX_DEPTH
      && |mem.bytes| < TWO64 - 1
      && (if init then |sbufStack| == MAX_DEPTH else sbufStack == [] && callTop == 0)
      && (forall i, j :: 0 <= i < j < |sbufStack| ==> sbufStack[i] != sbufStack[j])
      && (forall i :: sbufTop <= i < |sbufStack| ==> Idle(sbufStack[i]))
      && (forall i :: 0 <= i < sbufTop ==> Keeps(sbufStack[i], frames[i], |mem.bytes|))
      && (forall i :: 0 <= i < callTop ==> callStack[i] == CallItem(frames[i].rsp, frames[i].rbp, frames[i].name))
    }

    ghost function Abs(): (s: State)
      reads this, mem
    {
      State(mem.bytes, frames, init)
    }

    constructor (m: Memory)
      requires |m.bytes| < TWO64 - 1
      ensures Valid() && mem == m && Abs() == State(m.bytes, [], false) && fresh(callStack)
    {
      mem := m;
      callStack := new CallItem[64](_ => CallItem(0, 0, ""));
      callTop, sbufTop, sbufStack, init, frames := 0, 0, [], false, [];
    }

    /** `jsys_encrypt_stack` */
    method EncryptStack(name: Name, rsp: nat, rbp: nat, plt: ParaList) returns (ok: bool, code: int)
      requires Valid() && Callable(Abs(), rsp, rbp, plt.plist)
      modifies this, mem, callStack, sbufStack, plt
      ensures callStack == old(callStack) && (sbufStack == old(sbufStack) || fresh(sbufStack))
      ensures match EncryptSpec(old(Abs()), name, rsp, rbp, old(plt.plist))
        case Oops => !ok
        case Return(s, c) =>
          && ok && Valid() && Abs() == s && code == c
          && plt.plist == if |s.frames| == |old(frames)| then old(plt.plist)
            else UsedUp(old(plt.plist), FilingOf(old(mem.bytes), rsp, rbp, old(plt.plist)).end)
      ensures name.Unknown? ==> ok && code == 0 && Abs() == old(Abs()).(ready := true) && plt.plist == old(plt.plist)
      ensures name.Known? && rbp < rsp ==>
        ok && code == -1 && Abs() == old(Abs()).(ready := true) && plt.plist == old(plt.plist)
      ensures name.Known? && rsp <= rbp && |old(frames)| == 16 ==> !ok
      ensures name.Known? && rsp <= rbp && ok ==> code == 0
    {
      hide Veil, SegsOf, FilingOf, NoWrap, UsedUp, Keeps, Idle, IsInt;
      if !init {
        sbufStack := InitSlots();
        init := true;
      }
      if name.Unknown? {
        return true, 0;
      }
      if rbp < rsp {
        return true, -1;
      }
      callStack[callTop] := CallItem(rsp, rbp, name.text);
      callTop := callTop + 1;
      if sbufTop == MAX_DEPTH {
        return false, 0;
      }
      var slot := sbufStack[sbufTop];
      sbufTop := sbufTop + 1;
      ok := HideFrame(slot, rsp, rbp, plt, mem, name.text);
      ghost var m, ps := old(mem.bytes), old(plt.plist);
      frames := frames + [Frame(rsp, rbp, name.text, SegsOf(m, rsp, rbp, ps), FilingOf(m, rsp, rbp, ps).holes)];
      code := 0;
    }

    /** `jsys_decrypt_stack`.  A caller other than the one that encrypted is logged,
        not refused. */
    method DecryptStack(name: Name) returns (ok: bool, code: int)
      requires Valid()
      modifies this, mem, sbufStack
      ensures callStack == old(callStack) && sbufStack == old(sbufStack)
      ensures match DecryptSpec(old(Abs()), name)
        case Oops => !ok
        case Return(s, c) => ok && Valid() && Abs() == s && code == c
      ensures !old(init) ==> !ok
      ensures old(init) && |old(frames)| == 0 ==> ok && code == -1 && Abs() == old(Abs())
      ensures old(init) && 0 < |old(frames)| && name.Unknown? ==> !ok
      ensures 0 < |old(frames)| && ok ==> code == 0
    {
      hide Fit, InBounds, RestoreAll, Restorable, HoleLists, Idle;
      if !init {
        return false, 0;
      }
      if callTop == 0 {
        return true, -1;
      }
      if name.Unknown? {
        return false, 0;
      }
      callTop := callTop - 1;
      sbufTop := sbufTop - 1;
      var slot := sbufStack[sbufTop];
      ghost var f := frames[sbufTop];
      AddressableLists(f, |mem.bytes|);
      ok := RestoreStackBuf(slot, mem);
      IdleAgain(slot);
      frames := frames[..sbufTop];
      code := 0;
    }
  }

  lemma AddressableLists(f: Frame, n: nat)
    requires Fit(f.segs, n) && InBounds(f.segs, f.holes) && n < TWO64
    ensures forall l :: l in HoleLists(|f.segs|, f.holes) ==> Addressable(l)
  {
    forall h | h in f.holes ensures h.off + h.len < TWO64 {
      assert f.segs[h.seg].start + |f.segs[h.seg].bytes| <= n;
    }
  }

  lemma IdleAgain(b: StackBuf)
    ensures b.Valid() && b.cur == 0 && b.cap == SLOT_CAP && !b.moved && !b.freed ==> Idle(b)
  {
  }
}
