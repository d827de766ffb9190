/** clear_stack/stack_encrypt_server.c: `get_stack_areas`, which splits a virtual stack
    range into physical areas.  The page lookup is an arbitrary page table. */
module StackAreas {
  const PAGE: nat := 4096
  const SLOTS: nat := 10
  const UNUSED: nat := 0xFFFF_FFFF_FFFF_FFFF       // (unsigned long)-1

  /** Virtual page number to page frame number. */
  type PageTable = nat -> nat

  datatype Area = Area(frame: nat, offset: nat, len: nat)

  function FrameOf(pt: PageTable, a: nat): (f: nat) {
    pt(a / PAGE)
  }

  /** The physical address of virtual address `a`. */
  function Physical(pt: PageTable, a: nat): (p: int) {
    pt(a / 4096) * 4096 + a % 4096
  }

  function AreaOf(pt: PageTable, start: nat, end: nat): (r: Area)
    requires start <= end
  {
    Area(FrameOf(pt, start), start % PAGE, end - start)
  }

  /** The areas still to be emitted when an area began at `start` and `cur` is the next
      address to look up. */
  function Split(pt: PageTable, start: nat, cur: nat, bottom: nat): (r: seq<Area>)
    requires start < cur
    decreases bottom - cur
  {
    if cur >= bottom then [AreaOf(pt, start, cur)]
    else if FrameOf(pt, cur) != FrameOf(pt, start) then [AreaOf(pt, start, cur)] + Split(pt, cur, cur + 1, bottom)
    else Split(pt, start, cur + 1, bottom)
  }

  /** `get_stack_areas`; `ok` is false when the areas do not fit the ten slots. */
  method GetStackAreas(pt: PageTable, top: nat, bottom: nat) returns (ok: bool, ret: array<Area>)
    ensures fresh(ret) && ret.Length == SLOTS
    ensures ok <==> |Split(pt, top, top + 1, bottom)| <= 10
    ensures ok ==> var areas := Split(pt, top, top + 1, bottom);
      ret[..|areas|] == areas && forall k :: |areas| <= k < 10 ==> ret[k].len == 0xFFFF_FFFF_FFFF_FFFF
  {
    hide Split;
    ghost var all := Split(pt, top, top + 1, bottom);
    ret := new Area[SLOTS](_ => Area(0, 0, UNUSED));
    var i: nat, start: nat, cur: nat := 0, top, top + 1;
    var pre, offset := FrameOf(pt, top), top % PAGE;
    while cur < bottom
      invariant 0 <= i < SLOTS && start < cur
      invariant pre == FrameOf(pt, start) && offset == start % PAGE
      invariant all == ret[..i] + Split(pt, start, cur, bottom)
      invariant forall k :: i <= k < SLOTS ==> ret[k].len == UNUSED
      decreases bottom - cur
    {
      SplitStep(pt, start, cur, bottom, ret[..i], all);
      var page := FrameOf(pt, cur);
      if page != pre {
        ghost var done := ret[..i];
        ret[i] := Area(pre, offset, cur - start);
        assert ret[..i + 1] == done + [AreaOf(pt, start, cur)];
        start, i, pre, offset := cur, i + 1, page, cur % PAGE;
        if i == SLOTS {
          SplitNotEmpty(pt, start, cur + 1, bottom);
          return false, ret;
        }
      }
      cur := cur + 1;
    }
    SplitStep(pt, start, cur, bottom, ret[..i], all);
    ghost var done := ret[..i];
    ret[i] := Area(pre, offset, cur - start);
    assert ret[..i + 1] == done + [AreaOf(pt, start, cur)];
    ok := true;
  }

  lemma SplitStep(pt: PageTable, start: nat, cur: nat, bottom: nat, done: seq<Area>, all: seq<Area>)
    requires start < cur && all == done + Split(pt, start, cur, bottom)
    ensures if cur >= bottom then all == done + [AreaOf(pt, start, cur)]
      else if FrameOf(pt, cur) != FrameOf(pt, start)
      then all == (done + [AreaOf(pt, start, cur)]) + Split(pt, cur, cur + 1, bottom)
      else all == done + Split(pt, start, cur + 1, bottom)
  {
  }

  lemma SplitNotEmpty(pt: PageTable, start: nat, cur: nat, bottom: nat)
    requires start < cur
    ensures |Split(pt, start, cur, bottom)| > 0
    decreases bottom - cur
  {
  }

  // ------------------------------------------------- is the split a translation?

  ghost function Bytes(r: Area): (s: seq<int>)
    ensures |s| == r.len
  {
    seq(r.len, k requires 0 <= k => r.frame * PAGE + r.offset + k)
  }

  /** All physical addresses named by the areas, in order. */
  ghost function Flatten(areas: seq<Area>): (s: seq<int>) {
    if areas == [] then [] else Bytes(areas[0]) + Flatten(areas[1..])
  }

  /** The physical addresses of `[a, b)`. */
  ghost function Image(pt: PageTable, a: nat, b: nat): (s: seq<int>)
    requires a <= b
    ensures |s| == b - a
  {
    seq(b - a, k requires 0 <= k => Physical(pt, a + k))
  }

  ghost predicate InPage(r: Area) {
    0 < r.len && r.offset + r.len <= PAGE
  }

  /** The page border at `a` is visible in the frame numbers. */
  ghost predicate Border(pt: PageTable, a: nat) {
    a % PAGE == 0 && 0 < a / PAGE && pt(a / PAGE - 1) != pt(a / PAGE)
  }

  /** No two neighbouring pages of the range share a frame. */
  ghost predicate Distinct(pt: PageTable, top: nat, bottom: nat) {
    forall a :: top < a < bottom && a % PAGE == 0 ==> Border(pt, a)
  }

  lemma FlattenCons(r: Area, rest: seq<Area>)
    ensures Flatten([r] + rest) == Bytes(r) + Flatten(rest)
  {
    assert ([r] + rest)[1..] == rest;
  }

  lemma FlattenBehind(r: Area, rest: seq<Area>, k: nat)
    requires k < |Flatten(rest)|
    ensures r.len + k < |Flatten([r] + rest)| && Flatten([r] + rest)[r.len + k] == Flatten(rest)[k]
  {
    FlattenCons(r, rest);
  }

  /** A run inside one page is translated byte by byte. */
  lemma OnePage(pt: PageTable, start: nat, end: nat)
    requires start < end && (end - 1) / PAGE == start / PAGE
    ensures Bytes(AreaOf(pt, start, end)) == Image(pt, start, end) && InPage(AreaOf(pt, start, end))
  {
    SamePage(start, end - 1, end - 1);
    var b, im := Bytes(AreaOf(pt, start, end)), Image(pt, start, end);
    forall k | 0 <= k < end - start ensures b[k] == im[k] {
      SamePage(start, start + k, end - 1);
      assert im[k] == Physical(pt, start + k) == FrameOf(pt, start) * PAGE + (start % PAGE + k);
    }
  }

  lemma SamePage(a: nat, b: nat, c: nat)
    requires a <= b <= c && a / PAGE == c / PAGE
    ensures b / PAGE == a / PAGE && b % PAGE == a % PAGE + (b - a)
  {
  }

  lemma {:induction false} SplitTranslates(pt: PageTable, start: nat, cur: nat, bottom: nat)
    requires start < cur <= bottom && (cur - 1) / PAGE == start / PAGE && Distinct(pt, start, bottom)
    ensures Flatten(Split(pt, start, cur, bottom)) == Image(pt, start, bottom)
    ensures forall r :: r in Split(pt, start, cur, bottom) ==> InPage(r)
    decreases bottom - cur
  {
    if cur == bottom {
      OnePage(pt, start, cur);
      FlattenCons(AreaOf(pt, start, cur), []);
      assert [AreaOf(pt, start, cur)] + [] == [AreaOf(pt, start, cur)];
    } else if cur % PAGE == 0 {
      assert Border(pt, cur);
      NextPage(cur);
      OnePage(pt, start, cur);
      SplitTranslates(pt, cur, cur + 1, bottom);
      FlattenCons(AreaOf(pt, start, cur), Split(pt, cur, cur + 1, bottom));
      assert Image(pt, start, cur) + Image(pt, cur, bottom) == Image(pt, start, bottom);
    } else {
      assert cur / PAGE == start / PAGE;
      SplitTranslates(pt, start, cur + 1, bottom);
    }
  }

  lemma NextPage(a: nat)
    requires a % PAGE == 0 && 0 < a
    ensures (a - 1) / PAGE == a / PAGE - 1
  {
  }

  /** The first area covers everything looked up so far. */
  lemma {:induction false} FirstArea(pt: PageTable, start: nat, cur: nat, bottom: nat)
    requires start < cur
    ensures var s := Split(pt, start, cur, bottom);
      s != [] && s[0].frame == FrameOf(pt, start) && s[0].offset == start % PAGE && cur - start <= s[0].len
    decreases bottom - cur
  {
    if cur < bottom && FrameOf(pt, cur) == FrameOf(pt, start) {
      FirstArea(pt, start, cur + 1, bottom);
    }
  }

  /** A page border that the frame numbers do not show is passed over, and the byte
      behind it is given the wrong physical address. */
  lemma {:induction false} SplitMisses(pt: PageTable, start: nat, cur: nat, bottom: nat, a: nat)
    requires start < cur <= a < bottom && FrameOf(pt, cur - 1) == FrameOf(pt, start)
    requires a % PAGE == 0 && !Border(pt, a)
    ensures var s := Flatten(Split(pt, start, cur, bottom)); a - start < |s| && s[a - start] != Physical(pt, a)
    decreases bottom - cur
  {
    hide Flatten;
    if FrameOf(pt, cur) != FrameOf(pt, start) {
      assert cur != a by {
        if cur == a { NextPage(a); }
      }
      SplitMisses(pt, cur, cur + 1, bottom, a);
      FlattenBehind(AreaOf(pt, start, cur), Split(pt, cur, cur + 1, bottom), a - cur);
    } else if cur < a {
      SplitMisses(pt, start, cur + 1, bottom, a);
    } else {
      PassedOver(pt, start, bottom, a);
    }
  }

  lemma PassedOver(pt: PageTable, start: nat, bottom: nat, a: nat)
    requires start < a && a % PAGE == 0 && FrameOf(pt, a) == FrameOf(pt, start)
    ensures var s := Flatten(Split(pt, start, a + 1, bottom)); a - start < |s| && s[a - start] != Physical(pt, a)
  {
    var s := Split(pt, start, a + 1, bottom);
    FirstArea(pt, start, a + 1, bottom);
    hide Split;
    assert s == [s[0]] + s[1..];
    FlattenCons(s[0], s[1..]);
    assert Bytes(s[0])[a - start] == FrameOf(pt, start) * PAGE + start % PAGE + (a - start);
  }

  /** Both pages of a range across one border share frame 7: a single area is emitted, and
      the first byte of the second page is given an address in frame 8. */
  lemma SharedFrameExample()
    ensures var pt: PageTable := _ => 7; var areas := Split(pt, 4095, 4096, 4098);
      && areas == [Area(7, 4095, 3)]
      && Flatten(areas)[1] == 8 * PAGE && Physical(pt, 4096) == 7 * PAGE
  {
    var pt: PageTable := _ => 7;
    var r := Area(7, 4095, 3);
    assert Split(pt, 4095, 4098, 4098) == [r];
    assert Split(pt, 4095, 4096, 4098) == Split(pt, 4095, 4097, 4098) == [r];
    FlattenCons(r, []);
    assert [r] + [] == [r] && Bytes(r)[1] == 8 * PAGE;
  }

  /** The same range with two frames: one area for each page. */
  lemma TwoFramesExample()
    ensures var pt: PageTable := p => if p == 0 then 5 else 9;
      Split(pt, 4094, 4095, 4098) == [Area(5, 4094, 2), Area(9, 0, 2)]
  {
    var pt: PageTable := p => if p == 0 then 5 else 9;
    assert Split(pt, 4096, 4098, 4098) == [Area(9, 0, 2)];
    assert Split(pt, 4096, 4097, 4098) == [Area(9, 0, 2)];
    assert Split(pt, 4094, 4096, 4098) == [Area(5, 4094, 2)] + [Area(9, 0, 2)];
  }

  /** The areas of a non-empty range name exactly the physical addresses of its bytes,
      in order, if and only if no two neighbouring pages of the range share a frame;
      then each area also stays within its page. */
  lemma SplitCorrectIff(pt: PageTable, top: nat, bottom: nat)
    requires top < bottom
    ensures Flatten(Split(pt, top, top + 1, bottom)) == Image(pt, top, bottom) <==> Distinct(pt, top, bottom)
    ensures Distinct(pt, top, bottom) ==> forall r :: r in Split(pt, top, top + 1, bottom) ==> InPage(r)
  {
    if Distinct(pt, top, bottom) {
      SplitTranslates(pt, top, top + 1, bottom);
    } else {
      var a: nat :| top < a < bottom && a % PAGE == 0 && !Border(pt, a);
      SplitMisses(pt, top, top + 1, bottom, a);
      assert Image(pt, top, bottom)[a - top] == Physical(pt, a);
    }
  }

  /** The lengths always add up to the length of a non-empty range; an empty range is
      reported as one byte. */
  lemma {:induction false} SplitLength(pt: PageTable, start: nat, cur: nat, bottom: nat)
    requires start < cur
    ensures |Flatten(Split(pt, start, cur, bottom))| == (if cur < bottom then bottom else cur) - start
    decreases bottom - cur
  {
    if cur >= bottom {
      FlattenCons(AreaOf(pt, start, cur), []);
      assert [AreaOf(pt, start, cur)] + [] == [AreaOf(pt, start, cur)];
    } else if FrameOf(pt, cur) != FrameOf(pt, start) {
      SplitLength(pt, cur, cur + 1, bottom);
      FlattenCons(AreaOf(pt, start, cur), Split(pt, cur, cur + 1, bottom));
    } else {
      SplitLength(pt, start, cur + 1, bottom);
    }
  }

  /** There are never more areas than pages, so ten pages always fit. */
  lemma {:induction false} SplitCount(pt: PageTable, start: nat, cur: nat, bottom: nat)
    requires start < cur <= bottom && FrameOf(pt, cur - 1) == FrameOf(pt, start)
    ensures |Split(pt, start, cur, bottom)| <= (bottom - 1) / PAGE - (cur - 1) / PAGE + 1
    decreases bottom - cur
  {
    if cur < bottom {
      if FrameOf(pt, cur) != FrameOf(pt, start) {
        assert (cur - 1) / PAGE < cur / PAGE;
        SplitCount(pt, cur, cur + 1, bottom);
      } else {
        SplitCount(pt, start, cur + 1, bottom);
      }
    }
  }
}
