// inode_setsize: growing and shrinking a file, slot by slot.

module Resize {
  import opened Geometry
  import opened Blocks
  import opened Trees
  import opened FreeLists
  import opened IndirectGrow
  import opened IndirectShrink
  import opened Files

  ghost predicate IsFileCost(n: int, k: nat) {
    forall u :: Look(u) ==> k == Cost(Level(SlotOf(n)), InSlot(n, SlotOf(n)))
  }

  /** Blocks needed to add data block `n` to a file that has the `n` before it. */
  ghost function FileCost(n: int): nat {
    assert IsFileCost(n, Cost(Level(SlotOf(n)), InSlot(n, SlotOf(n))));
    var k: nat :| IsFileCost(n, k);
    k
  }

  /** Growing a file of `n` data blocks releases a live indirect block. */
  ghost predicate FileHazard(test: ReleaseTest, n: int, free: nat) {
    Hazard(test, Level(SlotOf(n)), InSlot(n, SlotOf(n)), free)
  }

  // ----- growing -----

  /** The file, of `n` data blocks, is being grown: it has `c` so far. */
  ghost predicate Enlarging(before: Image, free0: set<int>, b: int, was: seq<Tree>, img: Image, free: set<int>,
                            blocks: seq<int>, n: int, c: int) {
    && |blocks| == |was| == SLOTS
    && forall u :: Look(u) ==>
    var ts := Slots(img, blocks);
    && (forall s :: 0 <= s < SLOTS ==> ChildOk(before, img, was[s], ts[s], Level(s), SlotShare(n, s), SlotShare(c, s)))
    && Conserves(free0, Node(b, was), free, Node(b, ts))
    && Same(before, img, free0, Node(b, was))
  }

  /** Moving the count inside slot `s` leaves every other slot's share alone. */
  lemma {:induction false} SlotShareStep(c: int, e: int, s: int, t: int)
    requires 0 <= s < SLOTS && 0 <= t < SLOTS
    requires Base(s) <= c <= Base(s + 1) && Base(s) <= e <= Base(s + 1)
    ensures SlotShare(c, s) == c - Base(s)
    ensures t != s ==> SlotShare(c, t) == SlotShare(e, t)
  {
    SlotEnds(s);
    SlotEnds(t);
    if t < s {
      BaseMono(t, s);
    } else if t > s {
      BaseMono(s, t);
    }
  }

  lemma {:induction false} EnlargeOther(before: Image, img: Image, was: Tree, free: set<int>, ts: seq<Tree>, lo: int,
                                        s: nat, img': Image, t: nat, n: int, c: int, e: int)
    requires |ts| == SLOTS && s < SLOTS && t < SLOTS && s != t && lo > 0
    requires forall x :: In(free, x) + CountAll(ts, x) <= 1
    requires forall x :: CountAll(ts, x) > 0 ==> lo <= x
    requires Same(img, img', free, ts[s])
    requires 0 <= n <= c <= e && Base(s) <= c && e <= Base(s + 1)
    requires ChildOk(before, img, was, ts[t], Level(t), SlotShare(n, t), SlotShare(c, t))
    ensures ChildOk(before, img', was, ts[t], Level(t), SlotShare(n, t), SlotShare(e, t))
  {
    SlotShareStep(c, e, s, t);
    OtherChild(before, img, was, free, ts, lo, s, img', t, Level(t), SlotShare(n, t), SlotShare(c, t));
  }

  lemma {:induction false} EnlargeSelf(before: Image, img: Image, free: set<int>, p: int, img': Image, free': set<int>,
                                       p': int, was: Tree, n: int, c: int, e: int, s: nat, target: int, ok: bool,
                                       added: int)
    requires s < SLOTS && 0 <= n <= c && SlotShare(n, s) == SlotShare(c, s) && e == c + added
    requires Base(s) <= c <= e && e <= Base(s + 1)
    requires Grew(img, free, p, img', free', p', Level(s), SlotShare(n, s), target, ok, added)
    requires ChildOk(before, img, was, TreeOf(img, p, Level(s)), Level(s), SlotShare(n, s), SlotShare(c, s))
    ensures ChildOk(before, img', was, TreeOf(img', p', Level(s)), Level(s), SlotShare(n, s), SlotShare(e, s))
  {
    SlotShareStep(c, e, s, s);
    SlotShareStep(e, e, s, s);
    GrownChild(before, img, free, p, img', free', p', was, Level(s), SlotShare(n, s), SlotShare(n, s), target, ok,
               added, SlotShare(e, s));
  }

  lemma {:induction false} EnlargeStep(before: Image, free0: set<int>, b: int, was: seq<Tree>, img: Image,
                                       free: set<int>, blocks: seq<int>, n: int, c: int, s: nat, target: int,
                                       img': Image, free': set<int>, p': int, ok: bool, added: int, e: int)
    requires s < SLOTS && |before| > 0 && e == c + added
    requires Enlarging(before, free0, b, was, img, free, blocks, n, c)
    requires Clean(free0, Node(b, was), DataStart(before), |before|)
    requires 0 <= n <= c <= e && Base(s) <= c && e <= Base(s + 1) && SlotShare(n, s) == SlotShare(c, s)
    requires Grew(img, free, blocks[s], img', free', p', Level(s), SlotShare(n, s), target, ok, added)
    requires SameBut(img, img', free, blocks[s], Level(s))
    ensures Enlarging(before, free0, b, was, img', free', blocks[s := p'], n, e)
  {
    assert Look(0);
    var ts, lo, t' := Slots(img, blocks), DataStart(before), TreeOf(img', p', Level(s));
    ChildClean(free0, Node(b, was), lo, |before|, free, b, ts, s);
    SlotsFrame(img, img', blocks, ts, free, lo, s, p');
    ChildStep(before, free0, Node(b, was), lo, b, img, free, ts, s, img', free', t');
    forall t | 0 <= t < SLOTS
      ensures ChildOk(before, img', was[t], ts[s := t'][t], Level(t), SlotShare(n, t), SlotShare(e, t))
    {
      assert ChildOk(before, img, was[t], ts[t], Level(t), SlotShare(n, t), SlotShare(c, t));
      if t != s {
        EnlargeOther(before, img, was[t], free, ts, lo, s, img', t, n, c, e);
      } else {
        EnlargeSelf(before, img, free, blocks[s], img', free', p', was[s], n, c, e, s, target, ok, added);
      }
    }
  }

  /** A live indirect block was released: nothing is used twice, but data is missing. */
  ghost predicate Spoilt(before: Image, free0: set<int>, b: int, was: seq<Tree>, img: Image, free: set<int>,
                         blocks: seq<int>, n: int) {
    && |blocks| == |was| == SLOTS
    && forall u :: Look(u) ==>
    && !FileShape(Slots(img, blocks), n)
    && NoneMore(free0, Node(b, was), free, Node(b, Slots(img, blocks)))
    && Same(before, img, free0, Node(b, was))
  }

  lemma {:induction false} SpoilStep(before: Image, free0: set<int>, b: int, was: seq<Tree>, img: Image, free: set<int>,
                                     blocks: seq<int>, n: int, s: nat, img': Image, free': set<int>, p': int)
    requires s < SLOTS && |before| > 0
    requires Enlarging(before, free0, b, was, img, free, blocks, n, n)
    requires Clean(free0, Node(b, was), DataStart(before), |before|)
    requires Broke(img, free, blocks[s], img', free', p', Level(s), SlotShare(n, s))
    requires SameBut(img, img', free, blocks[s], Level(s))
    ensures Spoilt(before, free0, b, was, img', free', blocks[s := p'], n)
  {
    assert Look(0);
    var ts, lo, t', t0 := Slots(img, blocks), DataStart(before), TreeOf(img', p', Level(s)), Node(b, was);
    ChildClean(free0, t0, lo, |before|, free, b, ts, s);
    SlotsFrame(img, img', blocks, ts, free, lo, s, p');
    BrokeStep(before, free0, t0, lo, b, img, free, ts, s, img', free', t');
    assert ts[s := t'][s] == t';
  }

  // ----- the growing loop -----

  /** Where the count stands, at `c`, after slot `last` has been grown. */
  ghost predicate SlotCounting(oldc: int, newc: int, last: int, c: int, success: bool) {
    && 0 <= oldc <= c <= newc <= UNREACHABLE && -1 <= last < SLOTS
    && (last == -1 ==> success && c == oldc)
    && (last >= 0 ==> oldc < Base(last + 1))
    && (last >= 0 && success ==> c == if newc <= Base(last + 1) then newc else Base(last + 1))
    && (last >= 0 && !success ==> Base(last) <= c < Base(last + 1) && c < newc)
  }

  /** Each round grows the slot after the one before, from what it held at first. */
  lemma {:induction false} NextSlot(oldc: int, newc: int, last: int, c: int, s: int)
    requires SlotCounting(oldc, newc, last, c, true) && c < newc && s == SlotOf(c)
    ensures 0 <= s < SLOTS && (last == -1 || last + 1 == s)
    ensures Base(s) <= c < Base(s + 1) && (c == oldc || oldc <= Base(s)) && oldc < Base(s + 1)
    ensures SlotShare(oldc, s) == SlotShare(c, s) == InSlot(c, s) < SlotShare(newc, s)
    ensures last >= 0 ==> SlotShare(oldc, s) == 0 && c == Base(s)
  {
    SharesHere(oldc, newc, c, s);
    if last >= 0 {
      AfterSlot(newc, last + 1, c);
    }
  }

  lemma {:induction false} SharesHere(oldc: int, newc: int, c: int, s: int)
    requires 0 <= oldc <= c < newc && c < UNREACHABLE && s == SlotOf(c)
    ensures 0 <= s < SLOTS && Base(s) <= c < Base(s + 1)
    ensures SlotShare(c, s) == InSlot(c, s) < SlotShare(newc, s)
    ensures oldc <= Base(s) ==> SlotShare(oldc, s) == 0
  {
    SlotHolds(c);
    SlotEnds(s);
    SlotShareStep(c, c, s, s);
  }

  lemma {:induction false} AfterSlot(newc: int, t: int, c: int)
    requires 0 < t <= SLOTS && newc <= UNREACHABLE
    requires c < newc && c == if newc <= Base(t) then newc else Base(t)
    ensures c == Base(t) && SlotOf(c) == t
  {
    if t < SLOTS {
      SlotEnds(t);
      SlotUnique(c, t);
    }
  }

  lemma {:induction false} SlotCounted(oldc: int, newc: int, last: int, c: int, s: int, ok: bool, added: int)
    requires SlotCounting(oldc, newc, last, c, true) && c < newc && s == SlotOf(c)
    requires 0 <= added && SlotShare(c, s) + added <= SlotShare(newc, s)
    requires ok <==> SlotShare(c, s) + added == SlotShare(newc, s)
    ensures SlotCounting(oldc, newc, s, c + added, ok)
    ensures c + added <= Base(s + 1)
    ensures !ok ==> s == SlotOf(c + added) && InSlot(c + added, s) == SlotShare(c, s) + added
  {
    NextSlot(oldc, newc, last, c, s);
    SlotEnds(s);
    if !ok {
      SlotUnique(c + added, s);
    }
  }

  lemma {:induction false} EnlargeReady(before: Image, free0: set<int>, b: int, was: seq<Tree>, img: Image, v: View,
                                        blocks: seq<int>, oldc: int, newc: int, last: int, c: int, s: int)
    requires SlotCounting(oldc, newc, last, c, true) && c < newc && s == SlotOf(c)
    requires Enlarging(before, free0, b, was, img, v.free, blocks, oldc, c)
    requires Mounted(img, v) && DataStart(img) == DataStart(before) && |img| == |before|
    requires Clean(free0, Node(b, was), DataStart(before), |before|)
    ensures 0 <= s < SLOTS && MayGrow(img, v, blocks[s], Level(s), SlotShare(oldc, s), SlotShare(newc, s))
  {
    assert Look(0);
    NextSlot(oldc, newc, last, c, s);
    var ts := Slots(img, blocks);
    ChildClean(free0, Node(b, was), DataStart(before), |before|, v.free, b, ts, s);
    assert ChildOk(before, img, was[s], ts[s], Level(s), SlotShare(oldc, s), SlotShare(c, s));
  }

  /** Before the first round the file is as it was. */
  lemma {:induction false} EnlargeStart(img: Image, free: set<int>, b: int, was: seq<Tree>, blocks: seq<int>, n: int)
    requires was == Slots(img, blocks) && FileShape(was, n)
    ensures Enlarging(img, free, b, was, img, free, blocks, n, n)
  {
    assert Look(0);
    forall s | 0 <= s < SLOTS ensures ChildOk(img, img, was[s], was[s], Level(s), SlotShare(n, s), SlotShare(n, s)) {
      PruneId(was[s], Level(s), SlotShare(n, s));
      KeptSame(img, was[s], Level(s), SlotShare(n, s));
    }
    forall x ensures Conserved(free, Node(b, was), free, Node(b, was), x) {
    }
  }

  /** The loop as long as no live block has been released. */
  ghost predicate GrowGood(before: Image, free0: set<int>, b: int, was: seq<Tree>, img: Image, free: set<int>,
                           blocks: seq<int>, test: ReleaseTest, oldc: int, newc: int, last: int, c: int, success: bool)
  {
    && SlotCounting(oldc, newc, last, c, success)
    && Enlarging(before, free0, b, was, img, free, blocks, oldc, c)
    && (last == -1 ==> free == free0)
    && (last >= 0 ==> !FileHazard(test, oldc, |free0|) && (c == oldc <==> |free0| < FileCost(oldc)))
    && (!success ==> |free| < FileCost(c))
  }

  ghost predicate GrowBad(before: Image, free0: set<int>, b: int, was: seq<Tree>, img: Image, free: set<int>,
                          blocks: seq<int>, test: ReleaseTest, oldc: int, c: int, success: bool)
  {
    && !success && c == oldc && FileHazard(test, oldc, |free0|)
    && Spoilt(before, free0, b, was, img, free, blocks, oldc)
  }

  lemma {:induction false} FileCostIs(n: int, s: int, r: int, test: ReleaseTest, free: nat)
    requires s == SlotOf(n) && r == InSlot(n, s)
    ensures FileCost(n) == Cost(Level(s), r)
    ensures FileHazard(test, n, free) == Hazard(test, Level(s), r, free)
  {
    assert Look(0);
    assert IsFileCost(n, FileCost(n));
  }

  lemma {:induction false} CostAt(before: Image, free: set<int>, p: int, after: Image, free': set<int>, p': int,
                                  level: nat, n: int, target: int, ok: bool, added: int, r: int)
    requires Grew(before, free, p, after, free', p', level, n, target, ok, added) && r == n + added
    ensures !ok ==> |free'| < Cost(level, r)
  {
  }

  lemma {:induction false} GrowSlotNumbers(test: ReleaseTest, oldc: int, newc: int, last: int, c: int, s: int, ok: bool,
                                           added: int, e: int, r: int, free0: nat, free: nat, free': nat)
    requires SlotCounting(oldc, newc, last, c, true) && c < newc && s == SlotOf(c) && e == c + added
    requires last == -1 ==> free == free0
    requires last >= 0 ==> !FileHazard(test, oldc, free0) && (c == oldc <==> free0 < FileCost(oldc))
    requires 0 <= added && r == SlotShare(oldc, s) + added <= SlotShare(newc, s)
    requires ok ==> r == SlotShare(newc, s)
    requires !ok ==> r < SlotShare(newc, s) && free' < Cost(Level(s), r)
    requires added == 0 <==> free < Cost(Level(s), SlotShare(oldc, s))
    requires !Hazard(test, Level(s), SlotShare(oldc, s), free)
    ensures SlotCounting(oldc, newc, s, e, ok) && e <= Base(s + 1)
    ensures !FileHazard(test, oldc, free0) && (e == oldc <==> free0 < FileCost(oldc))
    ensures !ok ==> free' < FileCost(e)
  {
    NextSlot(oldc, newc, last, c, s);
    FileCostIs(c, s, SlotShare(oldc, s), test, free);
    GrowSlotEnd(oldc, newc, last, c, s, ok, added, e, r, free');
  }

  lemma {:induction false} GrowSlotEnd(oldc: int, newc: int, last: int, c: int, s: int, ok: bool, added: int, e: int,
                                       r: int, free': nat)
    requires SlotCounting(oldc, newc, last, c, true) && c < newc && s == SlotOf(c) && e == c + added
    requires SlotShare(oldc, s) == SlotShare(c, s)
    requires 0 <= added && r == SlotShare(oldc, s) + added <= SlotShare(newc, s)
    requires ok <==> r == SlotShare(newc, s)
    requires !ok ==> free' < Cost(Level(s), r)
    ensures SlotCounting(oldc, newc, s, e, ok) && e <= Base(s + 1)
    ensures !ok ==> free' < FileCost(e)
  {
    SlotCounted(oldc, newc, last, c, s, ok, added);
    if !ok {
      FileCostIs(e, s, r, BlockIsNew, free');
    }
  }

  lemma {:induction false} GrowSlotGood(before: Image, free0: set<int>, b: int, was: seq<Tree>, img: Image, v: View,
                                        blocks: seq<int>, test: ReleaseTest, oldc: int, newc: int, last: int, c: int,
                                        s: int, img': Image, v': View, p': int, ok: bool, added: int, e: int)
    requires GrowGood(before, free0, b, was, img, v.free, blocks, test, oldc, newc, last, c, true) && c < newc
    requires s == SlotOf(c) && 0 <= s < SLOTS
    requires |before| > 0 && Clean(free0, Node(b, was), DataStart(before), |before|) && e == c + added
    requires GrowResult(img, v, blocks[s], img', v', p', Level(s), SlotShare(oldc, s), SlotShare(newc, s), test, ok,
                        added)
    requires !Hazard(test, Level(s), SlotShare(oldc, s), |v.free|)
    ensures GrowGood(before, free0, b, was, img', v'.free, blocks[s := p'], test, oldc, newc, s, e, ok)
  {
    NextSlot(oldc, newc, last, c, s);
    var level, n, target := Level(s), SlotShare(oldc, s), SlotShare(newc, s);
    var free, r := v.free, SlotShare(oldc, s) + added;
    CostAt(img, free, blocks[s], img', v'.free, p', level, n, target, ok, added, r);
    GrowSlotNumbers(test, oldc, newc, last, c, s, ok, added, e, r, |free0|, |free|, |v'.free|);
    EnlargeStep(before, free0, b, was, img, free, blocks, oldc, c, s, target, img', v'.free, p', ok, added, e);
  }

  lemma {:induction false} GrowSlotBad(before: Image, free0: set<int>, b: int, was: seq<Tree>, img: Image, v: View,
                                       blocks: seq<int>, test: ReleaseTest, oldc: int, newc: int, last: int, c: int,
                                       s: int, img': Image, v': View, p': int, ok: bool, added: int, e: int)
    requires GrowGood(before, free0, b, was, img, v.free, blocks, test, oldc, newc, last, c, true) && c < newc
    requires s == SlotOf(c) && 0 <= s < SLOTS
    requires |before| > 0 && Clean(free0, Node(b, was), DataStart(before), |before|) && e == c + added
    requires GrowResult(img, v, blocks[s], img', v', p', Level(s), SlotShare(oldc, s), SlotShare(newc, s), test, ok,
                        added)
    requires Hazard(test, Level(s), SlotShare(oldc, s), |v.free|)
    ensures GrowBad(before, free0, b, was, img', v'.free, blocks[s := p'], test, oldc, e, ok)
  {
    NextSlot(oldc, newc, last, c, s);
    SpoilStep(before, free0, b, was, img, v.free, blocks, oldc, s, img', v'.free, p');
  }

  method GrowSlots(d: Disk, block: int, blocks: seq<int>, oldc: int, newc: int, test: ReleaseTest, ghost was: seq<Tree>)
    returns (blocks': seq<int>, count: int, success: bool, lastSlot: int, lost: bool)
    requires d.Valid() && |blocks| == SLOTS && was == Slots(d.Image(), blocks) && FileShape(was, oldc)
    requires Clean(d.view.free, Node(block, was), DataStart(d.Image()), |d.Image()|)
    requires 0 <= oldc <= UNREACHABLE && newc <= UNREACHABLE
    modifies d`view, d.data
    ensures d.Valid() && |d.Image()| == |old(d.Image())| && DataStart(d.Image()) == DataStart(old(d.Image()))
    ensures d.view == old(d.view).(chain := d.view.chain, free := d.view.free)
    ensures newc <= oldc ==>
      d.Image() == old(d.Image()) && d.view == old(d.view) && blocks' == blocks && count == oldc && lastSlot == -1
    ensures lost <==> oldc < newc && FileHazard(test, oldc, |old(d.view).free|)
    ensures oldc < newc ==> if FileHazard(test, oldc, |old(d.view).free|)
      then GrowBad(old(d.Image()), old(d.view).free, block, was, d.Image(), d.view.free, blocks', test, oldc, count,
                   success)
      else GrowGood(old(d.Image()), old(d.view).free, block, was, d.Image(), d.view.free, blocks', test, oldc, newc,
                    lastSlot, count, success)
           && (count < newc ==> !success) && lastSlot >= 0
  {
    ghost var img0, v0, free0 := d.Image(), d.view, d.view.free;
    blocks', count, success, lastSlot, lost := blocks, oldc, true, -1, false;
    EnlargeStart(img0, free0, block, was, blocks, oldc);
    while count < newc && success
      invariant d.Valid() && |d.Image()| == |img0| && DataStart(d.Image()) == DataStart(img0)
      invariant d.view == v0.(chain := d.view.chain, free := d.view.free)
      invariant lastSlot == -1 ==> d.Image() == img0 && d.view == v0 && blocks' == blocks && count == oldc && success
      invariant -1 <= lastSlot && (newc <= oldc ==> lastSlot == -1)
      invariant oldc < newc && !lost ==>
        GrowGood(img0, free0, block, was, d.Image(), d.view.free, blocks', test, oldc, newc, lastSlot, count, success)
      invariant lost ==> oldc < newc && GrowBad(img0, free0, block, was, d.Image(), d.view.free, blocks', test, oldc,
                                                count, success)
      decreases success, newc - count
    {
      ghost var img, v := d.Image(), d.view;
      var indirection, slot, curblock := Locate(count);
      NextSlot(oldc, newc, lastSlot, count, slot);
      assert lastSlot == -1 || lastSlot + 1 == slot;
      EnlargeReady(img0, free0, block, was, img, v, blocks', oldc, newc, lastSlot, count, slot);
      var p, added;
      success, p, added, lost :=
        IndirectGrow.IndirectGrow(d, blocks'[slot], curblock, indirection, oldc, newc, test, SlotShare(oldc, slot),
                                  SlotShare(newc, slot));
      ghost var ptrs, c, last := blocks', count, lastSlot;
      blocks' := blocks'[slot := p];
      count := count + added;
      lastSlot := slot;
      if lost {
        GrowSlotBad(img0, free0, block, was, img, v, ptrs, test, oldc, newc, last, c, slot, d.Image(), d.view, p,
                    success, added, count);
      } else {
        GrowSlotGood(img0, free0, block, was, img, v, ptrs, test, oldc, newc, last, c, slot, d.Image(), d.view, p,
                     success, added, count);
      }
    }
  }

  // ----- shrinking -----

  /** The file, of `n` data blocks, is being cut back: it has `c` left so far. */
  ghost predicate Reducing(before: Image, free0: set<int>, b: int, was: seq<Tree>, img: Image, free: set<int>,
                           blocks: seq<int>, n: int, c: int) {
    && |blocks| == |was| == SLOTS
    && forall u :: Look(u) ==>
    var ts := Slots(img, blocks);
    && FileShape(was, n)
    && (forall s :: 0 <= s < SLOTS ==> ChildCut(before, img, was[s], ts[s], Level(s), SlotShare(c, s)))
    && Conserves(free0, Node(b, was), free, Node(b, ts))
    && Same(before, img, free0, Node(b, was))
  }

  lemma {:induction false} ReduceOther(before: Image, img: Image, was: Tree, free: set<int>, ts: seq<Tree>, lo: int,
                                       s: nat, img': Image, t: nat, n: int, c: int, e: int)
    requires |ts| == SLOTS && s < SLOTS && t < SLOTS && s != t && lo > 0
    requires forall x :: In(free, x) + CountAll(ts, x) <= 1
    requires forall x :: CountAll(ts, x) > 0 ==> lo <= x
    requires Same(img, img', free, ts[s])
    requires 0 <= e <= c <= n && Base(s) <= e && c <= Base(s + 1)
    requires Shape(was, Level(t), SlotShare(n, t))
    requires ChildCut(before, img, was, ts[t], Level(t), SlotShare(c, t))
    ensures ChildCut(before, img', was, ts[t], Level(t), SlotShare(e, t))
  {
    SlotShareStep(c, e, s, t);
    OtherCut(before, img, was, free, ts, lo, s, img', t, Level(t), SlotShare(n, t), SlotShare(c, t));
  }

  lemma {:induction false} ReduceStep(before: Image, free0: set<int>, b: int, was: seq<Tree>, img: Image,
                                      free: set<int>, blocks: seq<int>, n: int, c: int, s: nat, img': Image,
                                      free': set<int>, p': int, e: int)
    requires s < SLOTS && |before| > 0
    requires Reducing(before, free0, b, was, img, free, blocks, n, c)
    requires Clean(free0, Node(b, was), DataStart(before), |before|)
    requires 0 <= e <= c <= n && Base(s) <= e && c <= Base(s + 1) && SlotShare(n, s) == SlotShare(c, s)
    requires Cut(img, free, blocks[s], img', free', p', Level(s), SlotShare(e, s))
    requires SameBut(img, img', free, blocks[s], Level(s))
    ensures Reducing(before, free0, b, was, img', free', blocks[s := p'], n, e)
  {
    assert Look(0);
    var ts, lo, t' := Slots(img, blocks), DataStart(before), TreeOf(img', p', Level(s));
    ChildClean(free0, Node(b, was), lo, |before|, free, b, ts, s);
    SlotsFrame(img, img', blocks, ts, free, lo, s, p');
    ChildStep(before, free0, Node(b, was), lo, b, img, free, ts, s, img', free', t');
    ReduceAll(before, was, img, free, blocks, ts, lo, n, c, s, img', free', p', e);
  }

  lemma {:induction false} ReduceAll(before: Image, was: seq<Tree>, img: Image, free: set<int>, blocks: seq<int>,
                                     ts: seq<Tree>, lo: int, n: int, c: int, s: nat, img': Image, free': set<int>,
                                     p': int, e: int)
    requires |ts| == |was| == |blocks| == SLOTS && s < SLOTS && lo > 0 && ts[s] == TreeOf(img, blocks[s], Level(s))
    requires FileShape(was, n)
    requires forall t :: 0 <= t < SLOTS ==> ChildCut(before, img, was[t], ts[t], Level(t), SlotShare(c, t))
    requires forall x :: In(free, x) + CountAll(ts, x) <= 1
    requires forall x :: CountAll(ts, x) > 0 ==> lo <= x
    requires Same(img, img', free, ts[s])
    requires 0 <= e <= c <= n && Base(s) <= e && c <= Base(s + 1) && SlotShare(n, s) == SlotShare(c, s)
    requires Cut(img, free, blocks[s], img', free', p', Level(s), SlotShare(e, s))
    ensures forall t :: 0 <= t < SLOTS ==>
      ChildCut(before, img', was[t], ts[s := TreeOf(img', p', Level(s))][t], Level(t), SlotShare(e, t))
  {
    var t' := TreeOf(img', p', Level(s));
    forall t | 0 <= t < SLOTS
      ensures ChildCut(before, img', was[t], ts[s := t'][t], Level(t), SlotShare(e, t))
    {
      assert ChildCut(before, img, was[t], ts[t], Level(t), SlotShare(c, t));
      ShapeOf(was, n, t);
      if t != s {
        ReduceOther(before, img, was[t], free, ts, lo, s, img', t, n, c, e);
      } else {
        ShareMono(e, n, s);
        ThisCut(before, img, free, blocks[s], img', free', p', was[s], Level(s), SlotShare(n, s), SlotShare(e, s));
      }
    }
  }

  lemma {:induction false} ReduceStart(img: Image, free: set<int>, b: int, was: seq<Tree>, blocks: seq<int>, n: int)
    requires was == Slots(img, blocks) && FileShape(was, n)
    ensures Reducing(img, free, b, was, img, free, blocks, n, n)
  {
    assert Look(0);
    forall s | 0 <= s < SLOTS ensures ChildCut(img, img, was[s], was[s], Level(s), SlotShare(n, s)) {
      PruneId(was[s], Level(s), SlotShare(n, s));
      KeptSame(img, was[s], Level(s), SlotShare(n, s));
    }
    forall x ensures Conserved(free, Node(b, was), free, Node(b, was), x) {
    }
  }

  /** Where the count stands, at `c`, after slot `last` has been cut. */
  ghost predicate SlotFalling(oldc: int, newc: int, last: int, c: int) {
    && 0 <= newc <= c <= oldc <= UNREACHABLE && -1 <= last < SLOTS
    && (last == -1 ==> c == oldc)
    && (last >= 0 ==> c == if newc >= Base(last) then newc else Base(last))
  }

  lemma {:induction false} PreviousSlot(oldc: int, newc: int, last: int, c: int, s: int)
    requires SlotFalling(oldc, newc, last, c) && newc < c && s == SlotOf(c - 1)
    ensures 0 <= s < SLOTS && (last == -1 || last - 1 == s)
    ensures Base(s) < c <= Base(s + 1)
    ensures SlotShare(oldc, s) == SlotShare(c, s) == c - Base(s) > SlotShare(newc, s)
  {
    SlotHolds(c - 1);
    SlotEnds(s);
    if last >= 0 {
      BeforeSlot(last, c);
    }
  }

  lemma {:induction false} BeforeSlot(last: int, c: int)
    requires 0 <= last < SLOTS && c == Base(last) && c > 0
    ensures SlotOf(c - 1) == last - 1
  {
    var t := last - 1;
    BaseNext(0);
    SlotEnds(t);
    SlotUnique(c - 1, t);
  }

  lemma {:induction false} SlotCut(oldc: int, newc: int, last: int, c: int, s: int, freed: int)
    requires SlotFalling(oldc, newc, last, c) && newc < c && s == SlotOf(c - 1)
    requires freed == SlotShare(oldc, s) - SlotShare(newc, s)
    ensures SlotFalling(oldc, newc, s, c - freed) && freed > 0
    ensures Base(s) <= c - freed && SlotShare(newc, s) == SlotShare(c - freed, s)
  {
    PreviousSlot(oldc, newc, last, c, s);
    SlotEnds(s);
  }

  lemma {:induction false} ReduceReady(before: Image, free0: set<int>, b: int, was: seq<Tree>, img: Image, v: View,
                                       blocks: seq<int>, oldc: int, newc: int, last: int, c: int, s: int)
    requires SlotFalling(oldc, newc, last, c) && newc < c && s == SlotOf(c - 1)
    requires Reducing(before, free0, b, was, img, v.free, blocks, oldc, c)
    requires Mounted(img, v) && DataStart(img) == DataStart(before) && |img| == |before|
    requires Clean(free0, Node(b, was), DataStart(before), |before|)
    ensures 0 <= s < SLOTS && MayShrink(img, v, blocks[s], Level(s), SlotShare(oldc, s), SlotShare(newc, s))
  {
    assert Look(0);
    PreviousSlot(oldc, newc, last, c, s);
    var ts := Slots(img, blocks);
    ChildClean(free0, Node(b, was), DataStart(before), |before|, v.free, b, ts, s);
    assert ChildCut(before, img, was[s], ts[s], Level(s), SlotShare(c, s));
    PruneId(was[s], Level(s), SlotShare(oldc, s));
  }

  lemma {:induction false} ReduceSlot(before: Image, free0: set<int>, b: int, was: seq<Tree>, img: Image, v: View,
                                      blocks: seq<int>, oldc: int, newc: int, last: int, c: int, s: int, img': Image,
                                      v': View, p': int, freed: int, e: int)
    requires SlotFalling(oldc, newc, last, c) && newc < c && s == SlotOf(c - 1) && 0 <= s < SLOTS
    requires Reducing(before, free0, b, was, img, v.free, blocks, oldc, c)
    requires |before| > 0 && Clean(free0, Node(b, was), DataStart(before), |before|) && e == c - freed
    requires ShrinkResult(img, v, blocks[s], img', v', p', Level(s), SlotShare(oldc, s), SlotShare(newc, s), freed)
    ensures SlotFalling(oldc, newc, s, e) && e < c
    ensures Reducing(before, free0, b, was, img', v'.free, blocks[s := p'], oldc, e)
  {
    PreviousSlot(oldc, newc, last, c, s);
    SlotCut(oldc, newc, last, c, s, freed);
    ReduceStep(before, free0, b, was, img, v.free, blocks, oldc, c, s, img', v'.free, p', e);
  }

  method ShrinkSlots(d: Disk, block: int, blocks: seq<int>, oldc: int, newc: int, lastSlot0: int, ghost was: seq<Tree>)
    returns (blocks': seq<int>, count: int)
    requires d.Valid() && |blocks| == SLOTS && was == Slots(d.Image(), blocks) && FileShape(was, oldc)
    requires Clean(d.view.free, Node(block, was), DataStart(d.Image()), |d.Image()|)
    requires 0 <= newc < oldc <= UNREACHABLE && lastSlot0 == -1
    modifies d`view, d.data
    ensures d.Valid() && |d.Image()| == |old(d.Image())| && DataStart(d.Image()) == DataStart(old(d.Image()))
    ensures d.view == old(d.view).(chain := d.view.chain, free := d.view.free)
    ensures count == newc
    ensures Reducing(old(d.Image()), old(d.view).free, block, was, d.Image(), d.view.free, blocks', oldc, newc)
  {
    ghost var img0, v0, free0 := d.Image(), d.view, d.view.free;
    var lastSlot := lastSlot0;
    blocks', count := blocks, oldc;
    ReduceStart(img0, free0, block, was, blocks, oldc);
    while count > newc
      invariant d.Valid() && |d.Image()| == |img0| && DataStart(d.Image()) == DataStart(img0)
      invariant d.view == v0.(chain := d.view.chain, free := d.view.free)
      invariant SlotFalling(oldc, newc, lastSlot, count)
      invariant Reducing(img0, free0, block, was, d.Image(), d.view.free, blocks', oldc, count)
    {
      ghost var img, v, ptrs, c, last := d.Image(), d.view, blocks', count, lastSlot;
      var indirection, slot, curblock := Locate(count - 1);
      PreviousSlot(oldc, newc, lastSlot, count, slot);
      assert lastSlot == -1 || lastSlot - 1 == slot;
      ReduceReady(img0, free0, block, was, img, v, blocks', oldc, newc, lastSlot, count, slot);
      var p, freed := IndirectShrink.IndirectShrink(d, blocks'[slot], curblock, indirection, oldc, newc,
                                                    SlotShare(oldc, slot), SlotShare(newc, slot));
      blocks' := blocks'[slot := p];
      count := count - freed;
      lastSlot := slot;
      ReduceSlot(img0, free0, block, was, img, v, ptrs, oldc, newc, last, c, slot, d.Image(), d.view, p, freed, count);
    }
  }

  // ----- what both loops come to -----

  /** The first `m` data positions of a slot are where they were, and hold what they held. */
  ghost predicate PrefixKept(before: Image, after: Image, was: Tree, t: Tree, level: nat, m: int) {
    Prune(t, level, m) == Prune(was, level, m) && KeptLeaves(before, after, was, level, m)
  }

  ghost predicate PrefixesKept(before: Image, after: Image, was: seq<Tree>, ts: seq<Tree>, m: int) {
    |ts| == |was| == SLOTS
    && forall u :: Look(u) ==> forall s :: 0 <= s < SLOTS ==>
      PrefixKept(before, after, was[s], ts[s], Level(s), SlotShare(m, s))
  }

  /** The file went from `n` to `c` data blocks; the lesser of the two, `m`, are still there. */
  ghost predicate Settled(before: Image, free0: set<int>, b: int, was: seq<Tree>, img: Image, free: set<int>,
                          blocks: seq<int>, n: int, c: int, m: int) {
    && |blocks| == |was| == SLOTS && m == (if n <= c then n else c)
    && forall u :: Look(u) ==>
    var ts := Slots(img, blocks);
    && FileShape(was, n) && FileShape(ts, c) && PrefixesKept(before, img, was, ts, m)
    && Conserves(free0, Node(b, was), free, Node(b, ts))
    && Same(before, img, free0, Node(b, was))
  }

  lemma {:induction false} EnlargedIsSettled(before: Image, free0: set<int>, b: int, was: seq<Tree>, img: Image,
                                             free: set<int>, blocks: seq<int>, n: int, c: int)
    requires Enlarging(before, free0, b, was, img, free, blocks, n, c) && FileShape(was, n) && n <= c
    ensures Settled(before, free0, b, was, img, free, blocks, n, c, n)
  {
    assert Look(0);
    var ts := Slots(img, blocks);
    forall s | 0 <= s < SLOTS
      ensures PrefixKept(before, img, was[s], ts[s], Level(s), SlotShare(n, s))
      ensures Shape(ts[s], Level(s), SlotShare(c, s))
    {
      assert ChildOk(before, img, was[s], ts[s], Level(s), SlotShare(n, s), SlotShare(c, s));
      PruneId(was[s], Level(s), SlotShare(n, s));
    }
  }

  lemma {:induction false} CutIsPrefix(before: Image, img: Image, was: Tree, t: Tree, level: nat, n: int, c: int)
    requires Shape(was, level, n) && 0 <= c <= n <= IndirectCount(level) && ChildCut(before, img, was, t, level, c)
    ensures PrefixKept(before, img, was, t, level, c) && Shape(t, level, c)
  {
    PruneShape(was, level, n, c);
    PruneId(t, level, c);
    forall k | 0 <= k < c ensures KeptLeaf(before, img, LeafAt(was, level, k)) {
      LeafAtPrune(was, level, n, c, k);
      assert KeptLeaf(before, img, LeafAt(t, level, k));
    }
  }

  lemma {:induction false} ReducedIsSettled(before: Image, free0: set<int>, b: int, was: seq<Tree>, img: Image,
                                            free: set<int>, blocks: seq<int>, n: int, c: int)
    requires Reducing(before, free0, b, was, img, free, blocks, n, c) && 0 <= c < n
    ensures Settled(before, free0, b, was, img, free, blocks, n, c, c)
  {
    assert Look(0);
    var ts := Slots(img, blocks);
    forall s | 0 <= s < SLOTS
      ensures PrefixKept(before, img, was[s], ts[s], Level(s), SlotShare(c, s))
      ensures Shape(ts[s], Level(s), SlotShare(c, s))
    {
      assert ChildCut(before, img, was[s], ts[s], Level(s), SlotShare(c, s));
      CutIsPrefix(before, img, was[s], ts[s], Level(s), SlotShare(n, s), SlotShare(c, s));
    }
  }

  /** The bytes of the data blocks that are still there are as they were. */
  lemma {:induction false} PrefixBytes(before: Image, after: Image, was: seq<Tree>, ts: seq<Tree>, n: int, c: int,
                                       m: int, o: nat)
    requires |before| == |after| && FileShape(was, n) && FileShape(ts, c) && PrefixesKept(before, after, was, ts, m)
    requires 0 <= m <= n && m <= c && m <= UNREACHABLE && o < Offset(m)
    ensures FileByte(after, ts, o) == FileByte(before, was, o)
  {
    var k := BlockOf(o);
    InBlock(o);
    if m <= k {
      OffsetMono(m, k);
    }
    PrefixBlock(before, after, was, ts, n, c, m, k, SlotOf(k));
  }

  lemma {:induction false} PrefixBlock(before: Image, after: Image, was: seq<Tree>, ts: seq<Tree>, n: int, c: int,
                                       m: int, k: nat, s: nat)
    requires FileShape(was, n) && FileShape(ts, c) && PrefixesKept(before, after, was, ts, m)
    requires k < m <= n && m <= c && k < UNREACHABLE && s == SlotOf(k)
    ensures KeptLeaf(before, after, LeafIn(was, s, k)) && LeafIn(ts, s, k) == LeafIn(was, s, k)
  {
    ShareHoldsSlot(m, k, s);
    ShapeOf(was, n, s);
    ShapeOf(ts, c, s);
    PrefixOf(before, after, was, ts, m, s);
    ShareMono(m, n, s);
    ShareMono(m, c, s);
    PrefixLeaf(before, after, was[s], ts[s], Level(s), SlotShare(n, s), SlotShare(c, s), SlotShare(m, s), InSlot(k, s));
  }

  lemma {:induction false} PrefixOf(before: Image, after: Image, was: seq<Tree>, ts: seq<Tree>, m: int, s: int)
    requires PrefixesKept(before, after, was, ts, m) && 0 <= s < SLOTS
    ensures PrefixKept(before, after, was[s], ts[s], Level(s), SlotShare(m, s))
  {
    assert Look(0);
  }

  lemma {:induction false} ShareMono(m: int, n: int, s: int)
    requires m <= n
    ensures SlotShare(m, s) <= SlotShare(n, s)
  {
  }

  lemma {:induction false} PrefixLeaf(before: Image, after: Image, was: Tree, t: Tree, level: nat, n: int, c: int,
                                      m: int, k: int)
    requires PrefixKept(before, after, was, t, level, m) && Shape(was, level, n) && Shape(t, level, c)
    requires 0 <= k < m <= n <= IndirectCount(level) && m <= c <= IndirectCount(level)
    ensures LeafAt(t, level, k) == LeafAt(was, level, k) && KeptLeaf(before, after, LeafAt(was, level, k))
  {
    LeafAtPrune(was, level, n, m, k);
    LeafAtPrune(t, level, c, m, k);
  }
}
