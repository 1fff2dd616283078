/** Kernel dirty-rectangle submission (dispatch_dirty_region and its
    callers in src/driver.c), specified as pure functions.

    The kernel's DRM_IOCTL_MODE_DIRTYFB, reached through drmModeDirtyFB, is
    an oracle: a function from the framebuffer id and the list of clip
    rectangles to the integer the call returns. */
module Dispatch {
  import opened Regions
  import opened Wrappers

  const EINVAL: int := 22
  const ENOSYS: int := 38
  const ENOMEM: int := 12

  /** drmModeClip: four unsigned shorts. */
  datatype Clip = Clip(x1: int, y1: int, x2: int, y2: int)

  /** Conversion to unsigned short (C keeps the value modulo 2^16). */
  function U16(v: int): (u: int)
    ensures 0 <= u < 0x1_0000
    ensures 0 <= v < 0x1_0000 ==> u == v
  {
    v % 0x1_0000
  }

  /** A region box copied field by field into a clip. */
  function ClipOf(b: Box): Clip {
    Clip(U16(b.x1), U16(b.y1), U16(b.x2), U16(b.y2))
  }

  /** The clip array built from the boxes of a region, in the same order. */
  function Clips(region: seq<Box>): (clips: seq<Clip>)
    ensures |clips| == |region|
    ensures forall k | 0 <= k < |region| :: clips[k] == ClipOf(region[k])
  {
    seq(|region|, k requires 0 <= k < |region| => ClipOf(region[k]))
  }

  /** drmModeDirtyFB(fd, fb_id, clips, n). */
  type Kernel = (int, seq<Clip>) -> int

  /** One call of drmModeDirtyFB, as the kernel saw it. */
  datatype Submission = Submission(fb: int, clips: seq<Clip>)

  function Submitted(fb: int, calls: seq<seq<Clip>>): (subs: seq<Submission>)
    ensures |subs| == |calls|
    ensures forall k | 0 <= k < |calls| :: subs[k] == Submission(fb, calls[k])
  {
    seq(|calls|, k requires 0 <= k < |calls| => Submission(fb, calls[k]))
  }

  lemma SubmittedAppend(fb: int, calls: seq<seq<Clip>>, c: seq<Clip>)
    ensures Submitted(fb, calls + [c]) == Submitted(fb, calls) + [Submission(fb, c)]
  {
  }

  /** A log that already holds the first call, extended by the others,
      holds all of them. */
  lemma SubmittedCons(log: seq<Submission>, fb: int, calls: seq<seq<Clip>>)
    requires calls != []
    ensures (log + [Submission(fb, calls[0])]) + Submitted(fb, calls[1..]) == log + Submitted(fb, calls)
  {
    assert Submitted(fb, calls) == [Submission(fb, calls[0])] + Submitted(fb, calls[1..]);
  }

  /** What a submission did: the value returned and the calls made, each
      given by its clip list. */
  datatype Outcome = Outcome(ret: int, calls: seq<seq<Clip>>)

  /** The one-at-a-time fallback from clip `i` on, after `calls` have been
      made and `ret` was the last result: stop after the first negative
      result, or when the clips run out. */
  function Retry(kernel: Kernel, fb: int, clips: seq<Clip>, i: nat, calls: seq<seq<Clip>>, ret: int): Outcome
    requires i <= |clips|
    decreases |clips| - i
  {
    if i == |clips| then Outcome(ret, calls)
    else
      var r := kernel(fb, [clips[i]]);
      if r < 0 then Outcome(r, calls + [[clips[i]]])
      else Retry(kernel, fb, clips, i + 1, calls + [[clips[i]]], r)
  }

  /** The kernel part of dispatch_dirty_region: nothing for no clips;
      otherwise the whole batch, and the fallback exactly when the batch
      is refused with -EINVAL. */
  function Dispatch(kernel: Kernel, fb: int, clips: seq<Clip>): Outcome
  {
    if clips == [] then Outcome(0, [])
    else
      var batch := kernel(fb, clips);
      if batch != -EINVAL then Outcome(batch, [clips])
      else Retry(kernel, fb, clips, 0, [clips], batch)
  }

  /** The two cases of a non-empty dispatch. */
  lemma DispatchSteps(kernel: Kernel, fb: int, clips: seq<Clip>)
    requires clips != []
    ensures kernel(fb, clips) != -EINVAL ==> Dispatch(kernel, fb, clips) == Outcome(kernel(fb, clips), [clips])
    ensures kernel(fb, clips) == -EINVAL ==> Dispatch(kernel, fb, clips) == Retry(kernel, fb, clips, 0, [clips], -EINVAL)
  {
  }

  /** Calls made so far by the fallback: the batch, then clip 0, 1, ...
      singly, all accepted. */
  predicate SinglesPrefix(kernel: Kernel, fb: int, clips: seq<Clip>, calls: seq<seq<Clip>>) {
    |calls| >= 1 && |calls| <= |clips| + 1 && calls[0] == clips &&
    (forall k | 1 <= k < |calls| :: calls[k] == [clips[k - 1]]) &&
    (forall k | 1 <= k < |calls| - 1 :: kernel(fb, calls[k]) >= 0)
  }

  /** What the fallback leaves behind when started after `calls`: it only
      extends them (by at least one call when clips remain), keeps them a
      prefix of singles in index order with every single but the last
      accepted, returns the last call's result, and either sends every clip
      or ends on a negative result. */
  predicate RetryEnds(kernel: Kernel, fb: int, clips: seq<Clip>, i: nat, calls: seq<seq<Clip>>, o: Outcome) {
    SinglesPrefix(kernel, fb, clips, o.calls) &&
    |calls| <= |o.calls| && o.calls[..|calls|] == calls &&
    (i < |clips| ==> |calls| < |o.calls|) &&
    (|o.calls| > 1 ==> o.ret == kernel(fb, o.calls[|o.calls| - 1])) &&
    (|o.calls| == |clips| + 1 || o.ret < 0)
  }

  lemma PrefixExtends(kernel: Kernel, fb: int, clips: seq<Clip>, i: nat, calls: seq<seq<Clip>>)
    requires i < |clips| && |calls| == i + 1
    requires SinglesPrefix(kernel, fb, clips, calls)
    requires i > 0 ==> kernel(fb, calls[i]) >= 0
    ensures SinglesPrefix(kernel, fb, clips, calls + [[clips[i]]])
  {
  }

  /** The fallback, from any point it can reach, ends as RetryEnds says. */
  lemma {:induction false} RetryShape(kernel: Kernel, fb: int, clips: seq<Clip>, i: nat, calls: seq<seq<Clip>>, ret: int)
    requires i <= |clips| && |calls| == i + 1
    requires SinglesPrefix(kernel, fb, clips, calls)
    requires i > 0 ==> kernel(fb, calls[i]) >= 0 && ret == kernel(fb, calls[i])
    ensures RetryEnds(kernel, fb, clips, i, calls, Retry(kernel, fb, clips, i, calls, ret))
    decreases |clips| - i
  {
    if i < |clips| {
      var r := kernel(fb, [clips[i]]);
      var next := calls + [[clips[i]]];
      assert next[..|calls|] == calls;
      PrefixExtends(kernel, fb, clips, i, calls);
      if r >= 0 {
        RetryShape(kernel, fb, clips, i + 1, next, r);
        var o := Retry(kernel, fb, clips, i + 1, next, r);
        assert o.calls[..|calls|] == o.calls[..|next|][..|calls|];
      }
    }
  }

  /** The submission policy of dispatch_dirty_region: the batch goes first;
      more calls follow exactly when it is refused with -EINVAL; they send
      the clips one at a time in index order, each accepted one but the
      last; the result is that of the last call made; and the fallback
      either sends every clip or ends on a negative result. */
  lemma DispatchPolicy(kernel: Kernel, fb: int, clips: seq<Clip>)
    requires clips != []
    ensures var o := Dispatch(kernel, fb, clips);
      1 <= |o.calls| <= |clips| + 1 && o.calls[0] == clips &&
      (|o.calls| > 1 <==> kernel(fb, clips) == -EINVAL) &&
      (forall k | 1 <= k < |o.calls| :: o.calls[k] == [clips[k - 1]]) &&
      (forall k | 1 <= k < |o.calls| - 1 :: kernel(fb, o.calls[k]) >= 0) &&
      o.ret == kernel(fb, o.calls[|o.calls| - 1]) &&
      (|o.calls| > 1 ==> |o.calls| == |clips| + 1 || o.ret < 0)
  {
    if kernel(fb, clips) == -EINVAL {
      RetryShape(kernel, fb, clips, 0, [clips], -EINVAL);
    }
  }

  /** A kernel that refuses the batch with -EINVAL but accepts every single
      clip receives the batch and then each clip once, and the region is
      reported as submitted. */
  lemma FallbackSendsEveryClip(kernel: Kernel, fb: int, clips: seq<Clip>)
    requires clips != [] && kernel(fb, clips) == -EINVAL
    requires forall k | 0 <= k < |clips| :: kernel(fb, [clips[k]]) >= 0
    ensures var o := Dispatch(kernel, fb, clips);
      |o.calls| == |clips| + 1 && o.ret >= 0 &&
      forall k | 1 <= k < |o.calls| :: o.calls[k] == [clips[k - 1]]
  {
    DispatchPolicy(kernel, fb, clips);
    var o := Dispatch(kernel, fb, clips);
    assert o.calls[|o.calls| - 1] == [clips[|o.calls| - 2]];
  }

  /** Any result of the batch other than -EINVAL, including -ENOSYS, is
      final: one call, and its result is returned. */
  lemma NoFallbackUnlessInvalid(kernel: Kernel, fb: int, clips: seq<Clip>)
    requires clips != [] && kernel(fb, clips) != -EINVAL
    ensures Dispatch(kernel, fb, clips) == Outcome(kernel(fb, clips), [clips])
  {
  }

  /** dispatch_dirty_region on a whole damage region: what it returns, the
      calls it makes and the damage it leaves behind.  `allocOk` is the
      outcome of allocating the clip array. */
  datatype RegionOutcome = RegionOutcome(ret: int, calls: seq<seq<Clip>>, rest: seq<Box>)

  function DispatchRegion(kernel: Kernel, fb: int, region: seq<Box>, allocOk: bool): (o: RegionOutcome)
    ensures region == [] ==> o == RegionOutcome(0, [], region)
    ensures region != [] && !allocOk ==> o == RegionOutcome(-ENOMEM, [], region)
    ensures region != [] && allocOk ==> o.rest == [] && o.calls != [] && o.calls[0] == Clips(region)
    ensures region != [] && allocOk ==>
              o.ret == Dispatch(kernel, fb, Clips(region)).ret && o.calls == Dispatch(kernel, fb, Clips(region)).calls
  {
    if region == [] then RegionOutcome(0, [], region)
    else if !allocOk then RegionOutcome(-ENOMEM, [], region)
    else
      var d := Dispatch(kernel, fb, Clips(region));
      DispatchPolicy(kernel, fb, Clips(region));
      RegionOutcome(d.ret, d.calls, [])
  }

  /** Once a call has been made the damage is emptied, whatever the kernel
      answered; when no call was made it is kept. */
  lemma DamageEmptiedIffSubmitted(kernel: Kernel, fb: int, region: seq<Box>, allocOk: bool)
    ensures var o := DispatchRegion(kernel, fb, region, allocOk);
      (o.calls != [] <==> region != [] && allocOk) &&
      (o.calls != [] ==> o.rest == []) && (o.calls == [] ==> o.rest == region)
  {
  }

  /** dispatch_dirty turns these two results into a permanent disable. */
  predicate Disables(ret: int) {
    ret == -EINVAL || ret == -ENOSYS
  }

  /** A kernel without dirty-rectangle support (-ENOSYS for every call)
      makes a non-empty dispatch disable kernel dirty updates; an empty
      one never does. */
  lemma UnsupportedKernelDisables(kernel: Kernel, fb: int, region: seq<Box>)
    requires forall clips: seq<Clip> :: kernel(fb, clips) == -ENOSYS
    ensures Disables(DispatchRegion(kernel, fb, region, true).ret) <==> region != []
  {
  }

  // ---------------------------------------------------------------------
  // dispatch_slave_dirty: the PRIME scanout pixmaps of every CRTC.

  type PixmapId = nat

  /** A CRTC as dispatch_slave_dirty sees it: without a driver private, or
      with its optional front and back PRIME pixmaps. */
  datatype Crtc = NoPrivate | Crtc(prime: Option<PixmapId>, primeBack: Option<PixmapId>)

  /** The part of a pixmap's private that kernel dispatch uses: its
      framebuffer and the damage recorded on it (fb_id, slave_damage). */
  datatype Scanout = Scanout(fb: int, damage: seq<Box>)

  /** Driver privates start zeroed. */
  function ScanoutOf(scanout: map<PixmapId, Scanout>, p: PixmapId): Scanout {
    if p in scanout then scanout[p] else Scanout(0, [])
  }

  /** The state slave dispatch changes: the scanout privates and the calls
      made so far. */
  datatype SlaveState = SlaveState(scanout: map<PixmapId, Scanout>, submitted: seq<Submission>)

  /** dispatch_dirty_pixmap: submit the pixmap's damage to its framebuffer;
      the result is dropped.  `allocOk` is the outcome of this call's clip
      allocation. */
  function DispatchPixmap(kernel: Kernel, s: SlaveState, p: PixmapId, allocOk: bool): (r: SlaveState)
    ensures forall q | q != p :: ScanoutOf(r.scanout, q) == ScanoutOf(s.scanout, q)
    ensures ScanoutOf(r.scanout, p).fb == ScanoutOf(s.scanout, p).fb
    ensures allocOk ==> ScanoutOf(r.scanout, p).damage == []
    ensures ScanoutOf(s.scanout, p).damage == [] || !allocOk ==>
              r.submitted == s.submitted && ScanoutOf(r.scanout, p) == ScanoutOf(s.scanout, p)
  {
    var sc := ScanoutOf(s.scanout, p);
    var o := DispatchRegion(kernel, sc.fb, sc.damage, allocOk);
    SlaveState(s.scanout[p := sc.(damage := o.rest)], s.submitted + Submitted(sc.fb, o.calls))
  }

  /** What one pixmap dispatch submits: only calls to the pixmap's own
      framebuffer, appended after the earlier ones; none when it has no
      damage or its clips cannot be allocated; otherwise the calls of
      `Dispatch` on its damage, starting with all of its clips. */
  lemma PixmapSubmissions(kernel: Kernel, s: SlaveState, p: PixmapId, allocOk: bool)
    ensures var r := DispatchPixmap(kernel, s, p, allocOk);
      |s.submitted| <= |r.submitted| && r.submitted[..|s.submitted|] == s.submitted &&
      forall k | |s.submitted| <= k < |r.submitted| :: r.submitted[k].fb == ScanoutOf(s.scanout, p).fb
    ensures var r := DispatchPixmap(kernel, s, p, allocOk);
      var sc := ScanoutOf(s.scanout, p);
      sc.damage != [] && allocOk ==>
        r.submitted == s.submitted + Submitted(sc.fb, Dispatch(kernel, sc.fb, Clips(sc.damage)).calls) &&
        |r.submitted| > |s.submitted| && r.submitted[|s.submitted|] == Submission(sc.fb, Clips(sc.damage))
  {
    var r := DispatchPixmap(kernel, s, p, allocOk);
    var sc := ScanoutOf(s.scanout, p);
    var o := DispatchRegion(kernel, sc.fb, sc.damage, allocOk);
    assert r.submitted == s.submitted + Submitted(sc.fb, o.calls);
    assert r.submitted[..|s.submitted|] == s.submitted;
  }

  /** The loop body of dispatch_slave_dirty for CRTC number `k`; each of
      its two dispatches allocates its own clip array, whose outcome is
      `alloc(k, back)`. */
  function DispatchCrtc(kernel: Kernel, s: SlaveState, c: Crtc, k: nat, alloc: (nat, bool) -> bool): SlaveState {
    match c
    case NoPrivate => s
    case Crtc(prime, back) =>
      var s1 := if prime.Some? then DispatchPixmap(kernel, s, prime.value, alloc(k, false)) else s;
      if back.Some? then DispatchPixmap(kernel, s1, back.value, alloc(k, true)) else s1
  }

  /** dispatch_slave_dirty from CRTC `c` on. */
  function DispatchSlaves(kernel: Kernel, s: SlaveState, crtcs: seq<Crtc>, c: nat, alloc: (nat, bool) -> bool): SlaveState
    requires c <= |crtcs|
    decreases |crtcs| - c
  {
    if c == |crtcs| then s
    else DispatchSlaves(kernel, DispatchCrtc(kernel, s, crtcs[c], c, alloc), crtcs, c + 1, alloc)
  }

  /** A pixmap some CRTC from `c` on scans out from. */
  predicate ScannedOut(crtcs: seq<Crtc>, c: nat, p: PixmapId) {
    exists k | c <= k < |crtcs| :: crtcs[k].Crtc? && (crtcs[k].prime == Some(p) || crtcs[k].primeBack == Some(p))
  }

  /** A pixmap dispatched from CRTC `c` on by a call whose clip allocation
      succeeds. */
  predicate Emptied(crtcs: seq<Crtc>, c: nat, alloc: (nat, bool) -> bool, p: PixmapId) {
    exists k | c <= k < |crtcs| ::
      crtcs[k].Crtc? && ((crtcs[k].prime == Some(p) && alloc(k, false)) || (crtcs[k].primeBack == Some(p) && alloc(k, true)))
  }

  /** Slave dispatch touches only the pixmaps the CRTCs scan out from and
      keeps every framebuffer.  A pixmap ends without damage when one of its
      dispatches could allocate its clips, and keeps its damage when none
      could. */
  lemma {:induction false} SlaveDispatchEmpties(kernel: Kernel, s: SlaveState, crtcs: seq<Crtc>, c: nat,
                                                alloc: (nat, bool) -> bool)
    requires c <= |crtcs|
    ensures var r := DispatchSlaves(kernel, s, crtcs, c, alloc);
      (forall p: PixmapId | !ScannedOut(crtcs, c, p) :: ScanoutOf(r.scanout, p) == ScanoutOf(s.scanout, p)) &&
      (forall p: PixmapId :: ScanoutOf(r.scanout, p).fb == ScanoutOf(s.scanout, p).fb) &&
      (forall p: PixmapId | Emptied(crtcs, c, alloc, p) :: ScanoutOf(r.scanout, p).damage == []) &&
      (forall p: PixmapId | !Emptied(crtcs, c, alloc, p) :: ScanoutOf(r.scanout, p).damage == ScanoutOf(s.scanout, p).damage)
    decreases |crtcs| - c
  {
    if c < |crtcs| {
      var s1 := DispatchCrtc(kernel, s, crtcs[c], c, alloc);
      SlaveDispatchEmpties(kernel, s1, crtcs, c + 1, alloc);
      var r := DispatchSlaves(kernel, s, crtcs, c, alloc);
      assert r == DispatchSlaves(kernel, s1, crtcs, c + 1, alloc);
      forall p: PixmapId | !ScannedOut(crtcs, c, p) ensures ScanoutOf(r.scanout, p) == ScanoutOf(s.scanout, p) {
        assert !ScannedOut(crtcs, c + 1, p);
      }
      forall p: PixmapId | Emptied(crtcs, c, alloc, p) ensures ScanoutOf(r.scanout, p).damage == [] {
        if !Emptied(crtcs, c + 1, alloc, p) {
          assert crtcs[c].Crtc? && ((crtcs[c].prime == Some(p) && alloc(c, false)) ||
                                    (crtcs[c].primeBack == Some(p) && alloc(c, true)));
          assert ScanoutOf(s1.scanout, p).damage == [];
        }
      }
      forall p: PixmapId | !Emptied(crtcs, c, alloc, p)
        ensures ScanoutOf(r.scanout, p).damage == ScanoutOf(s.scanout, p).damage
      {
        assert !Emptied(crtcs, c + 1, alloc, p);
        assert !(crtcs[c].Crtc? && ((crtcs[c].prime == Some(p) && alloc(c, false)) ||
                                    (crtcs[c].primeBack == Some(p) && alloc(c, true))));
      }
    }
  }

  /** One PRIME pixmap dispatch_slave_dirty visits: its CRTC, whether it is
      the back pixmap, and the pixmap. */
  datatype Slot = Slot(crtc: nat, back: bool, pix: PixmapId)

  /** The pixmaps of CRTC number `k`, the front one first. */
  function CrtcSlots(c: Crtc, k: nat): seq<Slot> {
    match c
    case NoPrivate => []
    case Crtc(prime, back) =>
      (if prime.Some? then [Slot(k, false, prime.value)] else []) +
      (if back.Some? then [Slot(k, true, back.value)] else [])
  }

  /** The pixmaps visited from CRTC `c` on, in visiting order. */
  function Slots(crtcs: seq<Crtc>, c: nat): seq<Slot>
    requires c <= |crtcs|
    decreases |crtcs| - c
  {
    if c == |crtcs| then [] else CrtcSlots(crtcs[c], c) + Slots(crtcs, c + 1)
  }

  /** No pixmap is visited twice. */
  predicate DistinctPixmaps(slots: seq<Slot>) {
    forall a, b | 0 <= a < b < |slots| :: slots[a].pix != slots[b].pix
  }

  /** The calls the visited pixmaps make one after the other, each from the
      damage and framebuffer it had before the walk. */
  function SlotCalls(kernel: Kernel, scanout: map<PixmapId, Scanout>, slots: seq<Slot>,
                     alloc: (nat, bool) -> bool): seq<Submission>
  {
    if slots == [] then []
    else
      var sc := ScanoutOf(scanout, slots[0].pix);
      Submitted(sc.fb, DispatchRegion(kernel, sc.fb, sc.damage, alloc(slots[0].crtc, slots[0].back)).calls) +
      SlotCalls(kernel, scanout, slots[1..], alloc)
  }

  lemma {:induction false} SlotCallsAppend(kernel: Kernel, scanout: map<PixmapId, Scanout>, a: seq<Slot>, b: seq<Slot>,
                                           alloc: (nat, bool) -> bool)
    ensures SlotCalls(kernel, scanout, a + b, alloc) == SlotCalls(kernel, scanout, a, alloc) + SlotCalls(kernel, scanout, b, alloc)
    decreases |a|
  {
    if a == [] {
      assert a + b == b;
    } else {
      assert (a + b)[0] == a[0] && (a + b)[1..] == a[1..] + b;
      SlotCallsAppend(kernel, scanout, a[1..], b, alloc);
    }
  }

  lemma {:induction false} SlotCallsAgree(kernel: Kernel, sa: map<PixmapId, Scanout>, sb: map<PixmapId, Scanout>,
                                          slots: seq<Slot>, alloc: (nat, bool) -> bool)
    requires forall k | 0 <= k < |slots| :: ScanoutOf(sa, slots[k].pix) == ScanoutOf(sb, slots[k].pix)
    ensures SlotCalls(kernel, sa, slots, alloc) == SlotCalls(kernel, sb, slots, alloc)
    decreases |slots|
  {
    if slots != [] {
      assert forall k | 0 <= k < |slots[1..]| :: slots[1..][k] == slots[k + 1];
      SlotCallsAgree(kernel, sa, sb, slots[1..], alloc);
    }
  }

  /** One pixmap's dispatch makes the calls of its visit. */
  lemma OneSlot(kernel: Kernel, s: SlaveState, slot: Slot, alloc: (nat, bool) -> bool)
    ensures DispatchPixmap(kernel, s, slot.pix, alloc(slot.crtc, slot.back)).submitted ==
              s.submitted + SlotCalls(kernel, s.scanout, [slot], alloc)
  {
    var sc := ScanoutOf(s.scanout, slot.pix);
    var x := Submitted(sc.fb, DispatchRegion(kernel, sc.fb, sc.damage, alloc(slot.crtc, slot.back)).calls);
    assert [slot][1..] == [];
    assert SlotCalls(kernel, s.scanout, [slot], alloc) == x + [];
    assert x + [] == x;
  }

  /** One CRTC's dispatches make the calls of its pixmaps, front first. */
  lemma CrtcSubmissions(kernel: Kernel, s: SlaveState, c: Crtc, k: nat, alloc: (nat, bool) -> bool)
    requires DistinctPixmaps(CrtcSlots(c, k))
    ensures DispatchCrtc(kernel, s, c, k, alloc).submitted == s.submitted + SlotCalls(kernel, s.scanout, CrtcSlots(c, k), alloc)
  {
    match c
    case NoPrivate =>
      assert SlotCalls(kernel, s.scanout, [], alloc) == [];
      assert s.submitted + [] == s.submitted;
    case Crtc(prime, back) =>
      var front: seq<Slot> := if prime.Some? then [Slot(k, false, prime.value)] else [];
      var rear: seq<Slot> := if back.Some? then [Slot(k, true, back.value)] else [];
      assert CrtcSlots(c, k) == front + rear;
      var s1 := AtMostOne(kernel, s, front, alloc);
      assert DispatchCrtc(kernel, s, c, k, alloc) == AtMostOne(kernel, s1, rear, alloc);
      AtMostOneCalls(kernel, s, front, alloc);
      AtMostOneCalls(kernel, s1, rear, alloc);
      if front != [] && rear != [] {
        assert (front + rear)[0].pix != (front + rear)[1].pix;
        assert ScanoutOf(s1.scanout, rear[0].pix) == ScanoutOf(s.scanout, rear[0].pix);
      }
      SlotCallsAgree(kernel, s1.scanout, s.scanout, rear, alloc);
      SlotCallsAppend(kernel, s.scanout, front, rear, alloc);
      LogAssoc(s.submitted, SlotCalls(kernel, s.scanout, front, alloc), SlotCalls(kernel, s.scanout, rear, alloc));
  }

  /** The dispatch of the one pixmap of `slots`, if there is one. */
  function AtMostOne(kernel: Kernel, s: SlaveState, slots: seq<Slot>, alloc: (nat, bool) -> bool): SlaveState {
    if slots == [] then s else DispatchPixmap(kernel, s, slots[0].pix, alloc(slots[0].crtc, slots[0].back))
  }

  lemma AtMostOneCalls(kernel: Kernel, s: SlaveState, slots: seq<Slot>, alloc: (nat, bool) -> bool)
    requires |slots| <= 1
    ensures AtMostOne(kernel, s, slots, alloc).submitted == s.submitted + SlotCalls(kernel, s.scanout, slots, alloc)
    ensures forall p: PixmapId | slots == [] || p != slots[0].pix ::
              ScanoutOf(AtMostOne(kernel, s, slots, alloc).scanout, p) == ScanoutOf(s.scanout, p)
  {
    if slots == [] {
      assert s.submitted + [] == s.submitted;
    } else {
      assert slots == [slots[0]];
      OneSlot(kernel, s, slots[0], alloc);
    }
  }

  /** One CRTC's dispatches change only the pixmaps it scans out from. */
  lemma CrtcKeepsOthers(kernel: Kernel, s: SlaveState, c: Crtc, k: nat, alloc: (nat, bool) -> bool)
    ensures forall p: PixmapId | !(p in SlotPixmaps(CrtcSlots(c, k))) ::
              ScanoutOf(DispatchCrtc(kernel, s, c, k, alloc).scanout, p) == ScanoutOf(s.scanout, p)
  {
    if c.Crtc? {
      var cs := CrtcSlots(c, k);
      assert c.prime.Some? ==> cs[0].pix == c.prime.value;
      assert c.primeBack.Some? ==> cs[|cs| - 1].pix == c.primeBack.value;
    }
  }

  lemma LogAssoc(a: seq<Submission>, b: seq<Submission>, c: seq<Submission>)
    ensures (a + b) + c == a + (b + c)
  {
  }

  /** The pixmaps of a list of visits. */
  function SlotPixmaps(slots: seq<Slot>): set<PixmapId> {
    set k | 0 <= k < |slots| :: slots[k].pix
  }

  /** One step of the walk. */
  lemma SlavesStep(kernel: Kernel, s: SlaveState, crtcs: seq<Crtc>, c: nat, alloc: (nat, bool) -> bool)
    requires c < |crtcs|
    ensures DispatchSlaves(kernel, s, crtcs, c, alloc) ==
              DispatchSlaves(kernel, DispatchCrtc(kernel, s, crtcs[c], c, alloc), crtcs, c + 1, alloc)
    ensures Slots(crtcs, c) == CrtcSlots(crtcs[c], c) + Slots(crtcs, c + 1)
  {
  }

  /** The halves of a list of visits without repeated pixmaps have none
      either, and share no pixmap. */
  lemma SplitDistinct(cs: seq<Slot>, rest: seq<Slot>)
    requires DistinctPixmaps(cs + rest)
    ensures DistinctPixmaps(cs) && DistinctPixmaps(rest)
    ensures forall k | 0 <= k < |rest| :: rest[k].pix !in SlotPixmaps(cs)
  {
    var all := cs + rest;
    forall a, b | 0 <= a < b < |cs| ensures cs[a].pix != cs[b].pix {
      assert all[a] == cs[a] && all[b] == cs[b];
    }
    forall a, b | 0 <= a < b < |rest| ensures rest[a].pix != rest[b].pix {
      assert all[|cs| + a] == rest[a] && all[|cs| + b] == rest[b];
    }
    forall k | 0 <= k < |rest| ensures rest[k].pix !in SlotPixmaps(cs) {
      forall a | 0 <= a < |cs| ensures cs[a].pix != rest[k].pix {
        assert all[a] == cs[a] && all[|cs| + k] == rest[k];
      }
    }
  }

  /** When no pixmap is scanned out twice, dispatch_slave_dirty makes the
      calls of every PRIME pixmap in turn, CRTC by CRTC and the front pixmap
      before the back one, each with its own framebuffer, its own damage
      and its own allocation outcome. */
  lemma {:induction false} SlaveSubmissions(kernel: Kernel, s: SlaveState, crtcs: seq<Crtc>, c: nat,
                                            alloc: (nat, bool) -> bool)
    requires c <= |crtcs|
    requires DistinctPixmaps(Slots(crtcs, c))
    ensures DispatchSlaves(kernel, s, crtcs, c, alloc).submitted ==
              s.submitted + SlotCalls(kernel, s.scanout, Slots(crtcs, c), alloc)
    decreases |crtcs| - c
  {
    if c < |crtcs| {
      var cs := CrtcSlots(crtcs[c], c);
      var rest := Slots(crtcs, c + 1);
      SplitDistinct(cs, rest);
      var s1 := DispatchCrtc(kernel, s, crtcs[c], c, alloc);
      SlavesStep(kernel, s, crtcs, c, alloc);
      CrtcSubmissions(kernel, s, crtcs[c], c, alloc);
      CrtcKeepsOthers(kernel, s, crtcs[c], c, alloc);
      SlotCallsAgree(kernel, s1.scanout, s.scanout, rest, alloc);
      SlaveSubmissions(kernel, s1, crtcs, c + 1, alloc);
      SlotCallsAppend(kernel, s.scanout, cs, rest, alloc);
      var a := SlotCalls(kernel, s.scanout, cs, alloc);
      var b := SlotCalls(kernel, s.scanout, rest, alloc);
      LogAssoc(s.submitted, a, b);
    }
  }
}
