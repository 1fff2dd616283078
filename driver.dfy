/** The damage-propagation part of src/driver.c, as a class: one screen of
    the modesetting driver (modesettingRec together with the ScreenRec
    fields it uses), whose methods are the driver's functions.

    The kernel (drmModeDirtyFB) and drmmode_SharedPixmapPresentOnVBlank are
    oracles fixed at construction; memory allocation and the X server's
    PixmapStart/StopDirtyTracking report their outcome through boolean
    parameters. */
module Driver {
  import opened Regions
  import opened Wrappers
  import D = Dispatch
  import T = Tracking

  /** The CRTC has both a front and a back PRIME pixmap. */
  predicate Flipping(c: D.Crtc) {
    c.Crtc? && c.prime.Some? && c.primeBack.Some?
  }

  /** The vblank presents msSharedPixmapNotifyDamage schedules for pixmap
      `p` on CRTCs 0 .. n-1. */
  function PresentCalls(crtcs: seq<D.Crtc>, p: nat, n: nat): seq<T.Event>
    requires n <= |crtcs|
  {
    if n == 0 then []
    else PresentCalls(crtcs, p, n - 1) + (if Flipping(crtcs[n - 1]) then [T.PresentOnVBlank(p, n - 1)] else [])
  }

  /** The first entry of the list with the given id. */
  function IndexOfId(list: seq<T.Ent>, id: nat): (k: nat)
    requires exists j | 0 <= j < |list| :: list[j].id == id
    ensures k < |list| && list[k].id == id
  {
    if list[0].id == id then 0
    else
      assert exists j | 0 <= j < |list[1..]| :: list[1..][j].id == id by {
        var j :| 0 <= j < |list| && list[j].id == id;
        assert list[1..][j - 1] == list[j];
      }
      1 + IndexOfId(list[1..], id)
  }

  /** The clip array of dispatch_dirty_region, filled box by box. */
  method CopyClips(region: seq<Box>) returns (clip: array<D.Clip>)
    ensures fresh(clip)
    ensures clip[..] == D.Clips(region)
  {
    clip := new D.Clip[|region|];
    var i := 0;
    while i < |region|
      invariant 0 <= i <= |region|
      invariant clip[..i] == D.Clips(region)[..i]
    {
      clip[i] := D.ClipOf(region[i]);
      i := i + 1;
    }
  }

  class Screen {
    /** pScreen->isGPU */
    const isGPU: bool
    /** ms->drmmode.reverse_prime_offload_mode */
    const reverseOffload: bool
    /** ms->drmmode.glamor, in a build with GLAMOR_HAS_GBM */
    const glamor: bool
    /** slave_dst->master_pixmap */
    const masterOf: nat -> nat
    /** drmModeDirtyFB on ms->fd */
    const kernel: D.Kernel
    /** ms->drmmode.fb_id */
    const fbId: int
    /** The CRTCs of the screen's configuration. */
    const crtcs: seq<D.Crtc>
    /** What drmmode_SharedPixmapPresentOnVBlank answers for a pixmap and a CRTC. */
    const presentOnVBlank: (nat, nat) -> bool

    /** ms->dirty_enabled */
    var dirtyEnabled: bool
    /** ms->damage: its region, None for NULL. */
    var damage: Option<seq<Box>>
    /** Every drmModeDirtyFB call made, in order. */
    var submitted: seq<D.Submission>
    /** fb_id and slave_damage of each pixmap's private. */
    var scanout: map<nat, D.Scanout>
    /** pScreen->pixmap_dirty_list */
    var dirtyList: seq<T.Ent>
    /** The tracking fields of each pixmap's private. */
    var privs: map<nat, T.Priv>
    /** What the driver has asked of the X server, in order. */
    var events: seq<T.Event>
    /** The id the next dirty-tracking entry gets. */
    var nextEnt: nat

    function Cfg(): T.Config {
      T.Config(isGPU, glamor, masterOf)
    }

    function Slaves(): D.SlaveState
      reads this
    {
      D.SlaveState(scanout, submitted)
    }

    function State(timeout: Option<int>): T.Tracked
      reads this
    {
      T.Tracked(dirtyList, privs, events, timeout)
    }

    /** Dirty updates are only enabled with a damage record, entry ids are
        below the next one handed out, and no two entries share an id. */
    ghost predicate Valid()
      reads this
    {
      (dirtyEnabled ==> damage.Some?) &&
      (forall k | 0 <= k < |dirtyList| :: dirtyList[k].id < nextEnt) &&
      T.DistinctIds(dirtyList)
    }

    constructor (isGPU: bool, reverseOffload: bool, glamor: bool, masterOf: nat -> nat,
                 kernel: D.Kernel, fbId: int, crtcs: seq<D.Crtc>, presentOnVBlank: (nat, nat) -> bool)
      ensures Valid()
      ensures this.isGPU == isGPU && this.reverseOffload == reverseOffload && this.glamor == glamor
      ensures this.masterOf == masterOf && this.kernel == kernel && this.fbId == fbId
      ensures this.crtcs == crtcs && this.presentOnVBlank == presentOnVBlank
      ensures !dirtyEnabled && damage == None && submitted == [] && scanout == map[]
      ensures dirtyList == [] && privs == map[] && events == [] && nextEnt == 0
    {
      this.isGPU := isGPU;
      this.reverseOffload := reverseOffload;
      this.glamor := glamor;
      this.masterOf := masterOf;
      this.kernel := kernel;
      this.fbId := fbId;
      this.crtcs := crtcs;
      this.presentOnVBlank := presentOnVBlank;
      dirtyEnabled := false;
      damage := None;
      submitted := [];
      scanout := map[];
      dirtyList := [];
      privs := map[];
      events := [];
      nextEnt := 0;
    }

    /** The probe in CreateScreenResources: an empty dirty call; unless it
        answers -EINVAL or -ENOSYS, a damage record is created (`damageOk`
        is DamageCreate's outcome) and dirty updates are enabled, and a
        failure to create it fails screen-resource creation. */
    method ProbeDirty(damageOk: bool) returns (ok: bool)
      requires Valid()
      modifies this`submitted, this`damage, this`dirtyEnabled
      ensures Valid()
      ensures submitted == old(submitted) + [D.Submission(fbId, [])]
      ensures D.Disables(kernel(fbId, [])) ==>
                ok && dirtyEnabled == old(dirtyEnabled) && damage == old(damage)
      ensures !D.Disables(kernel(fbId, [])) ==>
                ok == damageOk &&
                (damageOk ==> dirtyEnabled && damage == Some([])) &&
                (!damageOk ==> dirtyEnabled == old(dirtyEnabled) && damage == old(damage))
    {
      var err := kernel(fbId, []);
      submitted := submitted + [D.Submission(fbId, [])];
      ok := true;
      if err != -D.EINVAL && err != -D.ENOSYS {
        if damageOk {
          damage := Some([]);
          dirtyEnabled := true;
        } else {
          ok := false;
        }
      }
    }

    /** dispatch_dirty_region: copy the region's boxes into a clip array,
        submit them as one batch, fall back to one clip at a time on
        -EINVAL, and empty the damage once something was submitted.
        `rest` is the damage left afterwards; `allocOk` is the outcome of
        allocating the clip array. */
    method DispatchDirtyRegion(region: seq<Box>, fb: int, allocOk: bool) returns (ret: int, rest: seq<Box>)
      modifies this`submitted
      ensures var o := D.DispatchRegion(kernel, fb, region, allocOk);
        ret == o.ret && rest == o.rest && submitted == old(submitted) + D.Submitted(fb, o.calls)
    {
      ret := 0;
      rest := region;
      if |region| != 0 {
        if !allocOk {
          return -D.ENOMEM, region;
        }
        var clip := CopyClips(region);
        ghost var calls;
        ret, calls := DispatchClips(clip, fb);
        rest := [];
      }
    }

    /** The kernel part of dispatch_dirty_region for a non-empty clip
        array: the batch, then the fallback on -EINVAL. */
    method DispatchClips(clip: array<D.Clip>, fb: int) returns (ret: int, ghost calls: seq<seq<D.Clip>>)
      requires clip.Length > 0
      modifies this`submitted
      ensures D.Dispatch(kernel, fb, clip[..]) == D.Outcome(ret, calls)
      ensures submitted == old(submitted) + D.Submitted(fb, calls)
    {
      ghost var before := submitted;
      ret := kernel(fb, clip[..]);
      submitted := submitted + [D.Submission(fb, clip[..])];
      calls := [clip[..]];
      D.DispatchSteps(kernel, fb, clip[..]);
      if ret == -D.EINVAL {
        ret, calls := RetrySingly(clip, fb);
        D.SubmittedCons(before, fb, calls);
      } else {
        D.SubmittedCons(before, fb, calls);
      }
    }

    /** The one-at-a-time fallback of dispatch_dirty_region: each clip in
        index order, stopping after the first negative result.  `calls` are
        all the calls of the dispatch, the refused batch included. */
    method RetrySingly(clip: array<D.Clip>, fb: int) returns (ret: int, ghost calls: seq<seq<D.Clip>>)
      modifies this`submitted
      ensures D.Retry(kernel, fb, clip[..], 0, [clip[..]], -D.EINVAL) == D.Outcome(ret, calls)
      ensures |calls| >= 1 && calls[0] == clip[..]
      ensures submitted == old(submitted) + D.Submitted(fb, calls[1..])
    {
      var clips := clip[..];
      var n := clip.Length;
      calls := [clips];
      ret := -D.EINVAL;
      var i := 0;
      while i < n
        invariant 0 <= i <= n && |calls| == i + 1 && calls[0] == clips
        invariant D.Retry(kernel, fb, clips, 0, [clips], -D.EINVAL) == D.Retry(kernel, fb, clips, i, calls, ret)
        invariant submitted == old(submitted) + D.Submitted(fb, calls[1..])
      {
        assert clip[i..i + 1] == [clips[i]];
        ret := kernel(fb, clip[i..i + 1]);
        D.SubmittedAppend(fb, calls[1..], [clips[i]]);
        submitted := submitted + [D.Submission(fb, [clips[i]])];
        assert (calls + [[clips[i]]])[1..] == calls[1..] + [[clips[i]]];
        calls := calls + [[clips[i]]];
        if ret < 0 {
          break;
        }
        i := i + 1;
      }
    }

    /** dispatch_dirty: submit the screen damage; a -EINVAL or -ENOSYS
        result disables kernel dirty updates for good and drops the damage
        record. */
    method DispatchDirty(allocOk: bool)
      requires Valid() && damage.Some?
      modifies this`submitted, this`damage, this`dirtyEnabled
      ensures Valid()
      ensures var o := D.DispatchRegion(kernel, fbId, old(damage).value, allocOk);
        submitted == old(submitted) + D.Submitted(fbId, o.calls) &&
        (D.Disables(o.ret) ==> !dirtyEnabled && damage == None) &&
        (!D.Disables(o.ret) ==> dirtyEnabled == old(dirtyEnabled) && damage == Some(o.rest))
    {
      var ret, rest := DispatchDirtyRegion(damage.value, fbId, allocOk);
      damage := Some(rest);
      if ret == -D.EINVAL || ret == -D.ENOSYS {
        dirtyEnabled := false;
        damage := None;
      }
    }

    /** dispatch_dirty_pixmap: submit a PRIME pixmap's damage to its own
        framebuffer. */
    method DispatchDirtyPixmap(p: nat, allocOk: bool)
      modifies this`scanout, this`submitted
      ensures Slaves() == D.DispatchPixmap(kernel, old(Slaves()), p, allocOk)
    {
      var sc := D.ScanoutOf(scanout, p);
      var _, rest := DispatchDirtyRegion(sc.damage, sc.fb, allocOk);
      scanout := scanout[p := sc.(damage := rest)];
    }

    /** dispatch_slave_dirty: every CRTC with a driver private, front PRIME
        pixmap first, then the back one. */
    method DispatchSlaveDirty(alloc: (nat, bool) -> bool)
      modifies this`scanout, this`submitted
      ensures Slaves() == D.DispatchSlaves(kernel, old(Slaves()), crtcs, 0, alloc)
    {
      var c := 0;
      while c < |crtcs|
        invariant 0 <= c <= |crtcs|
        invariant D.DispatchSlaves(kernel, old(Slaves()), crtcs, 0, alloc) ==
                  D.DispatchSlaves(kernel, Slaves(), crtcs, c, alloc)
      {
        var crtc := crtcs[c];
        if crtc.Crtc? {
          if crtc.prime.Some? {
            DispatchDirtyPixmap(crtc.prime.value, alloc(c, false));
          }
          if crtc.primeBack.Some? {
            DispatchDirtyPixmap(crtc.primeBack.value, alloc(c, true));
          }
        }
        c := c + 1;
      }
    }

    /** redisplay_dirty: have the X server copy the entry's damage into its
        slave pixmap; on a master screen wait for glamor and zero the
        timeout when there is one. */
    method RedisplayDirty(e: T.Ent, timeout: Option<int>) returns (t: Option<int>)
      modifies this`events
      ensures events == old(events) + T.RedisplayEvents(Cfg(), e)
      ensures t == T.RedisplayTimeout(Cfg(), timeout)
    {
      events := events + [T.RegionAppend(e.dst), T.SyncDirty(e.id)];
      t := timeout;
      if !isGPU {
        if glamor {
          events := events + [T.GlamorFinish];
        }
        if timeout.Some? {
          t := Some(0);
        }
      }
      events := events + [T.ProcessPending(e.dst)];
    }

    /** ms_dirty_update: one pass over the screen's dirty list. */
    method DirtyUpdate(timeout: Option<int>) returns (t: Option<int>)
      modifies this`dirtyList, this`privs, this`events
      ensures State(t) == T.DirtyUpdate(Cfg(), old(State(timeout)))
      ensures T.SameEntries(old(dirtyList), dirtyList)
    {
      t := timeout;
      var n := |dirtyList|;
      var i := 0;
      while i < n
        invariant 0 <= i <= n && |dirtyList| == n
        invariant T.UpdateFrom(Cfg(), old(State(timeout)), 0) == T.UpdateFrom(Cfg(), State(t), i)
      {
        ghost var before := State(t);
        var ent := dirtyList[i];
        if ent.damage != [] {
          var m := masterOf(ent.dst);
          var p := T.PrivOf(privs, m);
          if !isGPU && p.notifyOnDamage {
            privs := privs[m := p.(notifyOnDamage := false)];
            events := events + [T.NotifyDamage(ent.dst)];
          }
          if isGPU || !p.deferDirtyUpdate {
            t := RedisplayDirty(ent, t);
            dirtyList := dirtyList[i := ent.(damage := [])];
          }
        }
        assert State(t) == T.Visit(Cfg(), before, i);
        i := i + 1;
      }
      T.UpdateDamage(Cfg(), old(State(timeout)), 0);
    }

    /** msBlockHandler: run the wrapped handler, then push damage to the
        kernel (the PRIME pixmaps of a GPU screen outside reverse-PRIME
        offload, else the screen damage while dirty updates are enabled),
        then always update the shared pixmaps.  `allocOk` is the outcome of
        the screen dispatch's clip allocation, `slaveAlloc(c, back)` that of
        the dispatch of CRTC `c`'s front or back PRIME pixmap. */
    method BlockHandler(timeout: Option<int>, allocOk: bool, slaveAlloc: (nat, bool) -> bool) returns (t: Option<int>)
      requires Valid()
      modifies this
      ensures Valid()
      ensures State(t) == T.DirtyUpdate(Cfg(), T.Tracked(old(dirtyList), old(privs),
                                                         old(events) + [T.WrappedBlockHandler], timeout))
      ensures nextEnt == old(nextEnt)
      ensures dirtyEnabled ==> old(dirtyEnabled)
      ensures isGPU && !reverseOffload ==>
                Slaves() == D.DispatchSlaves(kernel, old(Slaves()), crtcs, 0, slaveAlloc) &&
                dirtyEnabled == old(dirtyEnabled) && damage == old(damage)
      ensures !(isGPU && !reverseOffload) ==> scanout == old(scanout)
      ensures !(isGPU && !reverseOffload) && old(dirtyEnabled) ==>
                var o := D.DispatchRegion(kernel, fbId, old(damage).value, allocOk);
                submitted == old(submitted) + D.Submitted(fbId, o.calls) &&
                (D.Disables(o.ret) ==> !dirtyEnabled && damage == None) &&
                (!D.Disables(o.ret) ==> dirtyEnabled && damage == Some(o.rest))
      ensures !(isGPU && !reverseOffload) && !old(dirtyEnabled) ==>
                submitted == old(submitted) && damage == old(damage) && !dirtyEnabled
    {
      events := events + [T.WrappedBlockHandler];
      if isGPU && !reverseOffload {
        DispatchSlaveDirty(slaveAlloc);
      } else if dirtyEnabled {
        DispatchDirty(allocOk);
      }
      t := DirtyUpdate(timeout);
    }

    /** PixmapStartDirtyTracking (X server): on success a new entry for
        `src` and `dst` is put at the head of the dirty list, with the
        damage the server starts it with. */
    method StartDirtyTracking(src: nat, dst: nat, initial: seq<Box>, ok: bool) returns (r: bool)
      requires Valid()
      modifies this`dirtyList, this`nextEnt
      ensures Valid()
      ensures r == ok
      ensures ok ==> dirtyList == [T.Ent(old(nextEnt), src, dst, initial)] + old(dirtyList) &&
                     nextEnt == old(nextEnt) + 1
      ensures !ok ==> dirtyList == old(dirtyList) && nextEnt == old(nextEnt)
    {
      r := ok;
      if ok {
        dirtyList := [T.Ent(nextEnt, src, dst, initial)] + dirtyList;
        nextEnt := nextEnt + 1;
      }
    }

    /** PixmapStopDirtyTracking (X server): on success every entry for `src`
        and `dst` leaves the dirty list. */
    method StopDirtyTracking(src: nat, dst: nat, ok: bool) returns (r: bool)
      requires Valid()
      modifies this`dirtyList
      ensures Valid()
      ensures r == ok
      ensures dirtyList == if ok then T.Untrack(old(dirtyList), src, dst) else old(dirtyList)
    {
      r := ok;
      if ok {
        dirtyList := T.Untrack(dirtyList, src, dst);
        forall k | 0 <= k < |dirtyList| ensures dirtyList[k].id < nextEnt {
          assert dirtyList[k] in old(dirtyList);
        }
        T.UntrackKeepsDistinct(old(dirtyList), src, dst);
      }
    }

    /** msStartFlippingPixmapTracking: both slave pixmaps or neither.  When
        the second start fails the first is stopped again (`rollbackOk` is
        that stop's outcome) and no private changes; on success each
        master's private records the source, its dirty entry and that
        updates wait for an explicit present. */
    method StartFlippingPixmapTracking(src: nat, dst1: nat, dst2: nat, initial: seq<Box>,
                                       ok1: bool, ok2: bool, rollbackOk: bool) returns (r: bool)
      requires Valid()
      modifies this`dirtyList, this`nextEnt, this`privs
      ensures Valid()
      ensures r == (ok1 && ok2)
      ensures !r ==> privs == old(privs)
      ensures !ok1 ==> dirtyList == old(dirtyList)
      ensures ok1 && !ok2 ==>
                var started := [T.Ent(old(nextEnt), src, dst1, initial)] + old(dirtyList);
                dirtyList == if rollbackOk then T.Untrack(started, src, dst1) else started
      ensures r ==> dirtyList == [T.Ent(old(nextEnt) + 1, src, dst2, initial),
                                  T.Ent(old(nextEnt), src, dst1, initial)] + old(dirtyList)
      ensures r ==> privs == T.Attach(T.Attach(old(privs), masterOf(dst1), src,
                                               Some(if dst1 == dst2 then old(nextEnt) + 1 else old(nextEnt))),
                                      masterOf(dst2), src, Some(old(nextEnt) + 1))
    {
      r := StartDirtyTracking(src, dst1, initial, ok1);
      if !r {
        return;
      }
      r := StartDirtyTracking(src, dst2, initial, ok2);
      if !r {
        var _ := StopDirtyTracking(src, dst1, rollbackOk);
        return;
      }
      AttachPrivs(src, dst1, dst2);
    }

    /** The success path of msStartFlippingPixmapTracking, once both
        entries are at the head of the list: each master's private gets
        the source, the entry ms_dirty_get_ent finds for its slave pixmap,
        and defer_dirty_update. */
    method AttachPrivs(src: nat, dst1: nat, dst2: nat)
      requires |dirtyList| >= 2 && dirtyList[0].dst == dst2 && dirtyList[1].dst == dst1
      modifies this`privs
      ensures privs == T.Attach(T.Attach(old(privs), masterOf(dst1), src,
                                         Some(if dst1 == dst2 then dirtyList[0].id else dirtyList[1].id)),
                                masterOf(dst2), src, Some(dirtyList[0].id))
    {
      var e1 := T.GetEnt(dirtyList, dst1);
      var e2 := T.GetEnt(dirtyList, dst2);
      assert e2 == Some(dirtyList[0]);
      assert dst1 != dst2 ==> e1 == Some(dirtyList[1]);
      privs := T.Attach(privs, masterOf(dst1), src, T.EntId(e1));
      privs := T.Attach(privs, masterOf(dst2), src, T.EntId(e2));
    }

    /** msPresentSharedPixmap: the explicit pull of a deferred slave pixmap.
        Copy the entry's damage and empty it if there is any, and say so. */
    method PresentSharedPixmap(dst: nat) returns (r: bool)
      requires T.PrivOf(privs, masterOf(dst)).slaveSrc.Some?
      requires T.PrivOf(privs, masterOf(dst)).dirty.Some?
      requires exists j | 0 <= j < |dirtyList| :: dirtyList[j].id == T.PrivOf(privs, masterOf(dst)).dirty.value
      modifies this`dirtyList, this`events
      ensures var k := IndexOfId(old(dirtyList), T.PrivOf(privs, masterOf(dst)).dirty.value);
        var e := old(dirtyList)[k];
        r == (e.damage != []) &&
        (r ==> dirtyList == old(dirtyList)[k := e.(damage := [])] &&
               events == old(events) + T.RedisplayEvents(Cfg(), e)) &&
        (!r ==> dirtyList == old(dirtyList) && events == old(events))
    {
      var k := IndexOfId(dirtyList, T.PrivOf(privs, masterOf(dst)).dirty.value);
      var e := dirtyList[k];
      if e.damage != [] {
        var _ := RedisplayDirty(e, None);
        dirtyList := dirtyList[k := e.(damage := [])];
        return true;
      }
      return false;
    }

    /** msStopFlippingPixmapTracking: both stops are always attempted; the
        privates are cleared only when both succeed. */
    method StopFlippingPixmapTracking(src: nat, dst1: nat, dst2: nat, ok1: bool, ok2: bool) returns (r: bool)
      requires Valid()
      modifies this`dirtyList, this`privs
      ensures Valid()
      ensures r == (ok1 && ok2)
      ensures var l1 := if ok1 then T.Untrack(old(dirtyList), src, dst1) else old(dirtyList);
        dirtyList == if ok2 then T.Untrack(l1, src, dst2) else l1
      ensures !r ==> privs == old(privs)
      ensures r ==> privs == T.Detach(T.Detach(old(privs), masterOf(dst1)), masterOf(dst2))
    {
      var m1 := masterOf(dst1);
      var m2 := masterOf(dst2);
      var r1 := StopDirtyTracking(src, dst1, ok1);
      var r2 := StopDirtyTracking(src, dst2, ok2);
      r := r1 && r2;
      if r {
        privs := T.Detach(privs, m1);
        privs := T.Detach(privs, m2);
      }
    }

    /** msRequestSharedPixmapNotifyDamage: arm the one-shot notify on the
        master pixmap's private. */
    method RequestSharedPixmapNotifyDamage(p: nat) returns (r: bool)
      modifies this`privs
      ensures r
      ensures privs == old(privs)[masterOf(p) := T.PrivOf(old(privs), masterOf(p)).(notifyOnDamage := true)]
    {
      privs := privs[masterOf(p) := T.PrivOf(privs, masterOf(p)).(notifyOnDamage := true)];
      return true;
    }

    /** msSharedPixmapNotifyDamage: if the pixmap was waiting for damage,
        stop waiting and schedule a present on every CRTC that flips
        between two PRIME pixmaps; succeed when any of them does. */
    method SharedPixmapNotifyDamage(p: nat) returns (r: bool)
      modifies this`privs, this`events
      ensures r <==> T.PrivOf(old(privs), p).waitForDamage &&
                     exists c | 0 <= c < |crtcs| :: Flipping(crtcs[c]) && presentOnVBlank(p, c)
      ensures T.PrivOf(old(privs), p).waitForDamage ==>
                privs == old(privs)[p := T.PrivOf(old(privs), p).(waitForDamage := false)] &&
                events == old(events) + PresentCalls(crtcs, p, |crtcs|)
      ensures !T.PrivOf(old(privs), p).waitForDamage ==> privs == old(privs) && events == old(events)
    {
      r := false;
      var pp := T.PrivOf(privs, p);
      if !pp.waitForDamage {
        return;
      }
      privs := privs[p := pp.(waitForDamage := false)];
      var c := 0;
      while c < |crtcs|
        invariant 0 <= c <= |crtcs|
        invariant privs == old(privs)[p := pp.(waitForDamage := false)]
        invariant events == old(events) + PresentCalls(crtcs, p, c)
        invariant r <==> exists k | 0 <= k < c :: Flipping(crtcs[k]) && presentOnVBlank(p, k)
      {
        var crtc := crtcs[c];
        if crtc.Crtc? && crtc.prime.Some? && crtc.primeBack.Some? {
          var presented := presentOnVBlank(p, c);
          events := events + [T.PresentOnVBlank(p, c)];
          r := r || presented;
        }
        assert events == old(events) + PresentCalls(crtcs, p, c + 1);
        c := c + 1;
      }
    }
  }
}
