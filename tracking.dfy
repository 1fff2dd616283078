/** Shared-pixmap ("slave") dirty tracking in src/driver.c, specified as
    pure functions: the screen's pixmap_dirty_list, the per-pixmap private
    flags, and what one pass of ms_dirty_update does to them.

    The X server's own work (copying the damaged area into the slave
    pixmap, appending damage to it, flushing the GPU, notifying the slave
    screen) is recorded as a list of events in the order it is asked for. */
module Tracking {
  import opened Regions
  import opened Wrappers

  type PixmapId = nat
  type DrawableId = nat

  /** PixmapDirtyUpdateRec: one source drawable mirrored into one slave
      pixmap, with the damage not yet copied.  `id` stands for the entry's
      address. */
  datatype Ent = Ent(id: nat, src: DrawableId, dst: PixmapId, damage: seq<Box>)

  /** The tracking part of msPixmapPrivRec. */
  datatype Priv = Priv(slaveSrc: Option<DrawableId>, dirty: Option<nat>,
                       deferDirtyUpdate: bool, notifyOnDamage: bool, waitForDamage: bool)

  /** Driver privates start zeroed. */
  const NoPriv := Priv(None, None, false, false, false)

  function PrivOf(privs: map<PixmapId, Priv>, p: PixmapId): Priv {
    if p in privs then privs[p] else NoPriv
  }

  /** What the driver asks of the X server and of other screens. */
  datatype Event =
    | WrappedBlockHandler                       // the screen's previous BlockHandler
    | RegionAppend(dst: PixmapId)                // DamageRegionAppend on the slave pixmap
    | SyncDirty(ent: nat)                        // PixmapSyncDirtyHelper
    | GlamorFinish                               // ms->glamor.finish
    | ProcessPending(dst: PixmapId)              // DamageRegionProcessPending
    | NotifyDamage(dst: PixmapId)                // the slave screen's SharedPixmapNotifyDamage
    | PresentOnVBlank(pix: PixmapId, crtc: nat)  // drmmode_SharedPixmapPresentOnVBlank

  /** What a screen is: a GPU (slave) screen or not, whether glamor is in
      use, and the master pixmap of each slave pixmap. */
  datatype Config = Config(isGPU: bool, glamor: bool, masterOf: PixmapId -> PixmapId)

  /** The state ms_dirty_update works on, with the block timeout
      (None for a NULL pointer). */
  datatype Tracked = Tracked(list: seq<Ent>, privs: map<PixmapId, Priv>, events: seq<Event>,
                             timeout: Option<int>)

  /** ms_dirty_get_ent: the first entry of the list mirroring into `dst`. */
  function GetEnt(list: seq<Ent>, dst: PixmapId): (r: Option<Ent>)
    ensures r.None? <==> forall k | 0 <= k < |list| :: list[k].dst != dst
    ensures r.Some? ==> exists k | 0 <= k < |list| :: list[k] == r.value && r.value.dst == dst &&
                          forall j | 0 <= j < k :: list[j].dst != dst
  {
    if list == [] then None
    else if list[0].dst == dst then Some(list[0])
    else
      var r := GetEnt(list[1..], dst);
      assert forall k | 1 <= k < |list| :: list[k] == list[1..][k - 1];
      if r.Some? then
        var k :| 0 <= k < |list[1..]| && list[1..][k] == r.value && r.value.dst == dst &&
                  forall j | 0 <= j < k :: list[1..][j].dst != dst;
        assert list[k + 1] == r.value;
        r
      else r
  }

  /** The id of the entry ms_dirty_get_ent finds, as stored in a private. */
  function EntId(e: Option<Ent>): Option<nat> {
    if e.Some? then Some(e.value.id) else None
  }

  /** The events of redisplay_dirty for one entry: append the slave
      pixmap's area to its damage, copy, on a master screen with glamor
      wait for the GPU, then have the damage processed. */
  function RedisplayEvents(cfg: Config, e: Ent): (ev: seq<Event>)
    ensures forall k | 0 <= k < |ev| :: !ev[k].NotifyDamage?
    ensures forall m :: NotifyCount(cfg, ev, m) == 0
  {
    var ev := [RegionAppend(e.dst), SyncDirty(e.id)] +
              (if !cfg.isGPU && cfg.glamor then [GlamorFinish] else []) +
              [ProcessPending(e.dst)];
    assert forall m :: NotifyCount(cfg, ev, m) == 0 by {
      forall m ensures NotifyCount(cfg, ev, m) == 0 {
        NoNotify(cfg, ev, m);
      }
    }
    ev
  }

  /** The timeout after redisplay_dirty: zero on a master screen when
      there is one. */
  function RedisplayTimeout(cfg: Config, timeout: Option<int>): Option<int> {
    if !cfg.isGPU && timeout.Some? then Some(0) else timeout
  }

  /** How many NotifyDamage events name a slave pixmap of master `m`. */
  function NotifyCount(cfg: Config, ev: seq<Event>, m: PixmapId): nat {
    if ev == [] then 0
    else NotifyCount(cfg, ev[..|ev| - 1], m) +
         (if ev[|ev| - 1].NotifyDamage? && cfg.masterOf(ev[|ev| - 1].dst) == m then 1 else 0)
  }

  lemma {:induction false} NotifyCountAppend(cfg: Config, a: seq<Event>, b: seq<Event>, m: PixmapId)
    ensures NotifyCount(cfg, a + b, m) == NotifyCount(cfg, a, m) + NotifyCount(cfg, b, m)
    decreases |b|
  {
    if b != [] {
      assert (a + b)[..|a + b| - 1] == a + b[..|b| - 1];
      NotifyCountAppend(cfg, a, b[..|b| - 1], m);
    } else {
      assert a + b == a;
    }
  }

  lemma {:induction false} NoNotify(cfg: Config, ev: seq<Event>, m: PixmapId)
    requires forall k | 0 <= k < |ev| :: !ev[k].NotifyDamage?
    ensures NotifyCount(cfg, ev, m) == 0
    decreases |ev|
  {
    if ev != [] {
      NoNotify(cfg, ev[..|ev| - 1], m);
    }
  }

  /** The entry will be copied now: it has damage and is not held back for
      an explicit present (holding back only happens on a master screen). */
  predicate Redisplayed(cfg: Config, t: Tracked, k: nat)
    requires k < |t.list|
  {
    t.list[k].damage != [] &&
    !(!cfg.isGPU && PrivOf(t.privs, cfg.masterOf(t.list[k].dst)).deferDirtyUpdate)
  }

  /** One step of ms_dirty_update, on entry `i`. */
  function Visit(cfg: Config, t: Tracked, i: nat): (r: Tracked)
    requires i < |t.list|
  {
    var e := t.list[i];
    if e.damage == [] then t
    else
      var m := cfg.masterOf(e.dst);
      var p := PrivOf(t.privs, m);
      var t1 := if !cfg.isGPU && p.notifyOnDamage
                then t.(privs := t.privs[m := p.(notifyOnDamage := false)],
                        events := t.events + [NotifyDamage(e.dst)])
                else t;
      if !cfg.isGPU && p.deferDirtyUpdate then t1
      else t1.(list := t1.list[i := e.(damage := [])],
               events := t1.events + RedisplayEvents(cfg, e),
               timeout := RedisplayTimeout(cfg, t1.timeout))
  }

  /** ms_dirty_update from entry `i` on. */
  function UpdateFrom(cfg: Config, t: Tracked, i: nat): Tracked
    requires i <= |t.list|
    decreases |t.list| - i
  {
    if i == |t.list| then t
    else
      VisitShape(cfg, t, i);
      UpdateFrom(cfg, Visit(cfg, t, i), i + 1)
  }

  /** Only the notify flag of a private may differ between the two maps. */
  ghost predicate SameButNotify(a: map<PixmapId, Priv>, b: map<PixmapId, Priv>) {
    forall m: PixmapId :: PrivOf(b, m) == PrivOf(a, m).(notifyOnDamage := PrivOf(b, m).notifyOnDamage)
  }

  /** The entries are the same entries, in the same order, with their
      damage possibly emptied. */
  predicate SameEntries(a: seq<Ent>, b: seq<Ent>) {
    |a| == |b| && forall k | 0 <= k < |a| :: b[k] == a[k].(damage := b[k].damage)
  }

  /** A visit changes only the visited entry, and of the privates only a
      notify flag. */
  lemma VisitShape(cfg: Config, t: Tracked, i: nat)
    requires i < |t.list|
    ensures var r := Visit(cfg, t, i);
      SameEntries(t.list, r.list) && (forall k | 0 <= k < |t.list| && k != i :: r.list[k] == t.list[k]) &&
      SameButNotify(t.privs, r.privs) &&
      r.list[i].damage == (if Redisplayed(cfg, t, i) then [] else t.list[i].damage)
  {
  }

  /** ms_dirty_update: the whole list. */
  function DirtyUpdate(cfg: Config, t: Tracked): Tracked {
    UpdateFrom(cfg, t, 0)
  }

  /** ms_dirty_update keeps the list's entries and order, changes no private
      other than its notify flag, leaves every entry without damage
      untouched, empties exactly the redisplayed entries (so an entry held
      back with defer_dirty_update on a master screen keeps its damage). */
  lemma {:induction false} UpdateDamage(cfg: Config, t: Tracked, i: nat)
    requires i <= |t.list|
    ensures var r := UpdateFrom(cfg, t, i);
      SameEntries(t.list, r.list) && SameButNotify(t.privs, r.privs) &&
      (forall k | 0 <= k < i :: r.list[k] == t.list[k]) &&
      (forall k | i <= k < |t.list| :: r.list[k].damage == (if Redisplayed(cfg, t, k) then [] else t.list[k].damage))
    decreases |t.list| - i
  {
    if i < |t.list| {
      var v := Visit(cfg, t, i);
      VisitShape(cfg, t, i);
      UpdateDamage(cfg, v, i + 1);
      var r := UpdateFrom(cfg, t, i);
      assert r == UpdateFrom(cfg, v, i + 1);
      forall k | i <= k < |t.list| ensures Redisplayed(cfg, v, k) == Redisplayed(cfg, t, k) || k == i {
      }
    }
  }

  /** The events of a log other than the slave screens' damage
      notifications, in order. */
  function Copies(ev: seq<Event>): (r: seq<Event>)
    ensures |r| <= |ev|
    ensures forall k | 0 <= k < |r| :: !r[k].NotifyDamage?
  {
    if ev == [] then []
    else Copies(ev[..|ev| - 1]) + (if ev[|ev| - 1].NotifyDamage? then [] else [ev[|ev| - 1]])
  }

  lemma {:induction false} CopiesAppend(a: seq<Event>, b: seq<Event>)
    ensures Copies(a + b) == Copies(a) + Copies(b)
    decreases |b|
  {
    if b != [] {
      assert (a + b)[..|a + b| - 1] == a + b[..|b| - 1];
      CopiesAppend(a, b[..|b| - 1]);
    } else {
      assert a + b == a;
    }
  }

  lemma {:induction false} CopiesKeep(ev: seq<Event>)
    requires forall k | 0 <= k < |ev| :: !ev[k].NotifyDamage?
    ensures Copies(ev) == ev
    decreases |ev|
  {
    if ev != [] {
      CopiesKeep(ev[..|ev| - 1]);
      assert ev[..|ev| - 1] + [ev[|ev| - 1]] == ev;
    }
  }

  lemma {:induction false} CopiesDrop(ev: seq<Event>)
    requires forall k | 0 <= k < |ev| :: ev[k].NotifyDamage?
    ensures Copies(ev) == []
    decreases |ev|
  {
    if ev != [] {
      CopiesDrop(ev[..|ev| - 1]);
    }
  }

  /** The redisplay events of the entries from `i` on that are redisplayed,
      one entry after the other in list order. */
  function RedisplayLog(cfg: Config, t: Tracked, i: nat): seq<Event>
    requires i <= |t.list|
    decreases |t.list| - i
  {
    if i == |t.list| then []
    else (if Redisplayed(cfg, t, i) then RedisplayEvents(cfg, t.list[i]) else []) + RedisplayLog(cfg, t, i + 1)
  }

  /** Two states that agree on the entries from `j` on and on which of them
      are redisplayed have the same redisplay log from `j` on. */
  lemma {:induction false} RedisplayLogAgree(cfg: Config, a: Tracked, b: Tracked, j: nat)
    requires j <= |a.list| == |b.list|
    requires forall k | j <= k < |a.list| :: a.list[k] == b.list[k] && Redisplayed(cfg, a, k) == Redisplayed(cfg, b, k)
    ensures RedisplayLog(cfg, a, j) == RedisplayLog(cfg, b, j)
    decreases |a.list| - j
  {
    if j < |a.list| {
      RedisplayLogAgree(cfg, a, b, j + 1);
    }
  }

  /** A visit leaves the later entries, and whether they are redisplayed,
      as they were. */
  lemma VisitKeepsLater(cfg: Config, t: Tracked, i: nat)
    requires i < |t.list|
    ensures var v := Visit(cfg, t, i);
      |v.list| == |t.list| &&
      forall k | i + 1 <= k < |t.list| :: v.list[k] == t.list[k] && Redisplayed(cfg, v, k) == Redisplayed(cfg, t, k)
  {
    var v := Visit(cfg, t, i);
    VisitShape(cfg, t, i);
    forall k | i + 1 <= k < |t.list| ensures v.list[k] == t.list[k] && Redisplayed(cfg, v, k) == Redisplayed(cfg, t, k) {
      assert PrivOf(v.privs, cfg.masterOf(t.list[k].dst)).deferDirtyUpdate ==
             PrivOf(t.privs, cfg.masterOf(t.list[k].dst)).deferDirtyUpdate;
    }
  }

  /** One visit appends to the log: at most a damage notification, then the
      entry's redisplay events exactly when it is redisplayed. */
  lemma VisitLog(cfg: Config, t: Tracked, i: nat)
    requires i < |t.list|
    ensures var v := Visit(cfg, t, i);
      var re := if Redisplayed(cfg, t, i) then RedisplayEvents(cfg, t.list[i]) else [];
      exists n: seq<Event> | |n| <= 1 && (forall k | 0 <= k < |n| :: n[k].NotifyDamage?) ::
        v.events == t.events + n + re
  {
    var e := t.list[i];
    if e.damage == [] {
      assert Visit(cfg, t, i).events == t.events + [] + [];
    } else {
      var m := cfg.masterOf(e.dst);
      var p := PrivOf(t.privs, m);
      var n: seq<Event> := if !cfg.isGPU && p.notifyOnDamage then [NotifyDamage(e.dst)] else [];
      if Redisplayed(cfg, t, i) {
        assert Visit(cfg, t, i).events == t.events + n + RedisplayEvents(cfg, e);
      } else {
        assert Visit(cfg, t, i).events == t.events + n + [];
      }
    }
  }

  /** A step that appends notifications and then events that are not
      notifications, followed by a run that keeps its start. */
  lemma LogStep(e0: seq<Event>, n: seq<Event>, re: seq<Event>, ve: seq<Event>, rv: seq<Event>, later: seq<Event>)
    requires forall k | 0 <= k < |n| :: n[k].NotifyDamage?
    requires forall k | 0 <= k < |re| :: !re[k].NotifyDamage?
    requires ve == e0 + n + re && Copies(rv) == Copies(ve) + later
    ensures Copies(rv) == Copies(e0) + (re + later)
  {
    var c0 := Copies(e0);
    CopiesAppend(e0, n);
    CopiesDrop(n);
    assert Copies(e0 + n) == c0 + [] == c0;
    CopiesAppend(e0 + n, re);
    CopiesKeep(re);
    assert Copies(ve) == c0 + re;
    EventsAssoc(c0, re, later);
  }

  lemma LogGrows(e0: seq<Event>, n: seq<Event>, re: seq<Event>, rv: seq<Event>)
    requires e0 + n + re <= rv
    ensures e0 <= rv
  {
    assert (e0 + n + re)[..|e0|] == e0;
  }

  lemma EventsAssoc(a: seq<Event>, b: seq<Event>, c: seq<Event>)
    ensures (a + b) + c == a + (b + c)
  {
  }

  /** The damage notifications aside, ms_dirty_update appends to the log
      exactly the redisplay events of the entries it redisplays, entry by
      entry in list order, and leaves the earlier log as it was. */
  lemma {:induction false} UpdateLog(cfg: Config, t: Tracked, i: nat)
    requires i <= |t.list|
    ensures var r := UpdateFrom(cfg, t, i);
      t.events <= r.events && Copies(r.events) == Copies(t.events) + RedisplayLog(cfg, t, i)
    decreases |t.list| - i
  {
    if i == |t.list| {
      assert Copies(t.events) + [] == Copies(t.events);
    } else {
      var v := Visit(cfg, t, i);
      var re := if Redisplayed(cfg, t, i) then RedisplayEvents(cfg, t.list[i]) else [];
      VisitLog(cfg, t, i);
      var n: seq<Event> :| |n| <= 1 && (forall k | 0 <= k < |n| :: n[k].NotifyDamage?) && v.events == t.events + n + re;
      UpdateLog(cfg, v, i + 1);
      VisitKeepsLater(cfg, t, i);
      RedisplayLogAgree(cfg, v, t, i + 1);
      var r := UpdateFrom(cfg, t, i);
      assert r == UpdateFrom(cfg, v, i + 1);
      LogStep(t.events, n, re, v.events, r.events, RedisplayLog(cfg, t, i + 1));
      LogGrows(t.events, n, re, r.events);
    }
  }

  /** The copy of entry `x` is asked for exactly when an entry with that id
      is redisplayed. */
  lemma {:induction false} SyncedIffRedisplayed(cfg: Config, t: Tracked, i: nat, x: nat)
    requires i <= |t.list|
    ensures SyncDirty(x) in RedisplayLog(cfg, t, i) <==>
              exists k | i <= k < |t.list| :: Redisplayed(cfg, t, k) && t.list[k].id == x
    decreases |t.list| - i
  {
    if i < |t.list| {
      SyncedIffRedisplayed(cfg, t, i + 1, x);
      var re := if Redisplayed(cfg, t, i) then RedisplayEvents(cfg, t.list[i]) else [];
      assert SyncDirty(x) in re <==> Redisplayed(cfg, t, i) && t.list[i].id == x;
      assert RedisplayLog(cfg, t, i) == re + RedisplayLog(cfg, t, i + 1);
      if exists k | i <= k < |t.list| :: Redisplayed(cfg, t, k) && t.list[k].id == x {
        var k :| i <= k < |t.list| && Redisplayed(cfg, t, k) && t.list[k].id == x;
        if k > i {
          assert exists k | i + 1 <= k < |t.list| :: Redisplayed(cfg, t, k) && t.list[k].id == x;
        }
      }
    }
  }

  lemma {:induction false} CopiesHas(ev: seq<Event>, x: Event)
    requires !x.NotifyDamage?
    ensures x in Copies(ev) <==> x in ev
    decreases |ev|
  {
    if ev != [] {
      CopiesHas(ev[..|ev| - 1], x);
      assert ev == ev[..|ev| - 1] + [ev[|ev| - 1]];
    }
  }

  /** What a run appends to a log it keeps the start of. */
  lemma AddedCopies(pre: seq<Event>, rv: seq<Event>)
    requires pre <= rv
    ensures Copies(rv) == Copies(pre) + Copies(rv[|pre|..])
  {
    assert rv == pre + rv[|pre|..];
    CopiesAppend(pre, rv[|pre|..]);
  }

  /** A pass of ms_dirty_update asks for the copy of entry `x` exactly when
      it redisplays an entry with that id (and, by UpdateDamage, empties
      that entry's damage). */
  lemma DirtyUpdateSyncs(cfg: Config, t: Tracked, x: nat)
    ensures var r := DirtyUpdate(cfg, t);
      t.events <= r.events &&
      (SyncDirty(x) in r.events[|t.events|..] <==>
         exists k | 0 <= k < |t.list| :: Redisplayed(cfg, t, k) && t.list[k].id == x)
  {
    var r := DirtyUpdate(cfg, t);
    UpdateLog(cfg, t, 0);
    SyncedIffRedisplayed(cfg, t, 0, x);
    var added := r.events[|t.events|..];
    AddedCopies(t.events, r.events);
    CancelPrefix(Copies(t.events), Copies(added), RedisplayLog(cfg, t, 0));
    CopiesHas(added, SyncDirty(x));
  }

  lemma CancelPrefix(a: seq<Event>, b: seq<Event>, c: seq<Event>)
    requires a + b == a + c
    ensures b == c
  {
    assert b == (a + b)[|a|..];
    assert c == (a + c)[|a|..];
  }

  /** `part` appears in `log` starting at position `a`. */
  predicate OccursAt(log: seq<Event>, part: seq<Event>, a: nat) {
    a + |part| <= |log| && log[a..a + |part|] == part
  }

  /** What is appended last stays in place when the log grows. */
  lemma OccursInPrefix(pre: seq<Event>, n: seq<Event>, part: seq<Event>, ve: seq<Event>, rv: seq<Event>)
    requires ve == pre + n + part && ve <= rv
    ensures OccursAt(rv, part, |pre| + |n|)
  {
    assert ve[|pre| + |n|..|pre| + |n| + |part|] == part;
    assert rv[..|ve|] == ve;
  }

  /** Each redisplayed entry's events appear in the log in one piece, after
      everything that was logged before the pass. */
  lemma {:induction false} RedisplayContiguous(cfg: Config, t: Tracked, i: nat, k: nat)
    requires i <= k < |t.list| && Redisplayed(cfg, t, k)
    ensures exists a: nat | |t.events| <= a :: OccursAt(UpdateFrom(cfg, t, i).events, RedisplayEvents(cfg, t.list[k]), a)
    decreases |t.list| - i
  {
    var v := Visit(cfg, t, i);
    var r := UpdateFrom(cfg, t, i);
    var re := RedisplayEvents(cfg, t.list[k]);
    assert r == UpdateFrom(cfg, v, i + 1);
    VisitLog(cfg, t, i);
    UpdateLog(cfg, v, i + 1);
    if k == i {
      var n: seq<Event> :| |n| <= 1 && v.events == t.events + n + re;
      OccursInPrefix(t.events, n, re, v.events, r.events);
    } else {
      var n: seq<Event> :| |n| <= 1 && v.events == t.events + n +
                           (if Redisplayed(cfg, t, i) then RedisplayEvents(cfg, t.list[i]) else []);
      assert |t.events| <= |v.events|;
      VisitKeepsLater(cfg, t, i);
      RedisplayContiguous(cfg, v, i + 1, k);
    }
  }

  /** Some entry from `i` on has damage and a slave pixmap of master `m`. */
  ghost predicate DamagedFor(cfg: Config, t: Tracked, i: nat, m: PixmapId) {
    exists k | i <= k < |t.list| :: t.list[k].damage != [] && cfg.masterOf(t.list[k].dst) == m
  }

  /** Notify is one-shot: on a master screen, a master's notify_on_damage
      ends cleared exactly when it was cleared before or one of its slave
      pixmaps has damage; a GPU screen leaves the privates alone. */
  lemma {:induction false} UpdateNotify(cfg: Config, t: Tracked, i: nat, m: PixmapId)
    requires i <= |t.list|
    ensures var r := UpdateFrom(cfg, t, i);
      (cfg.isGPU ==> r.privs == t.privs) &&
      (!cfg.isGPU ==> PrivOf(r.privs, m).notifyOnDamage ==
                        (PrivOf(t.privs, m).notifyOnDamage && !DamagedFor(cfg, t, i, m)))
    decreases |t.list| - i
  {
    if i < |t.list| {
      var v := Visit(cfg, t, i);
      VisitNotify(cfg, t, i, m);
      UpdateNotify(cfg, v, i + 1, m);
      DamagedForStep(cfg, t, i, m);
    }
  }

  /** ... and exactly one NotifyDamage event is sent for a master when its
      flag goes from set to cleared, none otherwise. */
  lemma {:induction false} UpdateNotifyOnce(cfg: Config, t: Tracked, i: nat, m: PixmapId)
    requires i <= |t.list|
    ensures var r := UpdateFrom(cfg, t, i);
      NotifyCount(cfg, r.events, m) ==
        NotifyCount(cfg, t.events, m) +
        (if PrivOf(t.privs, m).notifyOnDamage && !PrivOf(r.privs, m).notifyOnDamage then 1 else 0)
    decreases |t.list| - i
  {
    if i < |t.list| {
      var v := Visit(cfg, t, i);
      VisitNotify(cfg, t, i, m);
      UpdateNotifyOnce(cfg, v, i + 1, m);
      NotifyOnlyCleared(cfg, v, i + 1, m);
      var r := UpdateFrom(cfg, v, i + 1);
      assert UpdateFrom(cfg, t, i) == r;
      OnceCompose(NotifyCount(cfg, t.events, m), NotifyCount(cfg, v.events, m), NotifyCount(cfg, r.events, m),
                  PrivOf(t.privs, m).notifyOnDamage, PrivOf(v.privs, m).notifyOnDamage,
                  PrivOf(r.privs, m).notifyOnDamage);
    }
  }

  /** ms_dirty_update never sets a notify flag. */
  lemma NotifyOnlyCleared(cfg: Config, t: Tracked, i: nat, m: PixmapId)
    requires i <= |t.list|
    ensures PrivOf(UpdateFrom(cfg, t, i).privs, m).notifyOnDamage ==> PrivOf(t.privs, m).notifyOnDamage
  {
    UpdateNotify(cfg, t, i, m);
  }

  /** Two steps that each count a clearing of a flag that is only ever
      cleared count the clearing over both. */
  lemma OnceCompose(n0: nat, n1: nat, n2: nat, a: bool, b: bool, c: bool)
    requires (c ==> b) && (b ==> a)
    requires n1 == n0 + (if a && !b then 1 else 0)
    requires n2 == n1 + (if b && !c then 1 else 0)
    ensures n2 == n0 + (if a && !c then 1 else 0)
  {
  }

  /** Damage for `m` from `i` on is damage at `i` or from `i + 1` on; the
      visit of `i` does not change the later entries. */
  lemma DamagedForStep(cfg: Config, t: Tracked, i: nat, m: PixmapId)
    requires i < |t.list|
    ensures DamagedFor(cfg, t, i, m) <==>
              (t.list[i].damage != [] && cfg.masterOf(t.list[i].dst) == m) ||
              DamagedFor(cfg, Visit(cfg, t, i), i + 1, m)
  {
    var v := Visit(cfg, t, i);
    VisitShape(cfg, t, i);
    if DamagedFor(cfg, t, i, m) {
      var k :| i <= k < |t.list| && t.list[k].damage != [] && cfg.masterOf(t.list[k].dst) == m;
      if k > i {
        assert v.list[k] == t.list[k];
      }
    }
    if DamagedFor(cfg, v, i + 1, m) {
      var k :| i + 1 <= k < |v.list| && v.list[k].damage != [] && cfg.masterOf(v.list[k].dst) == m;
      assert v.list[k] == t.list[k];
    }
  }

  /** One visit's effect on the notify flag of master `m` and the
      NotifyDamage events for it. */
  lemma VisitNotify(cfg: Config, t: Tracked, i: nat, m: PixmapId)
    requires i < |t.list|
    ensures var v := Visit(cfg, t, i);
      (cfg.isGPU ==> v.privs == t.privs) &&
      (!cfg.isGPU ==> PrivOf(v.privs, m).notifyOnDamage ==
                        (PrivOf(t.privs, m).notifyOnDamage &&
                         !(t.list[i].damage != [] && cfg.masterOf(t.list[i].dst) == m))) &&
      NotifyCount(cfg, v.events, m) ==
        NotifyCount(cfg, t.events, m) +
        (if PrivOf(t.privs, m).notifyOnDamage && !PrivOf(v.privs, m).notifyOnDamage then 1 else 0)
  {
    var e := t.list[i];
    if e.damage != [] {
      var mm := cfg.masterOf(e.dst);
      var p := PrivOf(t.privs, mm);
      var t1 := if !cfg.isGPU && p.notifyOnDamage
                then t.(privs := t.privs[mm := p.(notifyOnDamage := false)],
                        events := t.events + [NotifyDamage(e.dst)])
                else t;
      NotifyCountAppend(cfg, t.events, [NotifyDamage(e.dst)], m);
      assert [NotifyDamage(e.dst)][..0] == [];
      if !(!cfg.isGPU && p.deferDirtyUpdate) {
        NotifyCountAppend(cfg, t1.events, RedisplayEvents(cfg, e), m);
      }
    }
  }

  /** On a master screen the timeout is zeroed exactly when there is one
      and some entry is redisplayed; a GPU screen never touches it. */
  lemma {:induction false} UpdateTimeout(cfg: Config, t: Tracked, i: nat)
    requires i <= |t.list|
    ensures var r := UpdateFrom(cfg, t, i);
      r.timeout == (if !cfg.isGPU && t.timeout.Some? && exists k | i <= k < |t.list| :: Redisplayed(cfg, t, k)
                    then Some(0) else t.timeout)
    decreases |t.list| - i
  {
    if i < |t.list| {
      var v := Visit(cfg, t, i);
      VisitShape(cfg, t, i);
      UpdateTimeout(cfg, v, i + 1);
      var r := UpdateFrom(cfg, t, i);
      assert r == UpdateFrom(cfg, v, i + 1);
      assert forall k | i + 1 <= k < |t.list| :: Redisplayed(cfg, v, k) == Redisplayed(cfg, t, k) by {
        forall k | i + 1 <= k < |t.list| ensures Redisplayed(cfg, v, k) == Redisplayed(cfg, t, k) {
          assert v.list[k] == t.list[k];
          assert PrivOf(v.privs, cfg.masterOf(t.list[k].dst)).deferDirtyUpdate ==
                 PrivOf(t.privs, cfg.masterOf(t.list[k].dst)).deferDirtyUpdate;
        }
      }
    }
  }

  /** What starting flipped tracking records in a master's private. */
  function Attach(privs: map<PixmapId, Priv>, m: PixmapId, src: DrawableId, dirty: Option<nat>): map<PixmapId, Priv> {
    privs[m := PrivOf(privs, m).(slaveSrc := Some(src), dirty := dirty, deferDirtyUpdate := true)]
  }

  /** What stopping it clears again. */
  function Detach(privs: map<PixmapId, Priv>, m: PixmapId): map<PixmapId, Priv> {
    privs[m := PrivOf(privs, m).(slaveSrc := None, dirty := None, deferDirtyUpdate := false)]
  }

  /** Starting and then stopping flipped tracking of two slave pixmaps
      leaves every private as it was except that the two masters end
      untracked; their notify and wait flags are kept.  From untracked
      privates it is a round trip. */
  lemma AttachDetach(privs: map<PixmapId, Priv>, m1: PixmapId, m2: PixmapId, src: DrawableId,
                     d1: Option<nat>, d2: Option<nat>)
    ensures var r := Detach(Detach(Attach(Attach(privs, m1, src, d1), m2, src, d2), m1), m2);
      (forall m | m != m1 && m != m2 :: PrivOf(r, m) == PrivOf(privs, m)) &&
      (forall m | m == m1 || m == m2 ::
         PrivOf(r, m) == PrivOf(privs, m).(slaveSrc := None, dirty := None, deferDirtyUpdate := false)) &&
      (forall m | m == m1 || m == m2 ::
         PrivOf(privs, m).slaveSrc == None && PrivOf(privs, m).dirty == None && !PrivOf(privs, m).deferDirtyUpdate ==>
         PrivOf(r, m) == PrivOf(privs, m))
  {
  }

  /** Entry bookkeeping of PixmapStopDirtyTracking: drop every entry that
      mirrors `src` into `dst`, keeping the others in order. */
  function Untrack(list: seq<Ent>, src: DrawableId, dst: PixmapId): (r: seq<Ent>)
    ensures forall e :: e in r <==> e in list && !(e.src == src && e.dst == dst)
    ensures |r| <= |list|
  {
    if list == [] then []
    else
      var rest := Untrack(list[1..], src, dst);
      assert forall e :: e in list <==> e == list[0] || e in list[1..];
      if list[0].src == src && list[0].dst == dst then rest else [list[0]] + rest
  }

  /** The entries PixmapStopDirtyTracking drops. */
  predicate Matches(e: Ent, src: DrawableId, dst: PixmapId) {
    e.src == src && e.dst == dst
  }

  /** The positions from `i` on of the entries that stay, in order. */
  function Kept(list: seq<Ent>, src: DrawableId, dst: PixmapId, i: nat): seq<nat>
    requires i <= |list|
    decreases |list| - i
  {
    if i == |list| then []
    else (if Matches(list[i], src, dst) then [] else [i]) + Kept(list, src, dst, i + 1)
  }

  /** How many entries from `i` on are dropped. */
  function Dropped(list: seq<Ent>, src: DrawableId, dst: PixmapId, i: nat): nat
    requires i <= |list|
    decreases |list| - i
  {
    if i == |list| then 0
    else (if Matches(list[i], src, dst) then 1 else 0) + Dropped(list, src, dst, i + 1)
  }

  /** Untrack keeps every entry that does not match, exactly once and in
      its place in the list, and no other: the result is the list at the
      increasing positions of the entries that stay, and it is shorter by
      the number of entries dropped. */
  lemma {:induction false} UntrackOrder(list: seq<Ent>, src: DrawableId, dst: PixmapId, i: nat)
    requires i <= |list|
    ensures var r := Untrack(list[i..], src, dst);
      var idx := Kept(list, src, dst, i);
      |r| == |idx| == |list| - i - Dropped(list, src, dst, i) &&
      (forall k | 0 <= k < |idx| :: i <= idx[k] < |list| && list[idx[k]] == r[k]) &&
      (forall a, b | 0 <= a < b < |idx| :: idx[a] < idx[b]) &&
      (forall j | i <= j < |list| :: j in idx <==> !Matches(list[j], src, dst))
    decreases |list| - i
  {
    if i < |list| {
      UntrackOrder(list, src, dst, i + 1);
      var rest := Untrack(list[i + 1..], src, dst);
      var later := Kept(list, src, dst, i + 1);
      UntrackStep(list, src, dst, i);
      var r := Untrack(list[i..], src, dst);
      var idx := Kept(list, src, dst, i);
      if !Matches(list[i], src, dst) {
        ConsPositions(list, i, rest, later);
      }
      forall j | i <= j < |list| ensures j in idx <==> !Matches(list[j], src, dst) {
        assert j in idx <==> (j == i && !Matches(list[i], src, dst)) || j in later;
      }
    }
  }

  /** Putting position `i` in front of later positions keeps them
      increasing and in step with the entries they point at. */
  lemma ConsPositions(list: seq<Ent>, i: nat, rest: seq<Ent>, later: seq<nat>)
    requires i < |list| && |rest| == |later|
    requires forall k | 0 <= k < |later| :: i < later[k] < |list| && list[later[k]] == rest[k]
    requires forall a, b | 0 <= a < b < |later| :: later[a] < later[b]
    ensures var r := [list[i]] + rest;
      var idx := [i] + later;
      (forall k | 0 <= k < |idx| :: i <= idx[k] < |list| && list[idx[k]] == r[k]) &&
      (forall a, b | 0 <= a < b < |idx| :: idx[a] < idx[b])
  {
    var r := [list[i]] + rest;
    var idx := [i] + later;
    forall k | 0 <= k < |idx| ensures i <= idx[k] < |list| && list[idx[k]] == r[k] {
      if k > 0 {
        assert idx[k] == later[k - 1] && r[k] == rest[k - 1];
      }
    }
    forall a, b | 0 <= a < b < |idx| ensures idx[a] < idx[b] {
      assert idx[b] == later[b - 1];
      if a > 0 {
        assert idx[a] == later[a - 1];
      }
    }
  }

  /** One step of Untrack and of the positions it keeps. */
  lemma UntrackStep(list: seq<Ent>, src: DrawableId, dst: PixmapId, i: nat)
    requires i < |list|
    ensures Untrack(list[i..], src, dst) ==
              (if Matches(list[i], src, dst) then [] else [list[i]]) + Untrack(list[i + 1..], src, dst)
  {
    assert list[i..][1..] == list[i + 1..];
    assert list[i..][0] == list[i];
  }

  /** Dropping entries keeps the ids of the others distinct. */
  predicate DistinctIds(list: seq<Ent>) {
    forall a, b | 0 <= a < b < |list| :: list[a].id != list[b].id
  }

  lemma UntrackKeepsDistinct(list: seq<Ent>, src: DrawableId, dst: PixmapId)
    requires DistinctIds(list)
    ensures DistinctIds(Untrack(list, src, dst))
  {
    UntrackOrder(list, src, dst, 0);
    assert list[0..] == list;
  }

  /** Stopping the tracking of both slave pixmaps right after starting it
      removes the two new entries and leaves what stopping alone would
      have left. */
  lemma StartStopEntries(list: seq<Ent>, src: DrawableId, dst1: PixmapId, dst2: PixmapId, e1: Ent, e2: Ent)
    requires e1.src == src && e1.dst == dst1 && e2.src == src && e2.dst == dst2
    ensures Untrack(Untrack([e2, e1] + list, src, dst1), src, dst2) ==
            Untrack(Untrack(list, src, dst1), src, dst2)
  {
    var l := [e2, e1] + list;
    assert l[1..] == [e1] + list;
    assert l[1..][1..] == list;
    var u := Untrack(list, src, dst1);
    if dst1 == dst2 {
      assert Untrack(l, src, dst1) == u;
    } else {
      assert Untrack(l, src, dst1) == [e2] + u;
      assert ([e2] + u)[1..] == u;
    }
  }
}
