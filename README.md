# Loongson modesetting driver: damage propagation and shadow updates

A Dafny model of the part of the Loongson X.Org modesetting driver that
moves screen damage towards the hardware:

- **Kernel dirty updates** (`src/driver.c`). The screen damage goes to the
  kernel as a clip list through `drmModeDirtyFB`. When the kernel answers
  `-EINVAL`, the clips are sent again one at a time. When it answers
  `-EINVAL` or `-ENOSYS`, dirty updates are switched off for good.
- **PRIME output slaves**. Each CRTC's front and back shared pixmaps send
  their own damage under their own framebuffer id.
- **Shared-pixmap tracking**. The screen keeps a `pixmap_dirty_list` of
  entries, each with its own damage. `ms_dirty_update` copies the damaged
  entries, notifies a slave screen that asked to be notified, and honours
  deferred (manually presented) updates. Starting and stopping flipping
  tracking fill and clear the per-pixmap private fields.
- **The shadow framebuffer** (`src/loongson_shadow.c`). This covers
  allocating and freeing the shadow buffers and choosing single or double
  shadowing. It also covers the tile-by-tile diff that compares the shadow
  against its previous copy, copies the rows that changed, and cuts the
  damage down to the 16×16 tiles that really changed.
- **Helpers** (`src/loongson_helpers.c`): the PCI bus-id string and the
  output check.

## Modules

| module | file | contents |
|---|---|---|
| `Wrappers` | `wrappers.dfy` | `Option` |
| `Regions` | `regions.dfy` | Regions as sequences of boxes with pixel-membership semantics. Includes extents, intersection, `RegionFromRects`, and "not `rgnOUT`" as `Overlaps`. |
| `ShadowTiles` | `shadow_tiles.dfy` | The tile grid over the damage extents and the byte layout of a box in a framebuffer of a given stride. Also the buffer size of `LS_ShadowAllocFB` and the window of `LS_ShadowWindow`. |
| `Shadow` | `shadow.dfy` | The class `ShadowState` (shadow enables, `shadow_fb`, `shadow_fb2` and the shadow damage) with the allocation, enable and update methods. Also the lemmas behind the tile diff. |
| `Helpers` | `helpers.dfy` | `LS_DRICreatePCIBusID` with a parser and a round trip. `LS_CheckOutputs` as written and corrected. |
| `Dispatch` | `dispatch.dfy` | The kernel submission policy of `dispatch_dirty_region`, and slave dispatch over CRTCs, as functions. |
| `Tracking` | `tracking.dfy` | The dirty list, the pixmap privates, and one pass of `ms_dirty_update`, as functions. |
| `Driver` | `driver.dfy` | The class `Screen`, whose methods are the driver functions. They are proved against `Dispatch` and `Tracking`. |

The kernel is a stateless oracle `(fb, clips) -> ret` fixed with the
screen, and every call made to it is appended to `submitted`. Work the
driver asks of the X server is appended to `events`: damage append, copy,
glamor finish, process-pending, notify and present-on-vblank.

The outcomes of the following are boolean parameters:

- memory allocation (`calloc`, `xallocarray`, `asprintf`)
- `DamageCreate`
- the X server's `PixmapStartDirtyTracking` and `PixmapStopDirtyTracking`

## Model

| member | source | states |
|---|---|---|
| `Regions.Extents` | src/loongson_shadow.c:217 | Every box and every pixel of the region lies inside the extents. An empty region has the all-zero extents. A non-empty well-formed region has non-empty extents. |
| `Regions.OverlapsIffSharedPixel` | src/loongson_shadow.c:241 | A tile is not `rgnOUT` of the damage exactly when some pixel of the tile is damaged. |
| `Regions.FromRects` | src/loongson_shadow.c:251 | A pixel is in the region built from the recorded rectangles iff it is in one of them. |
| `Regions.Intersect` | src/loongson_shadow.c:252 | The intersection is well formed and holds exactly the pixels in both regions. |
| `ShadowTiles.GridBounds` | src/loongson_shadow.c:222-227 | For placed extents the tile index range is ordered and the rectangle count is non-negative. |
| `ShadowTiles.TileBoxInExtents` | src/loongson_shadow.c:236-239 | Each clamped tile box lies inside the extents, and is non-empty when the extents are. |
| `ShadowTiles.TileIndexOf` | src/loongson_shadow.c:236-239 | A pixel in tile (i, j) has x / 16 = i and y / 16 = j. |
| `ShadowTiles.TilesDisjoint` | src/loongson_shadow.c:232-249 | Two different tiles share no pixel. |
| `ShadowTiles.TilesSeparated` | src/loongson_shadow.c:232-249 | Two different tiles are apart in x or in y. |
| `ShadowTiles.TilesCover` | src/loongson_shadow.c:232-239 | Every pixel of the extents lies in the grid tile at (x / 16, y / 16). |
| `ShadowTiles.RowInBuffer` | src/loongson_shadow.c:171-190 | Every row of a box that fits the buffer lies inside the buffer. |
| `ShadowTiles.RowsApart` | src/loongson_shadow.c:178-190 | A row of one box ends before any later row of another box begins. |
| `ShadowTiles.BytesDisjoint` | src/loongson_shadow.c:232-249 | Separated tiles occupy disjoint bytes of the framebuffer. |
| `ShadowTiles.ChangedPixelMarksTile` | src/loongson_shadow.c:182-184 | A pixel whose bytes changed makes the row compare of its tile report a difference. |
| `ShadowTiles.BoxDiffersAgree` | src/loongson_shadow.c:182 | Whether a box differs depends only on the bytes inside the box. |
| `ShadowTiles.ScreenBoxFits` | src/loongson_shadow.c:27-41 | A buffer of displayWidth × virtualY × ((bpp + 7) / 8) bytes holds every box on the screen at that stride. |
| `ShadowTiles.ShadowWindow` | src/loongson_shadow.c:147-156 | The window size is the stride displayWidth × kbpp / 8, rounded down. The window starts `row` strides past `offset`. |
| `Shadow.ShouldDouble` | src/loongson_shadow.c:79-104 | The option decides when it is set. Otherwise double shadowing is on exactly for the `mgag200` and `ast` kernel drivers. |
| `Shadow.ShadowState.TryEnableShadow` | src/loongson_shadow.c:109-144 | Forced 24/32 conversion always enables the shadow. Otherwise the option decides, and without it the kernel's preference does. A failed query counts as a preference for shadowing. Double shadowing is on iff shadowing is on and `ShouldDouble` says so. |
| `Shadow.ShadowState.AllocFB` | src/loongson_shadow.c:27-41 | On success `shadow_fb` is a fresh, zeroed buffer of `ShadowSize` bytes. On failure it is null and the method returns false. |
| `Shadow.ShadowState.FreeFB` | src/loongson_shadow.c:43-49 | `shadow_fb` is null afterwards. |
| `Shadow.ShadowState.AllocDoubleFB` | src/loongson_shadow.c:52-68 | On success `shadow_fb2` is a fresh, zeroed buffer of `ShadowSize` bytes. On failure it is null and the method returns false. |
| `Shadow.ShadowState.FreeDoubleFB` | src/loongson_shadow.c:70-76 | `shadow_fb2` is null afterwards. |
| `Shadow.ShadowState.SyncRow` | src/loongson_shadow.c:182-186 | The row is reported different iff its old and new bytes differ. The old copy takes the new row in that case, and no other byte changes. |
| `Shadow.ShadowState.UpdateIntersect` | src/loongson_shadow.c:159-201 | The result is true iff some row of the box differs. Afterwards the old copy equals the new buffer inside the box and is unchanged outside it. The rectangle is written at `prect[at]` only when the result is true. |
| `Shadow.RowStep` | src/loongson_shadow.c:178-190 | One row step keeps the invariant: rows above are synced, and `dirty` says whether any of them differed. |
| `Shadow.ShadowState.DiffTile` | src/loongson_shadow.c:234-247 | One tile step keeps the diff invariant: visited overlapping tiles are synced and the changed ones recorded. |
| `Shadow.ShadowState.DiffRow` | src/loongson_shadow.c:233-248 | One tile row, right to left, keeps the diff invariant. |
| `Shadow.ShadowState.DiffTiles` | src/loongson_shadow.c:232-249 | The two loops, bottom row first, end with every tile row visited and the diff invariant holding. |
| `Shadow.TileRoom` | src/loongson_shadow.c:227-245 | While a tile is being visited, fewer rectangles have been recorded than the `(tx2 - tx1) * (ty2 - ty1)` allocated. |
| `Shadow.CompareTile` | src/loongson_shadow.c:241-246 | Comparing a tile against the partly updated old copy gives the same answer as against the original old copy, because tiles are disjoint. Recording it keeps the invariant. |
| `Shadow.SkipTile` | src/loongson_shadow.c:241 | A tile outside the damage is skipped without changing bytes or rectangles. |
| `Shadow.FreshTile` | src/loongson_shadow.c:232-249 | No byte of a tile was synced by a tile visited before it. |
| `Shadow.DiffDoneBytes` | src/loongson_shadow.c:232-249 | After the loops, each byte of the old copy is the new byte inside a changed overlapping tile and the original byte elsewhere. |
| `Shadow.DiffDone` | src/loongson_shadow.c:251-252 | After the loops, the damage intersected with the recorded tiles holds exactly the damaged pixels whose tile changed. |
| `Shadow.DiffDoneData` | src/loongson_shadow.c:231-252 | The number of recorded rectangles stays within the array. The byte result and the region result both hold for the prefix `prect[..nrects]`. |
| `Shadow.CountBound` | src/loongson_shadow.c:227 | A tile index inside the grid has room in the array of grid size. |
| `Shadow.ShadowState.DiffDamage` | src/loongson_shadow.c:215-255 | The damage becomes the well-formed region of exactly the damaged pixels whose 16×16 tile changed. The old copy becomes `SyncedBytes`: new bytes in changed overlapping tiles, old bytes elsewhere. |
| `Shadow.ShadowState.UpdatePackedDiff` | src/loongson_shadow.c:204-264 | The conversion pass is 32→24 iff 24/32 is forced and bpp is 32, and packed otherwise. Without double shadowing, without `shadow_fb2`, or when `calloc` fails, damage and old copy are untouched. Otherwise the damage is reduced as in `DiffDamage`. When nothing changed, the damage becomes empty and the old copy stays as it was. |
| `Helpers.DigitsRoundTrip` | src/loongson_helpers.c:47 | Reading back the printed digits of a number, decimal or hex, gives the number. |
| `Helpers.PaddedValue` | src/loongson_helpers.c:47 | Zero-padding to a width does not change a numeral's value. |
| `Helpers.ToDigits` | src/loongson_helpers.c:47 | The printed digits are digits of the base. Zero prints as `0`, and any other number has no leading zero. |
| `Helpers.ZeroPad` | src/loongson_helpers.c:47 | A padded string is exactly the longer of the width and the string. It ends with the original string and begins with zeros. |
| `Helpers.Conv` | src/loongson_helpers.c:47 | One `%0<w>x` or `%d` conversion. It gives a numeral of the base that denotes the number. It is at least `w` characters long and starts with a zero only where the width demands it. When the number is below base^w it is exactly `w` characters long. |
| `Helpers.DigitsFit` | src/loongson_helpers.c:47 | A number below base^w prints in at most `w` digits. |
| `Helpers.FieldWidths` | src/loongson_helpers.c:47-48 | A 16-bit domain prints as exactly four hex digits. An 8-bit bus or device prints as exactly two. The function is printed in decimal without padding. |
| `Helpers.BusIdRoundTrip` | src/loongson_helpers.c:43-52 | Parsing the `pci:%04x:%02x:%02x.%d` string gives back domain, bus, device and function. |
| `Helpers.CreatePciBusId` | src/loongson_helpers.c:43-52 | A string is returned iff the allocation succeeds, and it parses back to the device's address. The string is `pci:`, then domain, bus and device as zero-padded hex conversions of widths 4, 2 and 2, then the function in decimal, separated by `:`, `:` and `.`. |
| `Helpers.CheckOutputsAsWritten` | src/loongson_helpers.c:55-81 | No resources gives FALSE with the count untouched. The count is stored when asked for. Connectors give TRUE. With GBM linear and no connectors the result is TRUE on an exporting PRIME capability, and otherwise the raw `drmGetCap` return. |
| `Helpers.CheckOutputs` | src/loongson_helpers.c:55-81 | The corrected check returns only TRUE or FALSE and stores the count as the original does. |
| `Helpers.CheckOutputsAccepts` | src/loongson_helpers.c:60-78 | The corrected check accepts iff resources were read and either there are connectors, or GBM linear is built in and the PRIME query succeeds with the export bit. |
| `Helpers.CheckOutputsFailedQueryAccepted` | src/loongson_helpers.c:69-78 | With no connectors and a failing capability query, the code as written returns -1, which callers read as acceptance. The corrected check rejects. |
| `Helpers.CheckOutputsAgreeOnSuccess` | src/loongson_helpers.c:69-78 | Whenever the capability query succeeds or GBM linear is not built in, both versions return the same. |
| `Dispatch.U16` | src/driver.c:185-191 | A clip coordinate always fits in 16 unsigned bits, and equals the box coordinate when that fits. |
| `Dispatch.Clips` | src/driver.c:185-191 | One clip per box, in order, each copied from its box. |
| `Dispatch.DispatchSteps` | src/driver.c:194-204 | The first call sends all clips. The clip-by-clip retry follows only when that call answers `-EINVAL`. |
| `Dispatch.RetryShape` | src/driver.c:199-203 | The retry loop sends single clips in order and stops at the first negative answer or after the last clip. |
| `Dispatch.DispatchPolicy` | src/driver.c:194-204 | The first call sends all clips. Further calls happen iff it answered `-EINVAL`, and they are the clips one by one in order. Every retry before the last succeeded, and the result is the last answer. The retry stops early only on a negative answer. |
| `Dispatch.FallbackSendsEveryClip` | src/driver.c:197-204 | When the batch is refused with `-EINVAL` and every single clip is accepted, every clip is sent and the result is non-negative. |
| `Dispatch.NoFallbackUnlessInvalid` | src/driver.c:194-197 | Any other first answer is the result, after exactly one call. |
| `Dispatch.DispatchRegion` | src/driver.c:167-210 | An empty region gives 0 with nothing sent. A failed allocation gives `-ENOMEM` with nothing sent and the damage kept. Otherwise the clips go out and the damage is emptied. The calls and the result are then exactly those of `Dispatch` on the clips. |
| `Dispatch.DamageEmptiedIffSubmitted` | src/driver.c:175-209 | The kernel is called iff the region is non-empty and the allocation succeeded. The damage is emptied exactly then, and kept otherwise. |
| `Dispatch.UnsupportedKernelDisables` | src/driver.c:222-232 | With a kernel that answers `-ENOSYS`, a dispatch disables dirty updates iff there was damage. |
| `Dispatch.DispatchPixmap` | src/driver.c:236-244 | Other pixmaps are untouched, and the pixmap keeps its framebuffer id. Its damage is emptied when allocation succeeds. With no damage or a failed allocation nothing is sent and the pixmap is unchanged. |
| `Dispatch.PixmapSubmissions` | src/driver.c:236-244 | Calls are appended after the earlier ones, each to the pixmap's own framebuffer. With damage and a successful allocation they are the calls of `Dispatch` on its damage, and the first carries all its clips. |
| `Dispatch.SlaveDispatchEmpties` | src/driver.c:248-266 | Walking the CRTCs leaves pixmaps that no CRTC scans out untouched and keeps every framebuffer id. Each dispatch has its own clip allocation. A pixmap's damage ends empty iff at least one of its dispatches got its clip array, and is kept otherwise. |
| `Dispatch.OneSlot` | src/driver.c:236-244 | One pixmap's dispatch appends the calls of that one visit. |
| `Dispatch.CrtcSubmissions` | src/driver.c:256-264 | For one CRTC with distinct front and back pixmaps, the calls are those of the front pixmap followed by those of the back one. |
| `Dispatch.CrtcKeepsOthers` | src/driver.c:256-264 | One CRTC's dispatches leave every pixmap it does not scan out untouched. |
| `Dispatch.SlaveSubmissions` | src/driver.c:248-266 | When no pixmap is visited twice, the calls are those of every PRIME pixmap in CRTC order, front before back. Each uses its own framebuffer, the damage it had before the walk and its own allocation outcome. |
| `Tracking.GetEnt` | src/driver.c:337-350 | The entry returned is the first one mirroring into the pixmap, and `NULL` means there is none. |
| `Tracking.RedisplayEvents` | src/driver.c:269-297 | A redisplay appends damage, copies, on a master screen with glamor finishes the GPU, then processes pending damage. It never notifies a slave. |
| `Tracking.VisitShape` | src/driver.c:310-332 | Visiting one entry changes only that entry's damage. The damage is emptied iff the entry was redisplayed, and privates change only in their notify flag. |
| `Tracking.VisitLog` | src/driver.c:310-332 | One visit appends at most one notification, then the entry's redisplay events iff it is redisplayed. |
| `Tracking.UpdateLog` | src/driver.c:300-334 | Apart from notifications, one pass appends exactly the redisplay events of the redisplayed entries, entry by entry in list order. The earlier log is kept. |
| `Tracking.SyncedIffRedisplayed` | src/driver.c:310-332 | The copy of entry `x` is among those redisplay events iff an entry with that id is redisplayed. |
| `Tracking.DirtyUpdateSyncs` | src/driver.c:300-334 | A pass appends a copy of entry `x` iff it redisplays an entry with that id. By `UpdateDamage`, these are the entries whose damage it empties. |
| `Tracking.RedisplayContiguous` | src/driver.c:326-329 | Each redisplayed entry's events appear in one piece after the log that existed before the pass. |
| `Tracking.VisitKeepsLater` | src/driver.c:310-332 | A visit leaves the later entries, and whether they are redisplayed, as they were. |
| `Tracking.UpdateDamage` | src/driver.c:300-334 | One pass keeps the list's entries and order. Each entry's damage is emptied iff it was damaged and not deferred on a master screen. |
| `Tracking.UpdateNotify` | src/driver.c:315-323 | On a GPU screen privates are untouched. On a master screen the notify flag of a master pixmap is cleared iff one of its slaves was damaged. |
| `Tracking.UpdateNotifyOnce` | src/driver.c:316-321 | One pass notifies each master pixmap's slave at most once: exactly once iff the flag was set and got cleared. |
| `Tracking.NotifyOnlyCleared` | src/driver.c:318-319 | A pass never sets a notify flag. |
| `Tracking.VisitNotify` | src/driver.c:315-323 | One entry's visit clears the notify flag of its master iff the entry is damaged, and emits one notification exactly then. |
| `Tracking.UpdateTimeout` | src/driver.c:290-292 | The block timeout becomes 0 iff this is a master screen, there is a timeout, and some entry is redisplayed. |
| `Tracking.Untrack` | src/driver.c:961-962 | Stopping tracking removes exactly the entries of that source and slave pixmap. |
| `Tracking.UntrackOrder` | src/driver.c:961-962 | The entries that stay are the list at the increasing positions of the non-matching entries, each exactly once. The list shrinks by the number of matching entries. |
| `Tracking.UntrackKeepsDistinct` | src/driver.c:961-962 | Stopping tracking keeps entry ids distinct. |
| `Tracking.AttachDetach` | src/driver.c:891-977 | Stopping flipping tracking after starting it leaves other privates untouched. It resets the two privates' source, entry and deferral, so privates that started cleared return to what they were. |
| `Tracking.StartStopEntries` | src/driver.c:903-962 | Stopping both slaves after starting them gives the same list as stopping them on the list before. |
| `Driver.CopyClips` | src/driver.c:177-191 | The fresh clip array holds `Clips(region)`. |
| `Driver.Screen.ProbeDirty` | src/driver.c:1080-1099 | One empty dirty call is made. On `-EINVAL` or `-ENOSYS` nothing else changes. Otherwise a damage record is created and dirty updates are enabled; a failed creation fails the probe. |
| `Driver.Screen.DispatchDirtyRegion` | src/driver.c:167-210 | The result, remaining damage and kernel calls are those of `Dispatch.DispatchRegion`. |
| `Driver.Screen.DispatchClips` | src/driver.c:194-204 | The calls made and the result are those of `Dispatch.Dispatch` on the clip array. |
| `Driver.Screen.RetrySingly` | src/driver.c:197-204 | The loop makes the calls and gives the result of the retry specification. |
| `Driver.Screen.DispatchDirty` | src/driver.c:214-233 | The screen damage is dispatched. `-EINVAL` or `-ENOSYS` disables dirty updates and drops the damage record. Otherwise the damage is what the dispatch left. |
| `Driver.Screen.DispatchDirtyPixmap` | src/driver.c:236-244 | The slave state becomes `Dispatch.DispatchPixmap` of the old one. |
| `Driver.Screen.DispatchSlaveDirty` | src/driver.c:248-266 | The slave state becomes `Dispatch.DispatchSlaves` over all CRTCs. Each pixmap dispatch gets its own allocation outcome. |
| `Driver.Screen.RedisplayDirty` | src/driver.c:269-297 | The events of `RedisplayEvents` are appended and the timeout is zeroed on a master screen. |
| `Driver.Screen.DirtyUpdate` | src/driver.c:300-334 | The list, privates, events and timeout become `Tracking.DirtyUpdate` of the old ones, and the entries are kept. |
| `Driver.Screen.BlockHandler` | src/driver.c:353-372 | The wrapped handler runs first. A GPU screen outside reverse offload then dispatches its slaves, each pixmap with its own allocation outcome. Otherwise the screen dispatches its damage when dirty updates are enabled. `ms_dirty_update` runs last, and dirty updates are never enabled here. |
| `Driver.Screen.StartDirtyTracking` | src/driver.c:903-905 | On success a new entry with a fresh id is added at the head of the list. On failure the list is unchanged. |
| `Driver.Screen.StopDirtyTracking` | src/driver.c:961-962 | On success the entries of that source and slave are removed. On failure the list is unchanged. |
| `Driver.Screen.StartFlippingPixmapTracking` | src/driver.c:891-926 | The result is true iff both starts succeed. A failed second start rolls the first one back, and privates are set only on success. |
| `Driver.Screen.AttachPrivs` | src/driver.c:916-923 | Both privates get the source, the entry `ms_dirty_get_ent` finds, and deferred updates. |
| `Driver.Screen.PresentSharedPixmap` | src/driver.c:929-947 | It returns true iff the tracked entry has damage. In that case the entry is redisplayed and its damage emptied; otherwise nothing changes. |
| `Driver.Screen.StopFlippingPixmapTracking` | src/driver.c:949-977 | Both stops are attempted, and the result is their conjunction. Privates are cleared only when both succeed. |
| `Driver.Screen.RequestSharedPixmapNotifyDamage` | src/driver.c:1209-1220 | Only the master pixmap's notify flag is set, and the result is true. |
| `Driver.Screen.SharedPixmapNotifyDamage` | src/driver.c:1223-1254 | Without a pending wait nothing changes and the result is false. Otherwise the wait is cleared and a present is scheduled on every flipping CRTC. The result is true iff one of them accepted. |

## Left out

- `ShadowTiles.ShadowWindow`: the stride and offset are unbounded integers. The `CARD32` and `int` wrap-around of the source is not modelled.
- Tile, stride and offset arithmetic in `msUpdateIntersect` and `LS_ShadowUpdatePacked` uses unbounded integers. `unsigned int` wrap for boxes that do not fit the buffer is not modelled, and the model requires that the damage fits the buffer.
- The X server region library keeps banded boxes, and `RegionContainsRect` distinguishes `rgnIN` from `rgnPART`. The model uses boxes with pixel membership and only "not `rgnOUT`".
- Option parsing (`xf86GetOptValBool`, `xf86ReturnOptValBool`) and `drmGetVersion` become parameters: the option's value if set, and the kernel driver name.
- Log messages (`xf86DrvMsg`) are left out.
- The conversion passes of the shadow library (`shadowUpdatePacked`, `shadowUpdate32to24`) are outside this model. Only the choice of pass is modelled.
- `Driver.Screen.PresentSharedPixmap` redisplays with this screen's configuration. The source uses the screen of the entry's source drawable, and that screen is not modelled.
- The screen dispatch has one allocation outcome for its clip array. In slave dispatch, each pixmap's dispatch has its own outcome, indexed by CRTC and by front or back. A pixmap scanned out by two CRTCs is dispatched twice. `Dispatch.SlaveSubmissions` assumes each pixmap is visited once; `Dispatch.SlaveDispatchEmpties` does not.
- `calloc` zero-fill of `prect` is not modelled because only written entries are read.
- `Dispatch.ScanoutOf` reads a pixmap without a driver private as framebuffer 0 with no damage, so nothing is sent for it. The source would pass that private's NULL `slave_damage` to `DamageRegion`. The model does not capture that dereference.
- `ShadowTiles.ShadowSize` and `Shadow.ShadowState.AllocFB`: the `displayWidth * virtualY * bit2byte` product is an unbounded integer. The source computes it in 32-bit `unsigned int`, which wraps modulo 2^32 for huge screens. That wrap, and the short buffer it would give, are not modelled.
- `Tracking.UpdateLog` compares the log with damage notifications removed. A notification for a later entry may come between two entries' redisplay events; `Tracking.RedisplayContiguous` shows that each entry's own events stay in one piece.
- `DamageEmpty`, `DamageRegister`, `DamageUnregister` and `DamageDestroy` are modelled as the damage region becoming empty, present or absent.
- `PixmapStartDirtyTracking` and `PixmapStopDirtyTracking` belong to the X server. The model has stand-ins with an outcome parameter, and a new entry's initial damage is a parameter.
- `msPixmapPrivRec` is split into the dispatch fields (`fb_id`, `slave_damage`) and the tracking fields (`slave_src`, `dirty`, `defer_dirty_update`, `notify_on_damage`, `wait_for_damage`).
- The kernel's `drmModeDirtyFB` is modelled as a function of the framebuffer and clips. The kernel's own state is not modelled.
- The pointer arithmetic of `memcmp` and `memcpy` is modelled as index ranges of the byte arrays.
- `PixmapSyncDirtyHelper`, `glamor.finish`, `DamageRegionAppend`, `DamageRegionProcessPending`, the slave's `SharedPixmapNotifyDamage`, `drmmode_SharedPixmapPresentOnVBlank` and the wrapped `BlockHandler` are foreign calls. They are recorded as events, and present-on-vblank's answer is an oracle.
- The rest of `src/driver.c` (probing, screen setup, mode setting) and `LS_ShadowLoadAPI` are not part of this model.

## Findings

| source | as written | input that shows it | evidently intended | confidence | as-written member | corrected member |
|---|---|---|---|---|---|---|
| src/loongson_helpers.c:69-78 | With no connectors and GBM linear, `ret` takes `drmGetCap`'s return, so a failing query returns -1. Callers test the result as a boolean, so -1 reads as acceptance. | `count_connectors == 0`, `GLAMOR_HAS_GBM_LINEAR`, `drmGetCap` returns -1 | accept only when the PRIME query succeeds and reports the export capability | not executed | `Helpers.CheckOutputsFailedQueryAccepted` | `Helpers.CheckOutputsAccepts` |
