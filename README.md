# Leader: distance hiding, sessions, one-shot hide, entity lifetimes and leaders

A Dafny model of the core of the Leader game-server plugin. The plugin hides
from a requesting player (the caller) every player within a chosen distance of
the caller's pawn, and shows them again once they leave that sphere. It also keeps a set of leaders and tracks spawned entities
that have a lifetime.

- `entities.dfy` (module `Entities`): the engine values the plugin reads.
  - Controllers, pawns and sphere-query entities, as the engine reports them at the moment of a call.
  - The sphere query, modelled as a filter over a snapshot of the world.
  - The transmit manager: a set of hooked entities plus a ghost log of every hook and state write.
- `visibility.dfy` (module `VisibilityDiff`): the incremental engine.
  - A process-wide registry of (target, caller) pairs records who is hidden from whom.
  - `UpdateVisibility` reconciles one caller's pairs against one sphere snapshot. New pairs are hooked if needed, hidden on channel 2 and registered. Pairs that left range are shown again and dropped. Pairs of other callers are untouched.
  - `UnhideAllForCaller` restores every pair one caller owns.
  - The methods are proved against a specification fold, `ScanAll`. The lemmas state coverage, isolation, write-once, hook-before-write, idempotence and restore completeness.
- `session.dfy` (module `HideSession`): the `/hide` command and its repeating monitor timer.
  - `-1` cancels, resubmitting the active distance toggles off, and `0` means full range (`float.MaxValue`).
  - Any other distance reconciles once and then arms the timer, cancelling the old timer first.
  - There is a single session slot.
- `oneshot.dfy` (module `OneShotHide`): the older helpers.
  - `GetAllControllers` scans player slots.
  - `HideNearbyPlayers` is a single pass that hides every qualifying player in range on channel -1 and counts them. It keeps no registry.
- `lifecycle.dfy` (module `Lifecycle`): the entity lifetime tracker. It covers track, untrack, the expiry sweep and clear-all.
- `leaders.dfy` (module `LeaderSet`): the set of leader steam ids.

Environment inputs are parameters rather than calls:

- The sphere query's world snapshot, with distances from the caller's pawn.
- What `GetPawn()` returns.
- Whether a stored controller reference is still valid.
- The client table by slot.
- The clock `now`, and the set of entities the engine reports as valid.
- Which `Kill()` calls throw.

Where the hash-set or dictionary iteration order matters, a contract states the result for *some* enumeration of the set (`Enumerates`). It does not fix one order.

## Model

| member | source | states |
|---|---|---|
| Entities.SphereQuery | Leader/ModuleMethod/HideMethod.cs:34-35 | the cursor visits exactly the snapshot entities at distance at most the radius, and no more entities than the world has |
| Entities.TransmitManager.AddEntityHooks | Leader/ModuleMethod/HideMethod.cs:53-54 | hooking adds the entity to the hooked set and logs one hook call with its default-transmit flag |
| Entities.TransmitManager.IsEntityHooked | Leader/ModuleMethod/HideMethod.cs:53 | the query is true exactly for entities whose hooks were added; adding hooks makes it true and a state write leaves it unchanged |
| Entities.TransmitManager.SetEntityState | Leader/ModuleMethod/HideMethod.cs:56 | a state write logs exactly one (target, receiver, visible, channel) call and leaves the hooked set alone |
| VisibilityDiff.PairFor | Leader/ModuleMethod/HideMethod.cs:37-48 | an entity yields a pair iff it is a valid player pawn other than the caller's own, whose controller is non-null and valid; the pair is then (that controller, caller) |
| VisibilityDiff.ScanShape | Leader/ModuleMethod/HideMethod.cs:32-59 | the sphere loop's current-tick set is exactly the reference set of pairs the snapshot yields; the registry afterwards is the old one plus that set; exactly the targets of the new pairs get hooked |
| VisibilityDiff.CurrentPairsOwned | Leader/ModuleMethod/HideMethod.cs:48 | every current-tick pair belongs to the caller |
| VisibilityDiff.OwnPawnYieldsNothing | Leader/ModuleMethod/HideMethod.cs:40-42 | the caller's own pawn never yields a pair |
| VisibilityDiff.ScanOpsShape | Leader/ModuleMethod/HideMethod.cs:51-57 | every call the sphere loop issues is a hook with default-transmit true, or a write of visible = false to the caller on channel 2 |
| VisibilityDiff.HideWrittenOnce | Leader/ModuleMethod/HideMethod.cs:51-58 | a pair gets exactly one hide write if it is in range this tick and was not registered, and none otherwise |
| VisibilityDiff.HookedOnce | Leader/ModuleMethod/HideMethod.cs:53-54 | a target gets exactly one hook call if it became hooked during the loop, and none otherwise |
| VisibilityDiff.ScanHooksPrecedeWrites | Leader/ModuleMethod/HideMethod.cs:53-56 | every hide write comes after a hook of its target, unless that target was already hooked; the hooked set only grows, and each newly hooked target has its hook call |
| VisibilityDiff.ScanQuiet | Leader/ModuleMethod/HideMethod.cs:51 | if every current pair is already registered, the loop issues no call and changes neither the registry nor the hooked set |
| VisibilityDiff.ReconcileCoverage | Leader/ModuleMethod/HideMethod.cs:32-73 | after reconciling, the caller owns exactly the current-tick pairs |
| VisibilityDiff.ReconcileIsolation | Leader/ModuleMethod/HideMethod.cs:63-73 | a pair of another caller is in the registry afterwards iff it was before |
| VisibilityDiff.LeavingIsOldOutOfRange | Leader/ModuleMethod/HideMethod.cs:61-70 | the pairs restored are exactly the caller's previously registered pairs that are not in range this tick |
| VisibilityDiff.ReconcileIdempotent | Leader/ModuleMethod/HideMethod.cs:51-73 | reconciling again with the same snapshot issues no call, hooks nothing new, leaves nothing to restore and keeps the registry |
| VisibilityDiff.RestoreOpsShape | Leader/ModuleMethod/HideMethod.cs:63-70 | the restore writes are one visible = true write per collected pair, to the caller on channel 2, in collection order |
| VisibilityDiff.RestoreWrittenOnce | Leader/ModuleMethod/HideMethod.cs:88-95 | restoring an enumeration of a caller's pairs writes visible = true exactly once for each of them and never for any other target |
| VisibilityDiff.UpdatedCoversAndIsolates | Leader/ModuleMethod/HideMethod.cs:17-74 | after an `UpdateVisibility` by an acting caller, that caller owns exactly the current-tick pairs and every other caller's pairs are as before |
| VisibilityDiff.UpdateTwiceIsQuiet | Leader/ModuleMethod/HideMethod.cs:17-74 | a second `UpdateVisibility` with the same caller, pawn and snapshot changes nothing and issues no call |
| VisibilityDiff.RestoredCompletely | Leader/ModuleMethod/HideMethod.cs:79-99 | after `UnhideAllForCaller` on a valid caller, that caller owns no pair; other callers' pairs are kept; one write was issued per removed pair; and nothing changes when the caller owned nothing |
| VisibilityDiff.LastHideWrite | Leader/ModuleMethod/HideMethod.cs:56-67 | the visibility the last channel-2 write for a pair set is one that was actually written for it |
| VisibilityDiff.ScanLastHideWrite | Leader/ModuleMethod/HideMethod.cs:51-58 | within the sphere loop's calls, the last channel-2 write for a pair hides it exactly when the pair is new this tick, and there is none otherwise |
| VisibilityDiff.RestoreLastHideWrite | Leader/ModuleMethod/HideMethod.cs:63-70 | within the restore writes, the last channel-2 write for a pair shows it exactly when the pair was collected, and there is none otherwise |
| VisibilityDiff.UpdatedKeepsRegistryMatchingLog | Leader/ModuleMethod/HideMethod.cs:51-73 | if a pair is registered exactly when its last channel-2 write was `visible = false`, `UpdateVisibility` keeps it so |
| VisibilityDiff.RestoredKeepsRegistryMatchingLog | Leader/ModuleMethod/HideMethod.cs:88-98 | `UnhideAllForCaller` keeps the registry equal to the set of pairs whose last channel-2 write hid them |
| VisibilityDiff.DistanceUtils.constructor | Leader/ModuleMethod/HideMethod.cs:12 | the registry starts empty |
| VisibilityDiff.DistanceUtils.UpdateVisibility | Leader/ModuleMethod/HideMethod.cs:17-74 | a null or invalid caller or pawn changes nothing and issues nothing; otherwise the registry, hooked set and log are what the sphere loop leaves, minus the leaving pairs, followed by one restore write per leaving pair |
| VisibilityDiff.DistanceUtils.ScanSphere | Leader/ModuleMethod/HideMethod.cs:32-59 | the cursor loop leaves the registry, hooked set and log that the specification fold `ScanAll` gives, and returns its current-tick set |
| VisibilityDiff.DistanceUtils.CollectLeaving | Leader/ModuleMethod/HideMethod.cs:61-70 | the collected list enumerates exactly the caller's registered pairs outside the current-tick set; one restore write was logged for each, and hooks are untouched |
| VisibilityDiff.DistanceUtils.RemoveAll | Leader/ModuleMethod/HideMethod.cs:72-73 | the registry loses exactly the collected pairs |
| VisibilityDiff.DistanceUtils.UnhideAllForCaller | Leader/ModuleMethod/HideMethod.cs:79-99 | a null or invalid caller changes nothing; otherwise all of the caller's pairs are removed, with one visible = true write each, and hooks are untouched |
| HideSession.Classify | Leader/Leader.cs:219-237 | a failed parse is usage and nothing else is; `-1` cancels; a parsed distance enables exactly when it is not `-1` and, while hiding, not within the tolerance of the active distance; an enabling distance is the parsed one with 0 replaced by `float.MaxValue`, and while hiding it differs from the active distance by at least the tolerance |
| HideSession.EnabledDistanceIsNoSentinel | Leader/Leader.cs:225-237 | an enabling distance is never 0 (it was mapped to `float.MaxValue`) nor the cancel value -1 |
| HideSession.MinusOneCancels | Leader/Leader.cs:225 | `-1` cancels whatever the session state |
| HideSession.ResubmitToggles | Leader/Leader.cs:225-241 | resubmitting the argument that enabled the session cancels it, except `0`: its stored distance is `float.MaxValue`, so it enables full range again |
| HideSession.ZeroMeansFullRange | Leader/Leader.cs:236-237 | with no active session, `0` and `float.MaxValue` enable the same full-range session; with an active full-range session, only `float.MaxValue` toggles it off |
| HideSession.StoredCaller | Leader/Leader.cs:259 | the stored controller as seen now: null stays null, and otherwise it keeps its index and takes the current validity |
| HideSession.TimerHost.StopTimer | Leader/Leader.cs:254-255 | stopping removes exactly that timer from the live set |
| HideSession.TimerHost.IsValidTimer | Leader/Leader.cs:254 | true exactly for live handles, which in a well-formed timer table are non-empty and already issued; a pushed timer is valid and a stopped one is not |
| HideSession.TimerHost.PushTimer | Leader/Leader.cs:257-261 | a pushed timer gets a non-empty handle never issued before, and becomes live |
| HideSession.Leader.constructor | Leader/Leader.cs:31-35 | a new module is idle: not hiding, last distance -1, no caller, no live timer; its invariant includes that the registry agrees with the transmit state |
| HideSession.Leader.OnHideCommand | Leader/Leader.cs:213-250 | an invalid sender or unparsable argument changes nothing; a cancel stops the timer, restores the stored caller's pairs if that caller is non-null and valid, and resets all four session fields; an enable stores the caller and the mapped distance, reconciles once (other callers' pairs unchanged), then leaves exactly one fresh live timer; every branch keeps the session invariant, including the registry's agreement with the last channel-2 writes |
| HideSession.Leader.StartVisibilityMonitor | Leader/Leader.cs:252-262 | the previous timer is cancelled and exactly one fresh timer is live afterwards |
| HideSession.Leader.MonitorTick | Leader/Leader.cs:257-261 | a tick reconciles for the stored caller at the stored distance only while hiding with a non-null, valid caller, and otherwise changes nothing |
| HideSession.Leader.StopVisibilityMonitor | Leader/Leader.cs:264-271 | no timer is live afterwards; with `stopAndUnhide`, the stored caller's pairs are restored if that caller is non-null and valid; without it, the registry and transmit state are untouched |
| HideSession.Leader.Shutdown | Leader/Leader.cs:84-94 | shutdown stops the monitor and restores the stored caller's pairs if that caller is non-null and valid |
| OneShotHide.QualifyingSlotsOrdered | Leader/HideMethod.cs:19-45 | the yielded slots are strictly ascending and below the slot limit; a slot is yielded exactly when its lookup succeeds with a valid, connected client (real, if fake clients are ignored) and a valid controller |
| OneShotHide.GetAllControllers | Leader/HideMethod.cs:14-47 | the result is the controllers of the qualifying slots in slot order, one per slot, all valid |
| OneShotHide.HideTargetQualifies | Leader/HideMethod.cs:79-96 | a hidden target is a valid, non-self player pawn's valid controller whose client is valid and not HLTV |
| OneShotHide.OneShotCountsWrites | Leader/HideMethod.cs:103-110 | `hiddenCount` equals the number of hide writes issued |
| OneShotHide.OneShotWritesQualify | Leader/HideMethod.cs:98-108 | every write hides a qualifying target from the caller, with visible = false on channel -1 |
| OneShotHide.OneShotCompleteCount | Leader/HideMethod.cs:77-110 | the pass faults iff some qualifying pawn's client lookup gives null or throws; otherwise the count is the number of qualifying entities, duplicates included |
| OneShotHide.OneShotEveryQualifierWritten | Leader/HideMethod.cs:90-108 | every entity judged to be hidden that the pass reaches before a fault gets its write: its controller is made invisible to the caller on channel -1 |
| OneShotHide.OneShotCompleteWrites | Leader/HideMethod.cs:77-110 | a pass that does not fault writes a hide for every qualifying entity in the sphere |
| OneShotHide.FaultStops | Leader/HideMethod.cs:94 | once the pass has faulted, later entities change nothing |
| OneShotHide.HideNearbyPlayers | Leader/HideMethod.cs:52-125 | a null or invalid caller, or an invalid controller or pawn, returns early with nothing written; a null controller or pawn faults at once; otherwise the hooked set and log are what the specification pass gives over the sphere snapshot, and the outcome carries its count |
| OneShotHide.HideInSphere | Leader/HideMethod.cs:74-116 | the cursor loop leaves the hooked set and log that the specification pass `OneShotScan` gives, and returns its count, faulted or completed |
| Lifecycle.IsExpired | Leader/EntitySpawn/Lifecycle.cs:26-27 | an expired entry has a positive lifetime and is past its spawn time, and every entry with a positive lifetime expires once strictly more than that lifetime has elapsed |
| Lifecycle.ExpiryRule | Leader/EntitySpawn/Lifecycle.cs:26-27 | a lifetime of 0 or less never expires; a positive one expires iff strictly more than it has elapsed, and stays expired |
| Lifecycle.RemovalsExactlyOnce | Leader/EntitySpawn/Lifecycle.cs:96-115 | removing an enumeration of a key set kills each of its entities exactly once, announces exactly those whose kill did not throw, and touches nothing else |
| Lifecycle.SweepKeepsLiveEntries | Leader/EntitySpawn/Lifecycle.cs:81-116 | the sweep keeps exactly the valid, unexpired entries, each unchanged; the count drops by the number removed; a second sweep at the same time removes nothing |
| Lifecycle.LifecycleManager.constructor | Leader/EntitySpawn/Lifecycle.cs:35 | the tracker starts empty |
| Lifecycle.LifecycleManager.Count | Leader/EntitySpawn/Lifecycle.cs:144 | the count is zero exactly when nothing is tracked |
| Lifecycle.LifecycleManager.TrackEntity | Leader/EntitySpawn/Lifecycle.cs:51-58 | a null or invalid entity changes nothing; otherwise its entry is set (replaced if present), and the count is unchanged for a tracked entity and one more otherwise |
| Lifecycle.LifecycleManager.UntrackEntity | Leader/EntitySpawn/Lifecycle.cs:63-79 | an untracked entity changes nothing; a tracked one is removed even if its kill throws, then killed once and announced unless its kill threw |
| Lifecycle.LifecycleManager.Remove | Leader/EntitySpawn/Lifecycle.cs:100-113 | an entity is killed, and announced only if the kill did not throw |
| Lifecycle.LifecycleManager.Update | Leader/EntitySpawn/Lifecycle.cs:81-116 | the map becomes the sweep of the old map; each removed entity is killed once and announced unless its kill threw, in some enumeration order |
| Lifecycle.LifecycleManager.ExpiredKeys | Leader/EntitySpawn/Lifecycle.cs:83-94 | the collected keys are exactly the entries that are invalid or expired, each once |
| Lifecycle.LifecycleManager.RemoveKeys | Leader/EntitySpawn/Lifecycle.cs:96-115 | exactly the listed keys leave the map, other entries are unchanged, and the removals are logged in list order |
| Lifecycle.LifecycleManager.CleanupAll | Leader/EntitySpawn/Lifecycle.cs:118-139 | every tracked entity is killed once and announced unless its kill threw; afterwards nothing is tracked and the count is 0 |
| Lifecycle.LifecycleManager.AnnounceAll | Leader/EntitySpawn/Lifecycle.cs:120-135 | the loop kills each tracked entity once and announces it unless its kill threw, in some enumeration order |
| LeaderSet.LeaderMethod.constructor | Leader/LeaderMethod.cs:10 | the leader set starts empty |
| LeaderSet.LeaderMethod.IsLeader | Leader/LeaderMethod.cs:48-52 | true iff the entity is a player controller whose steam id is registered |
| LeaderSet.LeaderMethod.IsLeaderIgnoresValidity | Leader/LeaderMethod.cs:50-51 | membership does not depend on the entity's validity |
| LeaderSet.LeaderMethod.GetAllLeaderSteamIds | Leader/LeaderMethod.cs:57-60 | the returned ids are exactly those whose controller counts as a leader |
| LeaderSet.LeaderMethod.AssignLeader | Leader/LeaderMethod.cs:15-23 | false with the set unchanged unless the entity is a valid controller; otherwise true, the id is added and the entity is a leader, and re-assigning changes nothing |
| LeaderSet.LeaderMethod.RemoveLeader | Leader/LeaderMethod.cs:28-35 | false with the set unchanged unless the entity is a valid controller; otherwise the result says whether the id was present, and it is absent afterwards |
| LeaderSet.LeaderMethod.ClearAllLeaders | Leader/LeaderMethod.cs:40-43 | the set is empty and nobody is a leader afterwards |

## Left out

- `OnMarkerCommand` and `AngleToForward` (Leader/Leader.cs): floating-point trigonometry, physics traces and particle dispatch.
- `OnLeaderCommand`, `FireGameEvent`, `Init`, `PostInit` and the command and event registration (Leader/Leader.cs): host plumbing; the leader set itself is modelled.
- Leader/Precache/Leader_Precache.cs and Leader/EntitySpawn/EntitySpawnMethod.cs are not part of this model: they are a filesystem scan and thin wrappers over foreign engine calls.
- The chat confirmation at Leader/Leader.cs:247 says players "beyond" the distance are hidden, but the code hides those within it. The model follows the code.
- Chat and console printing and all logging are dropped; printing usage on a bad argument is modelled as "nothing changes".
- Parsing of the `/hide` argument: the parse result is a parameter (`Option<real>`).
- Floating point: `float` becomes `real`, with no rounding and no NaN. The 0.01 tolerance is exact, and `float.MaxValue` is a named constant.
- Engine internals behind `FindEntityInSphere`, `PushTimer`, `StopTimer`, `IsValidTimer`, the transmit manager's `IsEntityHooked`, `AddEntityHooks` and `SetEntityState`, and `DateTime.UtcNow`.
  - The transmit-manager calls are assumed never to throw. The C# has no try/catch around them, so a throw would abort `UpdateVisibility` or `UnhideAllForCaller` with the registry only partly updated.
  - The sphere query is a finite snapshot whose distances are given; the boundary is inclusive.
  - The timer is an abstract handle in a live set. The host calling the tick body once a second is not modelled beyond `MonitorTick` itself.
  - Time is an integer `now`.
- The values of `PlayerSlot.MaxPlayerSlot` (64) and `SignOnState.Connected` (2) come from the host library, not from the modelled files.
- `GetAllControllers` returns a finished sequence; the lazy `yield` enumeration is not modelled.
- Subscribers of `OnEntityRemoved` are not run. A subscriber that re-enters the tracker is not modelled.
- `UntrackEntity` with a null key is not modelled: the dictionary throws for it.
- A null `entity` passed to `AssignLeader`, `RemoveLeader` or `IsLeader` (Leader/LeaderMethod.cs:17, 30, 50) throws in the C#. `BaseEntity` is a value that cannot be null, so that case is not modelled.
- Concurrency: all of this code runs on the game thread.
- HideSession.Leader.MonitorTick, HideSession.Leader.StopVisibilityMonitor and HideSession.Leader.OnHideCommand: the stored controller's validity at the time of the call is an oracle parameter, and so is what its `GetPawn()` returns. The oracle is not tied to the sender's validity, even when the stored controller is the sender itself.
- LeaderSet.LeaderMethod.GetAllLeaderSteamIds: the model returns the set's contents at the call, not the live set the C# hands out. A C# caller holding the result sees later `AssignLeader`, `RemoveLeader` and `ClearAllLeaders` calls, and enumerating it across one of them throws. That aliasing is not modelled.
- HideSession.Leader.OnHideCommand: the code has one session slot for the module, not one per player. A second caller replaces the first, and the first caller's pairs are not restored. The model follows the code.
- HideSession.ResubmitToggles: a second `/hide 0` enables full range again instead of toggling off, because the toggle test runs before `0` is mapped to `float.MaxValue`. The model follows the code, not the usual rule that resubmitting the active distance turns hiding off.
- OneShotHide.HideNearbyPlayers: it stays a separate pass that never restores.
  - A controller met twice in the snapshot is written and counted twice.
  - A null client or a throwing client lookup, or a null `AsPlayerController()` or `GetPawn()` result, ends the call with a fault. Writes issued before the fault are kept.
