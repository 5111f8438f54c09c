/**
 * The older, registry-free hide helpers (Leader/HideMethod.cs): enumerating
 * the connected players' controllers slot by slot, and a one-shot pass that
 * hides every qualifying player in a sphere from the caller, counting them.
 */
module OneShotHide {
  import opened Entities

  /** Channel the one-shot pass writes on. */
  const OneShotChannel: int := -1

  /** Number of player slots `GetAllControllers` scans (the host's `PlayerSlot.MaxPlayerSlot`). */
  const MaxPlayerSlot: nat := 64

  /** The host's `SignOnState.Connected`; smaller sign-on states are still connecting. */
  const SignOnConnected: int := 2

  datatype Client = Client(valid: bool, isFakeClient: bool, isHltv: bool, signOnState: int)

  /** What `GetGameClient(slot)` does: throw (slot not initialised), return null, or return a client. */
  datatype ClientLookup = Throws | NoClient | Found(client: Client)

  /** Client lookup by slot; a slot the map does not know throws. */
  function LookupClient(clients: map<PlayerSlot, ClientLookup>, slot: PlayerSlot): (r: ClientLookup)
  {
    if slot in clients then clients[slot] else Throws
  }

  // ---------------------------------------------------------------------------
  // GetAllControllers
  // ---------------------------------------------------------------------------

  /**
   * A slot yields its controller: its client lookup succeeds with a valid
   * client that is not a skipped fake client and has at least reached the
   * connected sign-on state, and the slot's controller exists and is valid.
   * `controllers` is `FindPlayerControllerBySlot`; a missing slot is null.
   */
  predicate SlotQualifies(clients: map<PlayerSlot, ClientLookup>, controllers: map<PlayerSlot, Controller>,
                          ignoreFakeClient: bool, slot: PlayerSlot)
  {
    && LookupClient(clients, slot).Found?
    && LookupClient(clients, slot).client.valid
    && !(ignoreFakeClient && LookupClient(clients, slot).client.isFakeClient)
    && LookupClient(clients, slot).client.signOnState >= SignOnConnected
    && slot in controllers && controllers[slot].valid
  }

  /** The qualifying slots below `n`, in the order the `for` loop meets them. */
  function QualifyingSlots(clients: map<PlayerSlot, ClientLookup>, controllers: map<PlayerSlot, Controller>,
                           ignoreFakeClient: bool, n: nat): (r: seq<PlayerSlot>)
  {
    if n == 0 then []
    else QualifyingSlots(clients, controllers, ignoreFakeClient, n - 1)
         + (if SlotQualifies(clients, controllers, ignoreFakeClient, n - 1) then [n - 1] else [])
  }

  /**
   * The slots are visited in strictly ascending order, each below `n`, and a
   * slot is listed exactly when it qualifies.
   */
  lemma {:induction false} QualifyingSlotsOrdered(clients: map<PlayerSlot, ClientLookup>,
                                                  controllers: map<PlayerSlot, Controller>,
                                                  ignoreFakeClient: bool, n: nat)
    ensures var q := QualifyingSlots(clients, controllers, ignoreFakeClient, n);
      && (forall i, j :: 0 <= i < j < |q| ==> q[i] < q[j])
      && (forall s :: s in q <==> 0 <= s < n && SlotQualifies(clients, controllers, ignoreFakeClient, s))
  {
    if n > 0 {
      var q' := QualifyingSlots(clients, controllers, ignoreFakeClient, n - 1);
      QualifyingSlotsOrdered(clients, controllers, ignoreFakeClient, n - 1);
      assert forall i :: 0 <= i < |q'| ==> q'[i] in q';
    }
  }

  /** Every valid controller of a connected (and, if asked, real) client, slot by slot. */
  method GetAllControllers(clients: map<PlayerSlot, ClientLookup>, controllers: map<PlayerSlot, Controller>,
                           ignoreFakeClient: bool := true)
    returns (result: seq<Controller>)
    ensures var q := QualifyingSlots(clients, controllers, ignoreFakeClient, MaxPlayerSlot);
      && |result| == |q|
      && forall k :: 0 <= k < |q| ==> q[k] in controllers && result[k] == controllers[q[k]]
    ensures forall c :: c in result ==> c.valid
  {
    result := [];
    ghost var slots: seq<PlayerSlot> := [];
    var slot := 0;
    while slot < MaxPlayerSlot
      invariant 0 <= slot <= MaxPlayerSlot
      invariant slots == QualifyingSlots(clients, controllers, ignoreFakeClient, slot)
      invariant |result| == |slots|
      invariant forall k :: 0 <= k < |slots| ==> slots[k] in controllers && result[k] == controllers[slots[k]]
      invariant forall c :: c in result ==> c.valid
    {
      var lookup := LookupClient(clients, slot);
      if lookup.Found? {
        var client := lookup.client;
        if client.valid && !(ignoreFakeClient && client.isFakeClient) && client.signOnState >= SignOnConnected {
          if slot in controllers && controllers[slot].valid {
            result := result + [controllers[slot]];
            slots := slots + [slot];
          }
        }
      }
      slot := slot + 1;
    }
  }

  // ---------------------------------------------------------------------------
  // HideNearbyPlayers
  // ---------------------------------------------------------------------------

  /**
   * How a call ends: returned early, finished after hiding `hiddenCount`
   * players, or stopped by a null dereference after `hiddenCount` hides.
   */
  datatype HideOutcome = Skipped | Completed(hiddenCount: nat) | Faulted(hiddenCount: nat)

  /** What the loop does with one snapshot entity. */
  datatype Verdict = Skip | Hide(target: EntityIndex) | Fault

  function Judge(e: Entity, callerPawnIndex: EntityIndex, clients: map<PlayerSlot, ClientLookup>): (r: Verdict)
  {
    if !e.isPlayerPawn || e.asPawn.None? then Skip
    else
      var pawn := e.asPawn.value;
      if !pawn.valid || pawn.index == callerPawnIndex then Skip
      else if pawn.controller.None? || !pawn.controller.value.valid then Skip
      else match LookupClient(clients, pawn.controller.value.slot)
        case Found(client) => if !client.valid || client.isHltv then Skip else Hide(pawn.controller.value.index)
        case _ => Fault
  }

  /** The target a `Hide` verdict names is a valid, non-self pawn's valid controller with a valid, non-HLTV client. */
  lemma HideTargetQualifies(e: Entity, callerPawnIndex: EntityIndex, clients: map<PlayerSlot, ClientLookup>)
    requires Judge(e, callerPawnIndex, clients).Hide?
    ensures e.isPlayerPawn && e.asPawn.Some? && e.asPawn.value.valid && e.asPawn.value.index != callerPawnIndex
    ensures var c := e.asPawn.value.controller;
      && c.Some? && c.value.valid && c.value.index == Judge(e, callerPawnIndex, clients).target
      && LookupClient(clients, c.value.slot).Found?
      && LookupClient(clients, c.value.slot).client.valid && !LookupClient(clients, c.value.slot).client.isHltv
  {
  }

  /** State of the one-shot loop. */
  datatype OneShot = OneShot(hooked: set<EntityIndex>, ops: seq<TransmitOp>, count: nat, faulted: bool)

  function OneShotStep(st: OneShot, e: Entity, callerIndex: EntityIndex, callerPawnIndex: EntityIndex,
                       clients: map<PlayerSlot, ClientLookup>): (r: OneShot)
  {
    if st.faulted then st
    else match Judge(e, callerPawnIndex, clients)
      case Skip => st
      case Fault => st.(faulted := true)
      case Hide(t) =>
        OneShot(st.hooked + {t},
                st.ops + (if t in st.hooked then [] else [AddHook(t, true)]) + [SetState(t, callerIndex, false, OneShotChannel)],
                st.count + 1, false)
  }

  function OneShotScan(snapshot: seq<Entity>, callerIndex: EntityIndex, callerPawnIndex: EntityIndex,
                       clients: map<PlayerSlot, ClientLookup>, hooked: set<EntityIndex>): (r: OneShot)
  {
    if snapshot == [] then OneShot(hooked, [], 0, false)
    else OneShotStep(OneShotScan(snapshot[..|snapshot| - 1], callerIndex, callerPawnIndex, clients, hooked),
                     snapshot[|snapshot| - 1], callerIndex, callerPawnIndex, clients)
  }

  /** Number of state writes among `ops`. */
  function Writes(ops: seq<TransmitOp>): (r: nat)
  {
    if ops == [] then 0 else Writes(ops[..|ops| - 1]) + (if ops[|ops| - 1].SetState? then 1 else 0)
  }

  lemma {:induction false} WritesAppend(a: seq<TransmitOp>, b: seq<TransmitOp>)
    ensures Writes(a + b) == Writes(a) + Writes(b)
  {
    if b != [] {
      assert (a + b)[..|a + b| - 1] == a + b[..|b| - 1];
      WritesAppend(a, b[..|b| - 1]);
    } else {
      assert a + b == a;
    }
  }

  /** Number of snapshot entities judged `Hide`. */
  function HideCount(snapshot: seq<Entity>, callerPawnIndex: EntityIndex, clients: map<PlayerSlot, ClientLookup>): (r: nat)
  {
    if snapshot == [] then 0
    else HideCount(snapshot[..|snapshot| - 1], callerPawnIndex, clients)
         + (if Judge(snapshot[|snapshot| - 1], callerPawnIndex, clients).Hide? then 1 else 0)
  }

  /** `hiddenCount` is the number of hide writes issued. */
  lemma {:induction false} OneShotCountsWrites(s: seq<Entity>, ci: EntityIndex, cpi: EntityIndex,
                                               clients: map<PlayerSlot, ClientLookup>, h: set<EntityIndex>)
    ensures var st := OneShotScan(s, ci, cpi, clients, h);
      st.count == Writes(st.ops)
  {
    if s != [] {
      var s', e := s[..|s| - 1], s[|s| - 1];
      OneShotCountsWrites(s', ci, cpi, clients, h);
      var st' := OneShotScan(s', ci, cpi, clients, h);
      if !st'.faulted && Judge(e, cpi, clients).Hide? {
        var t := Judge(e, cpi, clients).target;
        var hook: seq<TransmitOp> := if t in st'.hooked then [] else [AddHook(t, true)];
        var added := hook + [SetState(t, ci, false, OneShotChannel)];
        assert OneShotScan(s, ci, cpi, clients, h).ops == st'.ops + added;
        WritesAppend(st'.ops, added);
        assert added[..|added| - 1] == hook;
        assert Writes(hook) == 0;
      }
    }
  }

  /**
   * Every write of the one-shot pass hides, from the caller, with
   * `visible = false` on channel -1, a target that some snapshot entity was
   * judged `Hide` for.
   */
  lemma {:induction false} OneShotWritesQualify(s: seq<Entity>, ci: EntityIndex, cpi: EntityIndex,
                                                clients: map<PlayerSlot, ClientLookup>, h: set<EntityIndex>)
    ensures forall op :: op in OneShotScan(s, ci, cpi, clients, h).ops && op.SetState? ==>
      && op.receiver == ci && !op.visible && op.channel == OneShotChannel
      && exists i :: 0 <= i < |s| && Judge(s[i], cpi, clients) == Hide(op.target)
  {
    if s != [] {
      var s', e := s[..|s| - 1], s[|s| - 1];
      OneShotWritesQualify(s', ci, cpi, clients, h);
      var st' := OneShotScan(s', ci, cpi, clients, h);
      var st := OneShotScan(s, ci, cpi, clients, h);
      forall op | op in st.ops && op.SetState?
        ensures op.receiver == ci && !op.visible && op.channel == OneShotChannel
        ensures exists i :: 0 <= i < |s| && Judge(s[i], cpi, clients) == Hide(op.target)
      {
        if op in st'.ops {
          var i :| 0 <= i < |s'| && Judge(s'[i], cpi, clients) == Hide(op.target);
          assert s[i] == s'[i];
        } else {
          assert Judge(s[|s| - 1], cpi, clients) == Hide(op.target);
        }
      }
    }
  }

  /**
   * A pass that meets no null client hides every entity judged `Hide` — one
   * write each, with no de-duplication of a controller seen twice — and a
   * pass faults exactly when some entity's client lookup fails.
   */
  lemma {:induction false} OneShotCompleteCount(s: seq<Entity>, ci: EntityIndex, cpi: EntityIndex,
                                                clients: map<PlayerSlot, ClientLookup>, h: set<EntityIndex>)
    ensures var st := OneShotScan(s, ci, cpi, clients, h);
      && (st.faulted <==> exists i :: 0 <= i < |s| && Judge(s[i], cpi, clients) == Fault)
      && (!st.faulted ==> st.count == HideCount(s, cpi, clients))
  {
    if s != [] {
      var s', e := s[..|s| - 1], s[|s| - 1];
      OneShotCompleteCount(s', ci, cpi, clients, h);
      if exists i :: 0 <= i < |s'| && Judge(s'[i], cpi, clients) == Fault {
        var i :| 0 <= i < |s'| && Judge(s'[i], cpi, clients) == Fault;
        assert s[i] == s'[i];
      }
      if exists i :: 0 <= i < |s| && Judge(s[i], cpi, clients) == Fault {
        var i :| 0 <= i < |s| && Judge(s[i], cpi, clients) == Fault;
        if i < |s'| {
          assert s'[i] == s[i];
        }
      }
    }
  }

  /**
   * Every entity judged `Hide` that the pass reaches before any fault gets its
   * hide write: its controller is made invisible to the caller on channel -1.
   */
  lemma {:induction false} OneShotEveryQualifierWritten(s: seq<Entity>, ci: EntityIndex, cpi: EntityIndex,
                                                        clients: map<PlayerSlot, ClientLookup>, h: set<EntityIndex>,
                                                        i: nat)
    requires i < |s| && Judge(s[i], cpi, clients).Hide?
    requires !OneShotScan(s[..i], ci, cpi, clients, h).faulted
    ensures SetState(Judge(s[i], cpi, clients).target, ci, false, OneShotChannel) in OneShotScan(s, ci, cpi, clients, h).ops
  {
    var s' := s[..|s| - 1];
    if i == |s| - 1 {
      assert s' == s[..i];
    } else {
      assert s'[..i] == s[..i];
      assert s'[i] == s[i];
      OneShotEveryQualifierWritten(s', ci, cpi, clients, h, i);
    }
  }

  /** A pass that does not fault writes a hide for every entity judged `Hide`. */
  lemma OneShotCompleteWrites(s: seq<Entity>, ci: EntityIndex, cpi: EntityIndex,
                              clients: map<PlayerSlot, ClientLookup>, h: set<EntityIndex>)
    requires !OneShotScan(s, ci, cpi, clients, h).faulted
    ensures forall i :: 0 <= i < |s| && Judge(s[i], cpi, clients).Hide? ==>
      SetState(Judge(s[i], cpi, clients).target, ci, false, OneShotChannel) in OneShotScan(s, ci, cpi, clients, h).ops
  {
    forall i | 0 <= i < |s| && Judge(s[i], cpi, clients).Hide?
      ensures SetState(Judge(s[i], cpi, clients).target, ci, false, OneShotChannel) in OneShotScan(s, ci, cpi, clients, h).ops
    {
      if OneShotScan(s[..i], ci, cpi, clients, h).faulted {
        FaultStops(s, i, ci, cpi, clients, h);
      }
      OneShotEveryQualifierWritten(s, ci, cpi, clients, h, i);
    }
  }

  /** Once the loop has faulted, later entities change nothing. */
  lemma {:induction false} FaultStops(s: seq<Entity>, i: nat, ci: EntityIndex, cpi: EntityIndex,
                                      clients: map<PlayerSlot, ClientLookup>, h: set<EntityIndex>)
    requires i <= |s|
    requires OneShotScan(s[..i], ci, cpi, clients, h).faulted
    ensures OneShotScan(s, ci, cpi, clients, h) == OneShotScan(s[..i], ci, cpi, clients, h)
  {
    if i < |s| {
      assert s[..|s| - 1][..i] == s[..i];
      FaultStops(s[..|s| - 1], i, ci, cpi, clients, h);
    } else {
      assert s[..i] == s;
    }
  }

  /**
   * Hide, from the caller, every player whose pawn is in a sphere of radius
   * `maxDistance` around the caller's pawn; no registry is kept and nothing
   * is restored later. `callerPawn` is what `GetPawn()` returns for the
   * caller's controller, `clients` the client lookup by slot. The count the
   * C# method prints to the caller is returned in the outcome.
   */
  method HideNearbyPlayers(tm: TransmitManager, caller: Option<BaseEntity>, callerPawn: Option<Pawn>,
                           maxDistance: real, world: seq<Entity>, clients: map<PlayerSlot, ClientLookup>)
    returns (outcome: HideOutcome)
    modifies tm
    ensures caller.None? || !caller.value.valid ==> outcome == Skipped && unchanged(tm)
    ensures caller.Some? && caller.value.valid && caller.value.asController.None? ==>
      outcome == Faulted(0) && unchanged(tm)
    ensures caller.Some? && caller.value.valid && caller.value.asController.Some? ==>
      var controller := caller.value.asController.value;
      if !controller.valid then outcome == Skipped && unchanged(tm)
      else if callerPawn.None? then outcome == Faulted(0) && unchanged(tm)
      else if !callerPawn.value.valid then outcome == Skipped && unchanged(tm)
      else
        var st := OneShotScan(SphereQuery(world, maxDistance), controller.index, callerPawn.value.index,
                              clients, old(tm.hooked));
        && tm.hooked == st.hooked
        && tm.log == old(tm.log) + st.ops
        && outcome == if st.faulted then Faulted(st.count) else Completed(st.count)
  {
    if caller.None? || !caller.value.valid {
      return Skipped;
    }
    if caller.value.asController.None? {
      return Faulted(0);
    }
    var controller := caller.value.asController.value;
    if !controller.valid {
      return Skipped;
    }
    if callerPawn.None? {
      return Faulted(0);
    }
    if !callerPawn.value.valid {
      return Skipped;
    }
    var snapshot := SphereQuery(world, maxDistance);
    outcome := HideInSphere(tm, controller.index, callerPawn.value.index, snapshot, clients);
  }

  /**
   * The cursor loop of `HideNearbyPlayers`: hook and hide each qualifying
   * entity's controller from the caller and count it, stopping at a null client.
   */
  method HideInSphere(tm: TransmitManager, callerControllerIndex: EntityIndex, callerPawnIndex: EntityIndex,
                      snapshot: seq<Entity>, clients: map<PlayerSlot, ClientLookup>)
    returns (outcome: HideOutcome)
    modifies tm
    ensures var st := OneShotScan(snapshot, callerControllerIndex, callerPawnIndex, clients, old(tm.hooked));
      && tm.hooked == st.hooked
      && tm.log == old(tm.log) + st.ops
      && outcome == if st.faulted then Faulted(st.count) else Completed(st.count)
  {
    var hiddenCount: nat := 0;
    var i := 0;
    while i < |snapshot|
      invariant 0 <= i <= |snapshot|
      invariant var st := OneShotScan(snapshot[..i], callerControllerIndex, callerPawnIndex, clients, old(tm.hooked));
        && !st.faulted && tm.hooked == st.hooked && tm.log == old(tm.log) + st.ops && hiddenCount == st.count
    {
      var entity := snapshot[i];
      assert snapshot[..i + 1][..i] == snapshot[..i];
      i := i + 1;
      if !entity.isPlayerPawn || entity.asPawn.None? {
        continue;
      }
      var pawn := entity.asPawn.value;
      if !pawn.valid {
        continue;
      }
      if pawn.index == callerPawnIndex {
        continue;
      }
      var targetController := pawn.controller;
      if targetController.None? || !targetController.value.valid {
        continue;
      }
      var lookup := LookupClient(clients, targetController.value.slot);
      if !lookup.Found? {
        FaultStops(snapshot, i, callerControllerIndex, callerPawnIndex, clients, old(tm.hooked));
        return Faulted(hiddenCount);
      }
      if !lookup.client.valid || lookup.client.isHltv {
        continue;
      }
      if !tm.IsEntityHooked(targetController.value.index) {
        tm.AddEntityHooks(targetController.value.index, true);
      }
      tm.SetEntityState(targetController.value.index, callerControllerIndex, false, OneShotChannel);
      hiddenCount := hiddenCount + 1;
    }
    assert snapshot[..|snapshot|] == snapshot;
    return Completed(hiddenCount);
  }
}
