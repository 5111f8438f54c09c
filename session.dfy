/**
 * The hide session of the Leader module (Leader/Leader.cs): the `/hide`
 * command, the repeating visibility monitor and its teardown. There is one
 * session slot for the whole module: a second caller replaces the first
 * without the first caller's pairs being restored.
 */
module HideSession {
  import opened Entities
  import opened VisibilityDiff

  /** `float.MaxValue`: the radius a distance of 0 stands for. */
  const FloatMaxValue: real := 340282346638528859811704183484516925440.0

  /** The distance that cancels a session. */
  const CancelDistance: real := -1.0

  /** Two distances closer than this count as the same (toggle-off). */
  const ToggleTolerance: real := 0.01

  /** A timer handle; 0 plays the empty handle, which never names a live timer. */
  type TimerId = nat

  datatype CommandAction = Handled | Stopped

  /** How the `/hide` handler reads a parsed argument. */
  datatype HideRequest = Usage | Cancel | Enable(distance: real)

  function Abs(x: real): (r: real)
  {
    if x < 0.0 then -x else x
  }

  /**
   * The decision `OnHideCommand` takes: a failed parse prints usage; `-1`, or
   * a distance within the tolerance of the active one while hiding, cancels;
   * anything else enables, with 0 mapped to full range after the toggle test.
   */
  function Classify(isHiding: bool, lastDistance: real, parsed: Option<real>): (r: HideRequest)
    ensures r.Usage? <==> parsed.None?
    ensures parsed == Some(CancelDistance) ==> r == Cancel
    ensures r.Enable? ==> r.distance == if parsed.value == 0.0 then FloatMaxValue else parsed.value
    ensures r.Enable? && isHiding ==> Abs(parsed.value - lastDistance) >= ToggleTolerance
    ensures r.Enable? <==>
      && parsed.Some? && parsed.value != CancelDistance
      && !(isHiding && Abs(parsed.value - lastDistance) < ToggleTolerance)
  {
    match parsed
    case None => Usage
    case Some(d) =>
      if d == CancelDistance || (isHiding && Abs(d - lastDistance) < ToggleTolerance) then Cancel
      else Enable(if d == 0.0 then FloatMaxValue else d)
  }

  /** An enabled distance is never one of the two sentinels. */
  lemma EnabledDistanceIsNoSentinel(isHiding: bool, lastDistance: real, parsed: Option<real>)
    requires Classify(isHiding, lastDistance, parsed).Enable?
    ensures Classify(isHiding, lastDistance, parsed).distance != 0.0
    ensures Classify(isHiding, lastDistance, parsed).distance != CancelDistance
  {
  }

  /** `-1` cancels whatever the session state. */
  lemma MinusOneCancels(isHiding: bool, lastDistance: real)
    ensures Classify(isHiding, lastDistance, Some(CancelDistance)) == Cancel
  {
  }

  /**
   * Toggle law: resubmitting the argument that enabled the session cancels
   * it — except for 0, whose stored distance is `float.MaxValue`, so that a
   * second `/hide 0` enables full range again instead of toggling off.
   */
  lemma ResubmitToggles(isHiding: bool, lastDistance: real, d: real)
    requires Classify(isHiding, lastDistance, Some(d)).Enable?
    ensures var stored := Classify(isHiding, lastDistance, Some(d)).distance;
      Classify(true, stored, Some(d)) == if d == 0.0 then Enable(FloatMaxValue) else Cancel
  {
  }

  /**
   * Sentinel mapping: when no session is active, 0 and `float.MaxValue` enable
   * the same full-range session; when a full-range session is active, only
   * `float.MaxValue` toggles it off.
   */
  lemma ZeroMeansFullRange(lastDistance: real)
    ensures Classify(false, lastDistance, Some(0.0)) == Classify(false, lastDistance, Some(FloatMaxValue))
    ensures Classify(false, lastDistance, Some(0.0)) == Enable(FloatMaxValue)
    ensures Classify(true, FloatMaxValue, Some(0.0)) == Enable(FloatMaxValue)
    ensures Classify(true, FloatMaxValue, Some(FloatMaxValue)) == Cancel
  {
  }

  /** The host's timer table: which timers are live, and the next handle to issue. */
  class TimerHost {
    var live: set<TimerId>
    var next: TimerId

    ghost predicate Valid()
      reads this
    {
      0 < next && forall t :: t in live ==> 0 < t < next
    }

    constructor ()
      ensures Valid() && live == {}
    {
      live := {};
      next := 1;
    }

    /** Whether the handle names a live timer; the empty handle never does in a valid table. */
    function IsValidTimer(id: TimerId): (r: bool)
      reads this
      ensures r <==> id in live
      ensures Valid() && r ==> 0 < id < next
    {
      id in live
    }

    method StopTimer(id: TimerId)
      requires Valid()
      modifies this
      ensures Valid()
      ensures live == old(live) - {id} && next == old(next)
      ensures !IsValidTimer(id)
    {
      live := live - {id};
    }

    /** Arm a repeating timer and return its fresh handle. */
    method PushTimer() returns (id: TimerId)
      requires Valid()
      modifies this
      ensures Valid()
      ensures id != 0 && id !in old(live)
      ensures id >= old(next)  // never issued before
      ensures live == old(live) + {id}
      ensures IsValidTimer(id)
    {
      id := next;
      next := next + 1;
      live := live + {id};
    }
  }

  class Leader {
    const registry: DistanceUtils
    const transmit: TransmitManager
    const timers: TimerHost

    var visibilityTimerId: TimerId
    var callerController: Option<Controller>
    var callerDistance: real
    var lastDistance: real
    var isHiding: bool

    /**
     * At most one monitor timer is live, and it is the one the session holds;
     * an idle session holds the reset values, an active one a stored caller
     * and a distance that is not a sentinel. The registry of hidden pairs
     * agrees with what was last written on the hide channel.
     */
    ghost predicate Valid()
      reads this, timers, registry, transmit
    {
      && timers.Valid()
      && RegistryMatchesLog(registry.hiddenPairs, transmit.log)
      && timers.live <= {visibilityTimerId}
      && (!isHiding ==> callerController == None && lastDistance == CancelDistance && callerDistance == 0.0)
      && (isHiding ==> callerController.Some? && callerDistance == lastDistance
                       && lastDistance != 0.0 && lastDistance != CancelDistance)
    }

    constructor (registry: DistanceUtils, transmit: TransmitManager, timers: TimerHost)
      requires timers.Valid() && timers.live == {}
      requires RegistryMatchesLog(registry.hiddenPairs, transmit.log)
      ensures Valid()
      ensures this.registry == registry && this.transmit == transmit && this.timers == timers
      ensures !isHiding && visibilityTimerId == 0
    {
      this.registry := registry;
      this.transmit := transmit;
      this.timers := timers;
      visibilityTimerId := 0;
      callerController := None;
      callerDistance := 0.0;
      lastDistance := CancelDistance;
      isHiding := false;
    }

    /**
     * `/hide <distance>` from the player whose controller lookup gave
     * `controller`. `parsed` is the result of parsing the argument,
     * `storedCallerValid` whether the session's stored caller is valid now,
     * `callerPawn` the new caller's pawn and `world` what a sphere query around
     * it can return.
     */
    method OnHideCommand(controller: Option<Controller>, parsed: Option<real>, storedCallerValid: bool,
                         callerPawn: Option<Pawn>, world: seq<Entity>)
      returns (action: CommandAction)
      requires Valid()
      modifies this, timers, registry, transmit
      ensures Valid()
      ensures controller.None? || !controller.value.valid ==>
        action == Handled && unchanged(this, timers, registry, transmit)
      ensures controller.Some? && controller.value.valid ==>
        match Classify(old(isHiding), old(lastDistance), parsed)
        case Usage =>
          action == Handled && unchanged(this, timers, registry, transmit)
        case Cancel =>
          && action == Stopped
          && !isHiding && lastDistance == CancelDistance && callerController == None && callerDistance == 0.0
          && timers.live == {}
          && transmit.hooked == old(transmit.hooked)
          && Restored(old(registry.hiddenPairs), old(transmit.log), registry.hiddenPairs, transmit.log,
                      StoredCaller(old(callerController), storedCallerValid))
        case Enable(d) =>
          && action == Handled
          && isHiding && callerController == controller && callerDistance == d && lastDistance == d
          && Updated(old(registry.hiddenPairs), old(transmit.hooked), old(transmit.log),
                     registry.hiddenPairs, transmit.hooked, transmit.log,
                     controller, callerPawn, SphereQuery(world, d))
          && (forall p: Pair :: p.caller != controller.value.index ==>
                (p in registry.hiddenPairs <==> p in old(registry.hiddenPairs)))
          && timers.live == {visibilityTimerId} && visibilityTimerId !in old(timers.live)
    {
      if controller.None? || !controller.value.valid {
        return Handled;
      }
      if parsed.None? {
        return Handled;
      }
      var distance := parsed.value;

      if distance == CancelDistance || (isHiding && Abs(distance - lastDistance) < ToggleTolerance) {
        StopVisibilityMonitor(true, storedCallerValid);
        isHiding := false;
        lastDistance := CancelDistance;
        callerController := None;
        callerDistance := 0.0;
        return Stopped;
      }

      if distance == 0.0 {
        distance := FloatMaxValue;
      }

      callerController := controller;
      callerDistance := distance;
      lastDistance := distance;
      isHiding := true;

      registry.UpdateVisibility(transmit, callerController, callerPawn, callerDistance, world);
      UpdatedKeepsRegistryMatchingLog(old(registry.hiddenPairs), old(transmit.hooked), old(transmit.log),
                                      registry.hiddenPairs, transmit.hooked, transmit.log,
                                      controller, callerPawn, SphereQuery(world, distance));
      if Acts(controller, callerPawn) {
        UpdatedCoversAndIsolates(old(registry.hiddenPairs), old(transmit.hooked), old(transmit.log),
                                 registry.hiddenPairs, transmit.hooked, transmit.log,
                                 controller, callerPawn, SphereQuery(world, distance));
      }

      StartVisibilityMonitor();
      return Handled;
    }

    /** Cancel the live monitor timer, if any, and arm a new repeating one. */
    method StartVisibilityMonitor()
      requires Valid()
      modifies this`visibilityTimerId, timers
      ensures Valid()
      ensures timers.live == {visibilityTimerId}
      ensures visibilityTimerId !in old(timers.live)
    {
      if timers.IsValidTimer(visibilityTimerId) {
        timers.StopTimer(visibilityTimerId);
      }
      visibilityTimerId := timers.PushTimer();
    }

    /**
     * Body of the monitor timer, run by the host once a second while the
     * timer is live: reconcile for the stored caller with the stored distance.
     */
    method MonitorTick(storedCallerValid: bool, callerPawn: Option<Pawn>, world: seq<Entity>)
      requires Valid()
      modifies registry, transmit
      ensures Valid()
      ensures isHiding && callerController.Some? && storedCallerValid ==>
        Updated(old(registry.hiddenPairs), old(transmit.hooked), old(transmit.log),
                registry.hiddenPairs, transmit.hooked, transmit.log,
                StoredCaller(callerController, storedCallerValid), callerPawn, SphereQuery(world, callerDistance))
      ensures !(isHiding && callerController.Some? && storedCallerValid) ==> unchanged(registry, transmit)
    {
      if isHiding && callerController.Some? && storedCallerValid {
        registry.UpdateVisibility(transmit, StoredCaller(callerController, storedCallerValid),
                                  callerPawn, callerDistance, world);
        UpdatedKeepsRegistryMatchingLog(old(registry.hiddenPairs), old(transmit.hooked), old(transmit.log),
                                        registry.hiddenPairs, transmit.hooked, transmit.log,
                                        StoredCaller(callerController, storedCallerValid), callerPawn,
                                        SphereQuery(world, callerDistance));
      }
    }

    /**
     * Cancel the monitor timer; with `stopAndUnhide`, also restore the stored
     * caller's pairs when that caller is non-null and valid.
     */
    method StopVisibilityMonitor(stopAndUnhide: bool, storedCallerValid: bool)
      requires Valid()
      modifies timers, registry, transmit
      ensures Valid()
      ensures timers.live == {}
      ensures transmit.hooked == old(transmit.hooked)
      ensures stopAndUnhide ==>
        Restored(old(registry.hiddenPairs), old(transmit.log), registry.hiddenPairs, transmit.log,
                 StoredCaller(callerController, storedCallerValid))
      ensures !stopAndUnhide ==> unchanged(registry, transmit)
    {
      if timers.IsValidTimer(visibilityTimerId) {
        timers.StopTimer(visibilityTimerId);
      }
      if stopAndUnhide && callerController.Some? && storedCallerValid {
        registry.UnhideAllForCaller(transmit, StoredCaller(callerController, storedCallerValid));
        RestoredKeepsRegistryMatchingLog(old(registry.hiddenPairs), old(transmit.log),
                                         registry.hiddenPairs, transmit.log,
                                         StoredCaller(callerController, storedCallerValid));
      }
    }

    /** Module shutdown: cancel the monitor and, if the stored caller is non-null and valid, restore its pairs. */
    method Shutdown(storedCallerValid: bool)
      requires Valid()
      modifies timers, registry, transmit
      ensures Valid()
      ensures timers.live == {}
      ensures transmit.hooked == old(transmit.hooked)
      ensures Restored(old(registry.hiddenPairs), old(transmit.log), registry.hiddenPairs, transmit.log,
                       StoredCaller(callerController, storedCallerValid))
    {
      StopVisibilityMonitor(true, storedCallerValid);
    }
  }

  /** The stored caller as it is now: null stays null, otherwise its validity is `validNow`. */
  function StoredCaller(stored: Option<Controller>, validNow: bool): (r: Option<Controller>)
    ensures r.Some? <==> stored.Some?
    ensures r.Some? ==> r.value.index == stored.value.index && r.value.valid == validNow
  {
    if stored.None? then None else Some(stored.value.(valid := validNow))
  }
}
