/**
 * The incremental distance-hiding engine: a process-wide registry of
 * (target, caller) pairs that are currently hidden, reconciled against one
 * sphere-query snapshot per call (Leader/ModuleMethod/HideMethod.cs).
 *
 * The specification is a fold over the snapshot (`ScanAll`) followed by the
 * removal of the caller's pairs that left range (`Leaving`); the lemmas below
 * state what that fold means, and class `DistanceUtils` is proved against it.
 */
module VisibilityDiff {
  import opened Entities

  /** Transmit channel the incremental engine writes on. */
  const HideChannel: int := 2

  /** `target` is currently hidden from `caller`. */
  datatype Pair = Pair(target: EntityIndex, caller: EntityIndex)

  /** The caller resolves to a valid controller whose pawn exists and is valid. */
  predicate Acts(caller: Option<Controller>, callerPawn: Option<Pawn>)
  {
    caller.Some? && caller.value.valid && callerPawn.Some? && callerPawn.value.valid
  }

  /**
   * The pair one snapshot entity yields, if any: it must be a valid player pawn
   * other than the caller's own, whose controller is non-null and valid.
   */
  function PairFor(e: Entity, callerIndex: EntityIndex, callerPawnIndex: EntityIndex): (r: Option<Pair>)
    ensures r.Some? ==> r.value.caller == callerIndex
    ensures r.Some? ==> e.isPlayerPawn && e.asPawn.Some? && e.asPawn.value.valid
    ensures r.Some? ==> e.asPawn.value.index != callerPawnIndex
    ensures r.Some? ==> e.asPawn.value.controller.Some? && e.asPawn.value.controller.value.valid
    ensures r.Some? ==> e.asPawn.value.controller.value.index == r.value.target
    ensures && e.isPlayerPawn && e.asPawn.Some? && e.asPawn.value.valid && e.asPawn.value.index != callerPawnIndex
            && e.asPawn.value.controller.Some? && e.asPawn.value.controller.value.valid
            ==> r == Some(Pair(e.asPawn.value.controller.value.index, callerIndex))
  {
    if !e.isPlayerPawn || e.asPawn.None? then None
    else
      var pawn := e.asPawn.value;
      if !pawn.valid || pawn.index == callerPawnIndex then None
      else if pawn.controller.None? || !pawn.controller.value.valid then None
      else Some(Pair(pawn.controller.value.index, callerIndex))
  }

  /** Reference definition of the current-tick set: every pair some snapshot entity yields. */
  function CurrentPairs(snapshot: seq<Entity>, callerIndex: EntityIndex, callerPawnIndex: EntityIndex): (r: set<Pair>)
  {
    set e | e in snapshot && PairFor(e, callerIndex, callerPawnIndex).Some? :: PairFor(e, callerIndex, callerPawnIndex).value
  }

  /** The registry's pairs owned by `callerIndex`. */
  function Owned(registry: set<Pair>, callerIndex: EntityIndex): (r: set<Pair>)
  {
    set p | p in registry && p.caller == callerIndex
  }

  /** State of the sphere loop: registry, hooked entities, issued calls, current-tick set. */
  datatype Scan = Scan(registry: set<Pair>, hooked: set<EntityIndex>, ops: seq<TransmitOp>, current: set<Pair>)

  /** Calls issued for a pair that entered range: a hook if the target is unhooked, then the hide write. */
  function HideOps(hooked: set<EntityIndex>, p: Pair): (r: seq<TransmitOp>)
  {
    (if p.target in hooked then [] else [AddHook(p.target, true)])
    + [SetState(p.target, p.caller, false, HideChannel)]
  }

  /** One iteration of the sphere loop. */
  function Step(st: Scan, e: Entity, callerIndex: EntityIndex, callerPawnIndex: EntityIndex): (r: Scan)
  {
    match PairFor(e, callerIndex, callerPawnIndex)
    case None => st
    case Some(p) =>
      if p in st.registry then st.(current := st.current + {p})
      else Scan(st.registry + {p}, st.hooked + {p.target}, st.ops + HideOps(st.hooked, p), st.current + {p})
  }

  /** The sphere loop run over a whole snapshot, starting from the given registry and hook state. */
  function ScanAll(snapshot: seq<Entity>, callerIndex: EntityIndex, callerPawnIndex: EntityIndex,
                   registry: set<Pair>, hooked: set<EntityIndex>): (r: Scan)
  {
    if snapshot == [] then Scan(registry, hooked, [], {})
    else
      Step(ScanAll(snapshot[..|snapshot| - 1], callerIndex, callerPawnIndex, registry, hooked),
           snapshot[|snapshot| - 1], callerIndex, callerPawnIndex)
  }

  /** The caller's pairs that are registered but were not seen this tick. */
  function Leaving(st: Scan, callerIndex: EntityIndex): (r: set<Pair>)
  {
    Owned(st.registry, callerIndex) - st.current
  }

  /** The registry after a reconciliation by an acting caller. */
  function Reconciled(registry: set<Pair>, hooked: set<EntityIndex>, snapshot: seq<Entity>,
                      callerIndex: EntityIndex, callerPawnIndex: EntityIndex): (r: set<Pair>)
  {
    var st := ScanAll(snapshot, callerIndex, callerPawnIndex, registry, hooked);
    st.registry - Leaving(st, callerIndex)
  }

  /** The restore writes issued for `order`, one per pair, in that order. */
  function RestoreOps(order: seq<Pair>, callerIndex: EntityIndex): (r: seq<TransmitOp>)
  {
    if order == [] then []
    else RestoreOps(order[..|order| - 1], callerIndex)
         + [SetState(order[|order| - 1].target, callerIndex, true, HideChannel)]
  }

  // ---------------------------------------------------------------------------
  // What the sphere loop computes
  // ---------------------------------------------------------------------------

  lemma CurrentPairsSnoc(s: seq<Entity>, e: Entity, ci: EntityIndex, cpi: EntityIndex)
    ensures CurrentPairs(s + [e], ci, cpi)
         == CurrentPairs(s, ci, cpi) + (if PairFor(e, ci, cpi).Some? then {PairFor(e, ci, cpi).value} else {})
  {
    assert forall x :: x in s + [e] <==> x in s || x == e;
  }

  /**
   * The sphere loop's current-tick set is exactly the reference set, and the
   * registry it leaves is the old registry plus that set; it hooks exactly the
   * targets of the pairs that were new.
   */
  lemma {:induction false} ScanShape(s: seq<Entity>, ci: EntityIndex, cpi: EntityIndex,
                                      r: set<Pair>, h: set<EntityIndex>)
    ensures var st := ScanAll(s, ci, cpi, r, h);
      && st.current == CurrentPairs(s, ci, cpi)
      && st.registry == r + st.current
      && st.hooked == h + (set p | p in st.current - r :: p.target)
  {
    if s != [] {
      var s', e := s[..|s| - 1], s[|s| - 1];
      assert s == s' + [e];
      ScanShape(s', ci, cpi, r, h);
      CurrentPairsSnoc(s', e, ci, cpi);
    }
  }

  /** Every pair of the current-tick set belongs to the caller. */
  lemma CurrentPairsOwned(s: seq<Entity>, ci: EntityIndex, cpi: EntityIndex)
    ensures forall p :: p in CurrentPairs(s, ci, cpi) ==> p.caller == ci
  {
  }

  /** The caller's own pawn never yields a pair, whatever else is true of it. */
  lemma OwnPawnYieldsNothing(s: seq<Entity>, ci: EntityIndex, cpi: EntityIndex, i: int)
    requires 0 <= i < |s| && s[i].asPawn.Some? && s[i].asPawn.value.index == cpi
    ensures PairFor(s[i], ci, cpi) == None
  {
  }

  /** Every call the sphere loop issues is a hook or a hide write to the caller on the hide channel. */
  lemma {:induction false} ScanOpsShape(s: seq<Entity>, ci: EntityIndex, cpi: EntityIndex,
                                         r: set<Pair>, h: set<EntityIndex>)
    ensures var ops := ScanAll(s, ci, cpi, r, h).ops;
      forall op :: op in ops ==>
        || (op.AddHook? && op.defaultTransmit)
        || (op.SetState? && op.receiver == ci && !op.visible && op.channel == HideChannel)
  {
    if s != [] {
      ScanOpsShape(s[..|s| - 1], ci, cpi, r, h);
    }
  }

  /**
   * A pair gets exactly one hide write if it was in range this tick and not
   * already registered, and none otherwise.
   */
  lemma {:induction false} HideWrittenOnce(s: seq<Entity>, ci: EntityIndex, cpi: EntityIndex,
                                            r: set<Pair>, h: set<EntityIndex>, p: Pair)
    ensures multiset(ScanAll(s, ci, cpi, r, h).ops)[SetState(p.target, p.caller, false, HideChannel)]
         == if p in CurrentPairs(s, ci, cpi) - r then 1 else 0
  {
    if s != [] {
      var s', e := s[..|s| - 1], s[|s| - 1];
      assert s == s' + [e];
      HideWrittenOnce(s', ci, cpi, r, h, p);
      ScanShape(s', ci, cpi, r, h);
      CurrentPairsSnoc(s', e, ci, cpi);
    }
  }

  /** A target gets one hook call when it first enters range unhooked, and none otherwise. */
  lemma {:induction false} HookedOnce(s: seq<Entity>, ci: EntityIndex, cpi: EntityIndex,
                                       r: set<Pair>, h: set<EntityIndex>, t: EntityIndex)
    ensures var st := ScanAll(s, ci, cpi, r, h);
      multiset(st.ops)[AddHook(t, true)] == if t in st.hooked - h then 1 else 0
  {
    if s != [] {
      var s', e := s[..|s| - 1], s[|s| - 1];
      HookedOnce(s', ci, cpi, r, h, t);
      ScanShape(s', ci, cpi, r, h);
    }
  }

  /** Every hide write is preceded by a hook of its target, unless that target was already hooked. */
  ghost predicate HooksPrecedeWrites(hooked: set<EntityIndex>, ops: seq<TransmitOp>)
  {
    forall i :: 0 <= i < |ops| && ops[i].SetState? ==>
      ops[i].target in hooked || AddHook(ops[i].target, true) in ops[..i]
  }

  lemma {:induction false} ScanHooksPrecedeWrites(s: seq<Entity>, ci: EntityIndex, cpi: EntityIndex,
                                                   r: set<Pair>, h: set<EntityIndex>)
    ensures var st := ScanAll(s, ci, cpi, r, h);
      && HooksPrecedeWrites(h, st.ops)
      && h <= st.hooked
      && forall t :: t in st.hooked && t !in h ==> AddHook(t, true) in st.ops
  {
    if s != [] {
      var s', e := s[..|s| - 1], s[|s| - 1];
      var st' := ScanAll(s', ci, cpi, r, h);
      ScanHooksPrecedeWrites(s', ci, cpi, r, h);
      var st := ScanAll(s, ci, cpi, r, h);
      if PairFor(e, ci, cpi).Some? && PairFor(e, ci, cpi).value !in st'.registry {
        var p := PairFor(e, ci, cpi).value;
        assert st.ops == st'.ops + HideOps(st'.hooked, p);
        forall i | 0 <= i < |st.ops| && st.ops[i].SetState?
          ensures st.ops[i].target in h || AddHook(st.ops[i].target, true) in st.ops[..i]
        {
          if i < |st'.ops| {
            assert st.ops[..i] == st'.ops[..i];
          } else if p.target !in st'.hooked {
            assert st.ops[|st'.ops|] == AddHook(p.target, true);
          } else if p.target !in h {
            assert st'.ops <= st.ops[..i];
          }
        }
      }
    }
  }

  /** If the registry already holds every current pair, the loop issues nothing and changes nothing. */
  lemma {:induction false} ScanQuiet(s: seq<Entity>, ci: EntityIndex, cpi: EntityIndex,
                                      r: set<Pair>, h: set<EntityIndex>)
    requires CurrentPairs(s, ci, cpi) <= r
    ensures ScanAll(s, ci, cpi, r, h) == Scan(r, h, [], CurrentPairs(s, ci, cpi))
  {
    if s != [] {
      var s', e := s[..|s| - 1], s[|s| - 1];
      assert s == s' + [e];
      CurrentPairsSnoc(s', e, ci, cpi);
      ScanQuiet(s', ci, cpi, r, h);
    }
  }

  // ---------------------------------------------------------------------------
  // What a reconciliation does to the registry
  // ---------------------------------------------------------------------------

  /** Coverage: after reconciling, the caller owns exactly the current-tick pairs. */
  lemma ReconcileCoverage(r: set<Pair>, h: set<EntityIndex>, s: seq<Entity>, ci: EntityIndex, cpi: EntityIndex)
    ensures Owned(Reconciled(r, h, s, ci, cpi), ci) == CurrentPairs(s, ci, cpi)
  {
    ScanShape(s, ci, cpi, r, h);
    CurrentPairsOwned(s, ci, cpi);
  }

  /** Isolation: pairs of every other caller are kept or left out exactly as before. */
  lemma ReconcileIsolation(r: set<Pair>, h: set<EntityIndex>, s: seq<Entity>, ci: EntityIndex, cpi: EntityIndex, p: Pair)
    requires p.caller != ci
    ensures p in Reconciled(r, h, s, ci, cpi) <==> p in r
  {
    ScanShape(s, ci, cpi, r, h);
    CurrentPairsOwned(s, ci, cpi);
  }

  /** The pairs that leave are exactly the caller's old pairs no longer in range. */
  lemma LeavingIsOldOutOfRange(r: set<Pair>, h: set<EntityIndex>, s: seq<Entity>, ci: EntityIndex, cpi: EntityIndex)
    ensures Leaving(ScanAll(s, ci, cpi, r, h), ci) == Owned(r, ci) - CurrentPairs(s, ci, cpi)
  {
    ScanShape(s, ci, cpi, r, h);
    CurrentPairsOwned(s, ci, cpi);
  }

  /**
   * Idempotence: reconciling again with the same snapshot issues no call,
   * leaves nothing to restore and keeps the registry as it is.
   */
  lemma ReconcileIdempotent(r: set<Pair>, h: set<EntityIndex>, s: seq<Entity>, ci: EntityIndex, cpi: EntityIndex)
    ensures var st := ScanAll(s, ci, cpi, r, h);
      var r2 := Reconciled(r, h, s, ci, cpi);
      var st2 := ScanAll(s, ci, cpi, r2, st.hooked);
      && st2.ops == []
      && st2.hooked == st.hooked
      && Leaving(st2, ci) == {}
      && Reconciled(r2, st.hooked, s, ci, cpi) == r2
  {
    var st := ScanAll(s, ci, cpi, r, h);
    var r2 := Reconciled(r, h, s, ci, cpi);
    ReconcileCoverage(r, h, s, ci, cpi);
    assert CurrentPairs(s, ci, cpi) <= r2;
    ScanQuiet(s, ci, cpi, r2, st.hooked);
  }

  // ---------------------------------------------------------------------------
  // Restore writes
  // ---------------------------------------------------------------------------

  /** Every restore write makes its target visible again to the caller on the hide channel. */
  lemma {:induction false} RestoreOpsShape(order: seq<Pair>, ci: EntityIndex)
    ensures |RestoreOps(order, ci)| == |order|
    ensures forall i :: 0 <= i < |order| ==>
      RestoreOps(order, ci)[i] == SetState(order[i].target, ci, true, HideChannel)
  {
    if order != [] {
      RestoreOpsShape(order[..|order| - 1], ci);
    }
  }

  /** Restoring an enumeration of a caller's pairs writes `visible = true` exactly once per pair. */
  lemma {:induction false} RestoreWrittenOnce(order: seq<Pair>, s: set<Pair>, ci: EntityIndex, t: EntityIndex)
    requires Enumerates(order, s)
    requires forall p :: p in s ==> p.caller == ci
    ensures multiset(RestoreOps(order, ci))[SetState(t, ci, true, HideChannel)] == if Pair(t, ci) in s then 1 else 0
  {
    if order != [] {
      EnumeratesLast(order, s);
      RestoreWrittenOnce(order[..|order| - 1], s - {order[|order| - 1]}, ci, t);
    }
  }

  // ---------------------------------------------------------------------------
  // The effect of the two operations, as relations between states
  // ---------------------------------------------------------------------------

  /**
   * Registry `r1`, hook state `h1` and log `log1` are what reconciling
   * `snapshot` for `caller` leaves behind from `r0`, `h0`, `log0`: nothing
   * changes when the caller or its pawn does not act; otherwise the sphere
   * loop's calls are followed by one restore write per leaving pair, in some
   * order.
   */
  ghost predicate Updated(r0: set<Pair>, h0: set<EntityIndex>, log0: seq<TransmitOp>,
                          r1: set<Pair>, h1: set<EntityIndex>, log1: seq<TransmitOp>,
                          caller: Option<Controller>, callerPawn: Option<Pawn>, snapshot: seq<Entity>)
  {
    if !Acts(caller, callerPawn) then r1 == r0 && h1 == h0 && log1 == log0
    else
      var ci := caller.value.index;
      var st := ScanAll(snapshot, ci, callerPawn.value.index, r0, h0);
      && r1 == st.registry - Leaving(st, ci)
      && h1 == st.hooked
      && exists order :: Enumerates(order, Leaving(st, ci)) && log1 == log0 + st.ops + RestoreOps(order, ci)
  }

  /**
   * `r1` and `log1` are what restoring every pair of `caller` leaves behind:
   * nothing changes for a null or invalid caller; otherwise its pairs are gone
   * and each got one restore write, in some order.
   */
  ghost predicate Restored(r0: set<Pair>, log0: seq<TransmitOp>, r1: set<Pair>, log1: seq<TransmitOp>,
                           caller: Option<Controller>)
  {
    if caller.None? || !caller.value.valid then r1 == r0 && log1 == log0
    else
      var ci := caller.value.index;
      && r1 == r0 - Owned(r0, ci)
      && exists order :: Enumerates(order, Owned(r0, ci)) && log1 == log0 + RestoreOps(order, ci)
  }

  /**
   * What one `UpdateVisibility` leaves: the caller owns exactly the current-tick
   * pairs, and every other caller's pairs are as they were.
   */
  lemma UpdatedCoversAndIsolates(r0: set<Pair>, h0: set<EntityIndex>, log0: seq<TransmitOp>,
                                 r1: set<Pair>, h1: set<EntityIndex>, log1: seq<TransmitOp>,
                                 caller: Option<Controller>, callerPawn: Option<Pawn>, snapshot: seq<Entity>)
    requires Updated(r0, h0, log0, r1, h1, log1, caller, callerPawn, snapshot)
    requires Acts(caller, callerPawn)
    ensures Owned(r1, caller.value.index) == CurrentPairs(snapshot, caller.value.index, callerPawn.value.index)
    ensures forall p: Pair :: p.caller != caller.value.index ==> (p in r1 <==> p in r0)
  {
    var ci, cpi := caller.value.index, callerPawn.value.index;
    ReconcileCoverage(r0, h0, snapshot, ci, cpi);
    forall p: Pair | p.caller != ci ensures p in r1 <==> p in r0 {
      ReconcileIsolation(r0, h0, snapshot, ci, cpi, p);
    }
  }

  /**
   * Idempotence of `UpdateVisibility`: a second call with the same caller, pawn
   * and snapshot changes neither the registry nor the hook state, and issues
   * no transmit call at all.
   */
  lemma UpdateTwiceIsQuiet(r0: set<Pair>, h0: set<EntityIndex>, log0: seq<TransmitOp>,
                           r1: set<Pair>, h1: set<EntityIndex>, log1: seq<TransmitOp>,
                           r2: set<Pair>, h2: set<EntityIndex>, log2: seq<TransmitOp>,
                           caller: Option<Controller>, callerPawn: Option<Pawn>, snapshot: seq<Entity>)
    requires Updated(r0, h0, log0, r1, h1, log1, caller, callerPawn, snapshot)
    requires Updated(r1, h1, log1, r2, h2, log2, caller, callerPawn, snapshot)
    ensures r2 == r1 && h2 == h1 && log2 == log1
  {
    if Acts(caller, callerPawn) {
      var ci, cpi := caller.value.index, callerPawn.value.index;
      ReconcileIdempotent(r0, h0, snapshot, ci, cpi);
      var st2 := ScanAll(snapshot, ci, cpi, r1, h1);
      var order :| Enumerates(order, Leaving(st2, ci)) && log2 == log1 + st2.ops + RestoreOps(order, ci);
      EnumeratesSize(order, Leaving(st2, ci));
    }
  }

  /**
   * Restore completeness: afterwards the caller owns no pair, every other
   * caller's pairs are as before, one restore write was issued per removed
   * pair, and a caller that owned nothing causes no change at all.
   */
  lemma RestoredCompletely(r0: set<Pair>, log0: seq<TransmitOp>, r1: set<Pair>, log1: seq<TransmitOp>,
                           caller: Option<Controller>)
    requires Restored(r0, log0, r1, log1, caller)
    requires caller.Some? && caller.value.valid
    ensures Owned(r1, caller.value.index) == {}
    ensures forall p: Pair :: p.caller != caller.value.index ==> (p in r1 <==> p in r0)
    ensures |log1| == |log0| + |Owned(r0, caller.value.index)|
    ensures Owned(r0, caller.value.index) == {} ==> r1 == r0 && log1 == log0
  {
    var ci := caller.value.index;
    var order :| Enumerates(order, Owned(r0, ci)) && log1 == log0 + RestoreOps(order, ci);
    EnumeratesSize(order, Owned(r0, ci));
    RestoreOpsShape(order, ci);
  }

  // ---------------------------------------------------------------------------
  // The registry agrees with the transmit state
  // ---------------------------------------------------------------------------

  /** The visibility the last hide-channel write for `p` in `log` set, if any. */
  function LastHideWrite(log: seq<TransmitOp>, p: Pair): (r: Option<bool>)
    ensures r.Some? ==> SetState(p.target, p.caller, r.value, HideChannel) in log
  {
    if log == [] then None
    else
      var op := log[|log| - 1];
      if op.SetState? && op.target == p.target && op.receiver == p.caller && op.channel == HideChannel
      then Some(op.visible)
      else LastHideWrite(log[..|log| - 1], p)
  }

  /** A pair is registered exactly when the last hide-channel write for it made its target invisible. */
  ghost predicate RegistryMatchesLog(registry: set<Pair>, log: seq<TransmitOp>)
  {
    forall p :: p in registry <==> LastHideWrite(log, p) == Some(false)
  }

  /** The last write in `a + b` is the last one in `b`, if `b` has one. */
  lemma {:induction false} LastHideWriteAppend(a: seq<TransmitOp>, b: seq<TransmitOp>, p: Pair)
    ensures LastHideWrite(a + b, p)
         == if LastHideWrite(b, p).Some? then LastHideWrite(b, p) else LastHideWrite(a, p)
  {
    if b == [] {
      assert a + b == a;
    } else {
      assert (a + b)[..|a + b| - 1] == a + b[..|b| - 1];
      LastHideWriteAppend(a, b[..|b| - 1], p);
    }
  }

  /** The sphere loop's last write for a pair hides it exactly when the pair is new this tick. */
  lemma {:induction false} ScanLastHideWrite(s: seq<Entity>, ci: EntityIndex, cpi: EntityIndex,
                                              r: set<Pair>, h: set<EntityIndex>, p: Pair)
    ensures LastHideWrite(ScanAll(s, ci, cpi, r, h).ops, p)
         == if p in CurrentPairs(s, ci, cpi) - r then Some(false) else None
  {
    if s != [] {
      var s', e := s[..|s| - 1], s[|s| - 1];
      assert s == s' + [e];
      var st' := ScanAll(s', ci, cpi, r, h);
      ScanLastHideWrite(s', ci, cpi, r, h, p);
      ScanShape(s', ci, cpi, r, h);
      CurrentPairsSnoc(s', e, ci, cpi);
      var q := PairFor(e, ci, cpi);
      if q.Some? && q.value !in st'.registry {
        var added := HideOps(st'.hooked, q.value);
        LastHideWriteAppend(st'.ops, added, p);
        assert added[..|added| - 1] == (if q.value.target in st'.hooked then [] else [AddHook(q.value.target, true)]);
        assert LastHideWrite(added, p) == if p == q.value then Some(false) else None;
      }
    }
  }

  /** Restore writes for pairs of `ci` end, for each listed pair, on "visible". */
  lemma {:induction false} RestoreLastHideWrite(order: seq<Pair>, ci: EntityIndex, p: Pair)
    requires forall q :: q in order ==> q.caller == ci
    ensures LastHideWrite(RestoreOps(order, ci), p) == if p in order then Some(true) else None
  {
    if order != [] {
      var o', q := order[..|order| - 1], order[|order| - 1];
      assert order == o' + [q];
      RestoreLastHideWrite(o', ci, p);
    }
  }

  /** `UpdateVisibility` keeps the registry in agreement with the transmit state. */
  lemma UpdatedKeepsRegistryMatchingLog(r0: set<Pair>, h0: set<EntityIndex>, log0: seq<TransmitOp>,
                                        r1: set<Pair>, h1: set<EntityIndex>, log1: seq<TransmitOp>,
                                        caller: Option<Controller>, callerPawn: Option<Pawn>, snapshot: seq<Entity>)
    requires Updated(r0, h0, log0, r1, h1, log1, caller, callerPawn, snapshot)
    requires RegistryMatchesLog(r0, log0)
    ensures RegistryMatchesLog(r1, log1)
  {
    if Acts(caller, callerPawn) {
      var ci, cpi := caller.value.index, callerPawn.value.index;
      var st := ScanAll(snapshot, ci, cpi, r0, h0);
      var order :| Enumerates(order, Leaving(st, ci)) && log1 == log0 + st.ops + RestoreOps(order, ci);
      ScanShape(snapshot, ci, cpi, r0, h0);
      CurrentPairsOwned(snapshot, ci, cpi);
      forall p ensures p in r1 <==> LastHideWrite(log1, p) == Some(false) {
        LastHideWriteAppend(log0 + st.ops, RestoreOps(order, ci), p);
        LastHideWriteAppend(log0, st.ops, p);
        ScanLastHideWrite(snapshot, ci, cpi, r0, h0, p);
        RestoreLastHideWrite(order, ci, p);
      }
    }
  }

  /** `UnhideAllForCaller` keeps the registry in agreement with the transmit state. */
  lemma RestoredKeepsRegistryMatchingLog(r0: set<Pair>, log0: seq<TransmitOp>, r1: set<Pair>, log1: seq<TransmitOp>,
                                         caller: Option<Controller>)
    requires Restored(r0, log0, r1, log1, caller)
    requires RegistryMatchesLog(r0, log0)
    ensures RegistryMatchesLog(r1, log1)
  {
    if caller.Some? && caller.value.valid {
      var ci := caller.value.index;
      var order :| Enumerates(order, Owned(r0, ci)) && log1 == log0 + RestoreOps(order, ci);
      forall p ensures p in r1 <==> LastHideWrite(log1, p) == Some(false) {
        LastHideWriteAppend(log0, RestoreOps(order, ci), p);
        RestoreLastHideWrite(order, ci, p);
      }
    }
  }

  // ---------------------------------------------------------------------------
  // The registry and its two operations
  // ---------------------------------------------------------------------------

  class DistanceUtils {
    /** The pairs currently hidden, over all callers. */
    var hiddenPairs: set<Pair>

    constructor ()
      ensures hiddenPairs == {}
    {
      hiddenPairs := {};
    }

    /**
     * Reconcile one caller's hidden pairs with a fresh sphere query of radius
     * `maxDistance` around its pawn. `world` is what the query can return, with
     * distances measured from that pawn.
     */
    method UpdateVisibility(tm: TransmitManager, caller: Option<Controller>, callerPawn: Option<Pawn>,
                            maxDistance: real, world: seq<Entity>)
      modifies this, tm
      ensures Updated(old(hiddenPairs), old(tm.hooked), old(tm.log), hiddenPairs, tm.hooked, tm.log,
                      caller, callerPawn, SphereQuery(world, maxDistance))
    {
      if caller.None? || !caller.value.valid {
        return;
      }
      if callerPawn.None? || !callerPawn.value.valid {
        return;
      }
      var callerIndex := caller.value.index;
      var snapshot := SphereQuery(world, maxDistance);
      var currentPairs := ScanSphere(tm, callerIndex, callerPawn.value.index, snapshot);
      var toUnhide := CollectLeaving(tm, callerIndex, currentPairs);
      RemoveAll(toUnhide);
    }

    /**
     * The sphere loop: register and hide every pair newly in range, and return
     * the current-tick set.
     */
    method ScanSphere(tm: TransmitManager, callerIndex: EntityIndex, callerPawnIndex: EntityIndex, snapshot: seq<Entity>)
      returns (currentPairs: set<Pair>)
      modifies this, tm
      ensures var st := ScanAll(snapshot, callerIndex, callerPawnIndex, old(hiddenPairs), old(tm.hooked));
        && hiddenPairs == st.registry && tm.hooked == st.hooked
        && tm.log == old(tm.log) + st.ops && currentPairs == st.current
    {
      currentPairs := {};
      var i := 0;
      while i < |snapshot|
        invariant 0 <= i <= |snapshot|
        invariant var st := ScanAll(snapshot[..i], callerIndex, callerPawnIndex, old(hiddenPairs), old(tm.hooked));
          && hiddenPairs == st.registry && tm.hooked == st.hooked
          && tm.log == old(tm.log) + st.ops && currentPairs == st.current
      {
        var entity := snapshot[i];
        assert snapshot[..i + 1][..i] == snapshot[..i];
        i := i + 1;
        if !entity.isPlayerPawn || entity.asPawn.None? {
          continue;
        }
        var pawn := entity.asPawn.value;
        if !pawn.valid || pawn.index == callerPawnIndex {
          continue;
        }
        var targetController := pawn.controller;
        if targetController.None? || !targetController.value.valid {
          continue;
        }
        var pair := Pair(targetController.value.index, callerIndex);
        currentPairs := currentPairs + {pair};
        if pair !in hiddenPairs {
          if !tm.IsEntityHooked(pair.target) {
            tm.AddEntityHooks(pair.target, true);
          }
          tm.SetEntityState(pair.target, callerIndex, false, HideChannel);
          hiddenPairs := hiddenPairs + {pair};
        }
      }
      assert snapshot[..|snapshot|] == snapshot;
    }

    /**
     * The first `foreach` after the sphere loop: write `visible = true` for
     * every pair of the caller not seen this tick, and collect those pairs.
     */
    method CollectLeaving(tm: TransmitManager, callerIndex: EntityIndex, currentPairs: set<Pair>)
      returns (toUnhide: seq<Pair>)
      modifies tm
      ensures Enumerates(toUnhide, Owned(hiddenPairs, callerIndex) - currentPairs)
      ensures tm.hooked == old(tm.hooked)
      ensures tm.log == old(tm.log) + RestoreOps(toUnhide, callerIndex)
    {
      toUnhide := [];
      var pending := hiddenPairs;
      while pending != {}
        invariant pending <= hiddenPairs
        invariant tm.hooked == old(tm.hooked)
        invariant Distinct(toUnhide)
        invariant forall p :: p in toUnhide <==> p in hiddenPairs - pending && p.caller == callerIndex && p !in currentPairs
        invariant tm.log == old(tm.log) + RestoreOps(toUnhide, callerIndex)
        decreases pending
      {
        var pair :| pair in pending;
        pending := pending - {pair};
        if pair.caller == callerIndex && pair !in currentPairs {
          tm.SetEntityState(pair.target, callerIndex, true, HideChannel);
          assert pair !in toUnhide;
          assert (toUnhide + [pair])[..|toUnhide|] == toUnhide;
          assert RestoreOps(toUnhide + [pair], callerIndex)
              == RestoreOps(toUnhide, callerIndex) + [SetState(pair.target, callerIndex, true, HideChannel)];
          toUnhide := toUnhide + [pair];
        }
      }
      assert Enumerates(toUnhide, Owned(hiddenPairs, callerIndex) - currentPairs);
    }

    /** Restore every pair owned by `caller`: write `visible = true` for each, then drop it. */
    method UnhideAllForCaller(tm: TransmitManager, caller: Option<Controller>)
      modifies this, tm
      ensures tm.hooked == old(tm.hooked)
      ensures Restored(old(hiddenPairs), old(tm.log), hiddenPairs, tm.log, caller)
    {
      if caller.None? || !caller.value.valid {
        return;
      }
      var toUnhide := CollectLeaving(tm, caller.value.index, {});
      assert Owned(hiddenPairs, caller.value.index) - {} == Owned(hiddenPairs, caller.value.index);
      RemoveAll(toUnhide);
    }

    /** The second `foreach` of both operations: remove each collected pair from the registry. */
    method RemoveAll(toUnhide: seq<Pair>)
      modifies this
      ensures hiddenPairs == old(hiddenPairs) - (set p | p in toUnhide)
    {
      var j := 0;
      while j < |toUnhide|
        invariant 0 <= j <= |toUnhide|
        invariant hiddenPairs == old(hiddenPairs) - (set p | p in toUnhide[..j])
      {
        assert toUnhide[..j + 1] == toUnhide[..j] + [toUnhide[j]];
        hiddenPairs := hiddenPairs - {toUnhide[j]};
        j := j + 1;
      }
      assert toUnhide[..|toUnhide|] == toUnhide;
    }
  }
}
