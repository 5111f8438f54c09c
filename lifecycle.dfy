/**
 * Time-boxed tracking of spawned entities (Leader/EntitySpawn/Lifecycle.cs):
 * each tracked entity has a spawn time and a lifetime; expired or invalid
 * entities are removed, killed and announced to subscribers.
 *
 * The host clock is the parameter `now` (in ticks), entity validity is the
 * set `valid` of entities the engine reports valid at the time of the call,
 * and `killFails` is the set of entities whose `Kill()` throws.
 */
module Lifecycle {
  import opened Entities

  /** An entity reference, compared by identity. */
  type EntityId = int

  /** One tracked entity: the entity, when it was tracked, and its lifetime (0 or less: forever). */
  datatype LifecycleEntry = LifecycleEntry(entity: EntityId, spawnTime: int, lifetime: int)

  /** The entry has a positive lifetime and more than that much time has passed since tracking. */
  predicate IsExpired(entry: LifecycleEntry, now: int): (r: bool)
    ensures r ==> entry.lifetime > 0 && now > entry.spawnTime
    ensures entry.lifetime > 0 && now > entry.spawnTime + entry.lifetime ==> r
  {
    entry.lifetime > 0 && now - entry.spawnTime > entry.lifetime
  }

  /** A lifetime of zero or less never expires; a positive one expires strictly after it has elapsed. */
  lemma ExpiryRule(entry: LifecycleEntry, now: int)
    ensures entry.lifetime <= 0 ==> !IsExpired(entry, now)
    ensures entry.lifetime > 0 ==> (IsExpired(entry, now) <==> now > entry.spawnTime + entry.lifetime)
    ensures IsExpired(entry, now) ==> forall later :: later >= now ==> IsExpired(entry, later)
  {
  }

  /** What subscribers and the engine see of a removal. */
  datatype LifecycleEvent = Killed(entity: EntityId) | Notified(entity: EntityId)

  /**
   * One removal: `Kill()` is called, and `OnEntityRemoved` is raised only when
   * `Kill()` did not throw (the exception is caught and logged).
   */
  function RemovalEvents(e: EntityId, killFails: set<EntityId>): (r: seq<LifecycleEvent>)
  {
    [Killed(e)] + (if e in killFails then [] else [Notified(e)])
  }

  /** The removals of `order`, one after another. */
  function RemovalsOf(order: seq<EntityId>, killFails: set<EntityId>): (r: seq<LifecycleEvent>)
  {
    if order == [] then []
    else RemovalsOf(order[..|order| - 1], killFails) + RemovalEvents(order[|order| - 1], killFails)
  }

  /**
   * Removing an enumeration of `s` kills every member of `s` exactly once,
   * announces exactly those whose `Kill()` did not throw, and touches nothing
   * outside `s`.
   */
  lemma {:induction false} RemovalsExactlyOnce(order: seq<EntityId>, s: set<EntityId>, killFails: set<EntityId>, e: EntityId)
    requires Enumerates(order, s)
    ensures multiset(RemovalsOf(order, killFails))[Killed(e)] == if e in s then 1 else 0
    ensures multiset(RemovalsOf(order, killFails))[Notified(e)] == if e in s && e !in killFails then 1 else 0
  {
    if order != [] {
      EnumeratesLast(order, s);
      RemovalsExactlyOnce(order[..|order| - 1], s - {order[|order| - 1]}, killFails, e);
    }
  }

  /** The keys `Update` removes: entries whose entity is invalid or that have expired. */
  function Doomed(tracked: map<EntityId, LifecycleEntry>, now: int, valid: set<EntityId>): (r: set<EntityId>)
  {
    set k | k in tracked && (tracked[k].entity !in valid || IsExpired(tracked[k], now))
  }

  /** The tracked map after `Update`. */
  function Sweep(tracked: map<EntityId, LifecycleEntry>, now: int, valid: set<EntityId>): (r: map<EntityId, LifecycleEntry>)
  {
    map k | k in tracked && k !in Doomed(tracked, now, valid) :: tracked[k]
  }

  /**
   * `Update` keeps exactly the entries whose entity is valid and that have not
   * expired, each unchanged, and running it again at the same time with the
   * same validity removes nothing more.
   */
  lemma SweepKeepsLiveEntries(tracked: map<EntityId, LifecycleEntry>, now: int, valid: set<EntityId>)
    ensures forall k :: k in Sweep(tracked, now, valid) <==>
      k in tracked && tracked[k].entity in valid && !IsExpired(tracked[k], now)
    ensures forall k :: k in Sweep(tracked, now, valid) ==> Sweep(tracked, now, valid)[k] == tracked[k]
    ensures |Sweep(tracked, now, valid)| == |tracked| - |Doomed(tracked, now, valid)|
    ensures Doomed(Sweep(tracked, now, valid), now, valid) == {}
  {
    var kept := Sweep(tracked, now, valid);
    assert kept.Keys == tracked.Keys - Doomed(tracked, now, valid);
  }

  class LifecycleManager {
    var tracked: map<EntityId, LifecycleEntry>
    ghost var events: seq<LifecycleEvent>

    /** Every entry is keyed by its own entity. */
    ghost predicate Valid()
      reads this
    {
      forall k :: k in tracked ==> tracked[k].entity == k
    }

    constructor ()
      ensures Valid() && tracked == map[] && events == []
    {
      tracked := map[];
      events := [];
    }

    /** Number of entities currently tracked. */
    function Count(): (n: nat)
      reads this
      ensures n == 0 <==> tracked == map[]
    {
      |tracked|
    }

    /**
     * Track `entity` from `now` on with the given lifetime, replacing any
     * earlier entry for it; a null or invalid entity is ignored.
     */
    method TrackEntity(entity: Option<EntityId>, lifetime: int, now: int, valid: set<EntityId>)
      requires Valid()
      modifies this
      ensures Valid()
      ensures entity.None? || entity.value !in valid ==> unchanged(this)
      ensures entity.Some? && entity.value in valid ==>
        && tracked == old(tracked)[entity.value := LifecycleEntry(entity.value, now, lifetime)]
        && events == old(events)
        && Count() == if entity.value in old(tracked) then old(Count()) else old(Count()) + 1
    {
      if entity.None? || entity.value !in valid {
        return;
      }
      tracked := tracked[entity.value := LifecycleEntry(entity.value, now, lifetime)];
    }

    /**
     * Stop tracking `entity`: a tracked entity is removed first, then killed
     * and announced; an untracked one is left alone.
     */
    method UntrackEntity(entity: EntityId, killFails: set<EntityId>)
      requires Valid()
      modifies this
      ensures Valid()
      ensures entity !in old(tracked) ==> unchanged(this)
      ensures entity in old(tracked) ==>
        && tracked == old(tracked) - {entity}
        && events == old(events) + RemovalEvents(entity, killFails)
        && Count() == old(Count()) - 1
    {
      if entity in tracked {
        var entry := tracked[entity];
        tracked := tracked - {entity};
        Remove(entry.entity, killFails);
      }
    }

    /** `Kill()` the entity and, unless that throws, raise `OnEntityRemoved` for it. */
    method Remove(entity: EntityId, killFails: set<EntityId>)
      modifies this`events
      ensures events == old(events) + RemovalEvents(entity, killFails)
    {
      events := events + [Killed(entity)];
      if entity !in killFails {
        events := events + [Notified(entity)];
      }
    }

    /**
     * Remove, kill and announce every entry whose entity is invalid or that
     * has expired at `now`; keep the others unchanged.
     */
    method Update(now: int, valid: set<EntityId>, killFails: set<EntityId>)
      requires Valid()
      modifies this
      ensures Valid()
      ensures tracked == Sweep(old(tracked), now, valid)
      ensures exists order :: Enumerates(order, Doomed(old(tracked), now, valid))
                             && events == old(events) + RemovalsOf(order, killFails)
    {
      var expired := ExpiredKeys(now, valid);
      RemoveKeys(expired, killFails);
    }

    /** First pass of `Update`: the keys of the doomed entries, in dictionary order. */
    method ExpiredKeys(now: int, valid: set<EntityId>) returns (expired: seq<EntityId>)
      ensures Enumerates(expired, Doomed(tracked, now, valid))
    {
      ghost var doomed := Doomed(tracked, now, valid);
      expired := [];
      var pending := tracked.Keys;
      while pending != {}
        invariant pending <= tracked.Keys
        invariant Distinct(expired)
        invariant forall k :: k in expired <==> k in doomed && k !in pending
        decreases pending
      {
        ghost var some := Member(pending);
        var key :| key in pending;
        pending := pending - {key};
        var entry := tracked[key];
        if entry.entity !in valid || IsExpired(entry, now) {
          expired := expired + [key];
        }
        assert key in doomed <==> entry.entity !in valid || IsExpired(entry, now);
      }
    }

    /** Second pass of `Update`: remove each listed key that is still tracked, then kill and announce its entity. */
    method RemoveKeys(expired: seq<EntityId>, killFails: set<EntityId>)
      requires Valid()
      requires Distinct(expired) && forall k :: k in expired ==> k in tracked
      modifies this
      ensures Valid()
      ensures tracked == map k | k in old(tracked) && k !in expired :: old(tracked)[k]
      ensures events == old(events) + RemovalsOf(expired, killFails)
    {
      var i := 0;
      while i < |expired|
        invariant 0 <= i <= |expired|
        invariant Valid()
        invariant tracked == map k | k in old(tracked) && k !in expired[..i] :: old(tracked)[k]
        invariant events == old(events) + RemovalsOf(expired[..i], killFails)
      {
        var key := expired[i];
        assert expired[..i + 1] == expired[..i] + [key];
        assert expired[..i + 1][..i] == expired[..i];
        assert key !in expired[..i];
        if key in tracked {
          var entry := tracked[key];
          tracked := tracked - {key};
          Remove(entry.entity, killFails);
        }
        i := i + 1;
      }
      assert expired[..|expired|] == expired;
    }

    /** Kill and announce every tracked entity, then stop tracking all of them. */
    method CleanupAll(killFails: set<EntityId>)
      requires Valid()
      modifies this
      ensures Valid()
      ensures tracked == map[] && Count() == 0
      ensures exists order :: Enumerates(order, old(tracked).Keys) && events == old(events) + RemovalsOf(order, killFails)
    {
      AnnounceAll(killFails);
      tracked := map[];
    }

    /** The loop of `CleanupAll`: kill and announce every tracked entity, in dictionary order. */
    method AnnounceAll(killFails: set<EntityId>)
      requires Valid()
      modifies this`events
      ensures exists order :: Enumerates(order, tracked.Keys) && events == old(events) + RemovalsOf(order, killFails)
    {
      ghost var visited: seq<EntityId> := [];
      var pending := tracked.Keys;
      while pending != {}
        invariant pending <= tracked.Keys
        invariant Distinct(visited)
        invariant forall k :: k in visited <==> k in tracked && k !in pending
        invariant events == old(events) + RemovalsOf(visited, killFails)
        decreases pending
      {
        ghost var some := Member(pending);
        var key :| key in pending;
        pending := pending - {key};
        Remove(tracked[key].entity, killFails);
        assert key !in visited;
        assert (visited + [key])[..|visited|] == visited;
        assert RemovalsOf(visited + [key], killFails) == RemovalsOf(visited, killFails) + RemovalEvents(key, killFails);
        visited := visited + [key];
      }
      assert Enumerates(visited, tracked.Keys);
    }
  }
}
