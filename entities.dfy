/**
 * Engine-side values the hide modules consume: entity handles as the game
 * server reports them at the moment of a call, the sphere query, and the
 * transmit manager whose per-(target, receiver) visibility state the hide
 * code writes.
 */
module Entities {

  datatype Option<+T> = None | Some(value: T)

  /** An entity index as handed out by the engine. */
  type EntityIndex = int

  /** A player slot number. */
  type PlayerSlot = int

  /** An unsigned 64-bit steam id. */
  type SteamId = x: int | 0 <= x < 0x1_0000_0000_0000_0000

  /** A player controller: the player record that is hooked on the transmit channel. */
  datatype Controller = Controller(index: EntityIndex, slot: PlayerSlot, valid: bool, steamId: SteamId)

  /** A base entity: whether it is valid, and what its `AsPlayerController()` returns. */
  datatype BaseEntity = BaseEntity(valid: bool, asController: Option<Controller>)

  /** A player pawn (the avatar) and what its `GetController()` returns. */
  datatype Pawn = Pawn(index: EntityIndex, valid: bool, controller: Option<Controller>)

  /**
   * One entity of the world as the sphere query sees it: whether it is a
   * player pawn, what `AsPlayerPawn()` returns, and its distance from the
   * anchor the query is centred on.
   */
  datatype Entity = Entity(isPlayerPawn: bool, asPawn: Option<Pawn>, distance: real)

  /**
   * The entities a sphere query of the given radius returns, in the order the
   * engine's cursor visits them.
   */
  function SphereQuery(world: seq<Entity>, radius: real): (r: seq<Entity>)
    ensures |r| <= |world|
    ensures forall e :: e in r <==> e in world && e.distance <= radius
  {
    if world == [] then []
    else
      var rest := SphereQuery(world[1..], radius);
      assert forall e :: e in world <==> e == world[0] || e in world[1..];
      if world[0].distance <= radius then [world[0]] + rest else rest
  }

  /** One call into the transmit manager. */
  datatype TransmitOp =
    | AddHook(entity: EntityIndex, defaultTransmit: bool)
    | SetState(target: EntityIndex, receiver: EntityIndex, visible: bool, channel: int)

  /**
   * The engine's transmit manager: which entities are hooked, and the log of
   * every hook and state write issued to it.
   */
  class TransmitManager {
    var hooked: set<EntityIndex>
    ghost var log: seq<TransmitOp>

    constructor ()
      ensures hooked == {} && log == []
    {
      hooked := {};
      log := [];
    }

    /** Whether hooks were added for the entity; only `AddEntityHooks` makes this true. */
    function IsEntityHooked(entity: EntityIndex): (r: bool)
      reads this
      ensures r <==> entity in hooked
    {
      entity in hooked
    }

    method AddEntityHooks(entity: EntityIndex, defaultTransmit: bool)
      modifies this
      ensures hooked == old(hooked) + {entity}
      ensures log == old(log) + [AddHook(entity, defaultTransmit)]
      ensures IsEntityHooked(entity)
    {
      hooked := hooked + {entity};
      log := log + [AddHook(entity, defaultTransmit)];
    }

    method SetEntityState(target: EntityIndex, receiver: EntityIndex, visible: bool, channel: int)
      modifies this
      ensures hooked == old(hooked)
      ensures forall e :: IsEntityHooked(e) == old(IsEntityHooked(e))
      ensures log == old(log) + [SetState(target, receiver, visible, channel)]
    {
      log := log + [SetState(target, receiver, visible, channel)];
    }
  }

  /** No element of `s` occurs twice. */
  predicate Distinct<T(==)>(s: seq<T>)
  {
    forall i, j :: 0 <= i < j < |s| ==> s[i] != s[j]
  }

  /** `order` lists every element of `s` exactly once, in some order. */
  ghost predicate Enumerates<T(!new)>(order: seq<T>, s: set<T>)
  {
    Distinct(order) && forall x :: x in order <==> x in s
  }

  /** Dropping the last element of an enumeration enumerates the rest of the set. */
  lemma EnumeratesLast<T(!new)>(order: seq<T>, s: set<T>)
    requires Enumerates(order, s) && order != []
    ensures order[|order| - 1] in s
    ensures Enumerates(order[..|order| - 1], s - {order[|order| - 1]})
  {
    var o', q := order[..|order| - 1], order[|order| - 1];
    assert order == o' + [q];
    forall x ensures x in o' <==> x in s - {q} {
      if x in o' {
        var i :| 0 <= i < |o'| && o'[i] == x;
        assert order[i] == x;
      }
      assert x in order <==> x in o' || x == q;
    }
  }

  /** Some element of a non-empty set. */
  lemma Member<T>(s: set<T>) returns (x: T)
    requires s != {}
    ensures x in s
  {
    x :| x in s;
  }

  /** An enumeration has one entry per element of its set. */
  lemma {:induction false} EnumeratesSize<T(!new)>(order: seq<T>, s: set<T>)
    requires Enumerates(order, s)
    ensures |order| == |s|
  {
    if order != [] {
      EnumeratesLast(order, s);
      EnumeratesSize(order[..|order| - 1], s - {order[|order| - 1]});
    }
  }
}
