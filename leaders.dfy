/**
 * The leader registry (Leader/LeaderMethod.cs): a process-wide set of 64-bit
 * steam ids. Assigning and removing go through an entity that must be a
 * valid player controller; the membership query only needs a controller.
 */
module LeaderSet {
  import opened Entities

  /** Assignment and removal act only on an entity that is a player controller and is valid. */
  predicate Eligible(entity: BaseEntity)
  {
    entity.asController.Some? && entity.valid
  }

  class LeaderMethod {
    var leaderSteamIds: set<SteamId>

    constructor ()
      ensures leaderSteamIds == {}
    {
      leaderSteamIds := {};
    }

    /**
     * Membership: the entity is a player controller whose steam id is in the
     * set; the entity's validity is not consulted.
     */
    function IsLeader(entity: BaseEntity): (r: bool)
      reads this
      ensures r <==> exists c: Controller :: entity.asController == Some(c) && c.steamId in leaderSteamIds
    {
      entity.asController.Some? && entity.asController.value.steamId in leaderSteamIds
    }

    /** Validity plays no part in membership. */
    lemma IsLeaderIgnoresValidity(entity: BaseEntity)
      ensures IsLeader(entity.(valid := !entity.valid)) == IsLeader(entity)
    {
    }

    /**
     * The registered ids: for every entity that is a player controller, it is a
     * leader exactly when its steam id is among them.
     */
    function GetAllLeaderSteamIds(): (r: set<SteamId>)
      reads this
      ensures forall e: BaseEntity :: e.asController.Some? ==> (IsLeader(e) <==> e.asController.value.steamId in r)
    {
      leaderSteamIds
    }

    /**
     * Make the entity's player a leader. Not a valid controller: false and
     * nothing changes. Otherwise true, and the id is in the set (adding it
     * again changes nothing).
     */
    method AssignLeader(entity: BaseEntity) returns (ok: bool)
      modifies this
      ensures ok <==> Eligible(entity)
      ensures !ok ==> leaderSteamIds == old(leaderSteamIds)
      ensures ok ==> leaderSteamIds == old(leaderSteamIds) + {entity.asController.value.steamId}
      ensures ok ==> IsLeader(entity)
      ensures ok && old(IsLeader(entity)) ==> leaderSteamIds == old(leaderSteamIds)
    {
      var controller := entity.asController;
      if controller.None? || !entity.valid {
        return false;
      }
      leaderSteamIds := leaderSteamIds + {controller.value.steamId};
      return true;
    }

    /**
     * Take the entity's player off the set. Not a valid controller: false and
     * nothing changes. Otherwise the id is absent afterwards, and the result
     * says whether it was present.
     */
    method RemoveLeader(entity: BaseEntity) returns (removed: bool)
      modifies this
      ensures !Eligible(entity) ==> !removed && leaderSteamIds == old(leaderSteamIds)
      ensures Eligible(entity) ==>
        && removed == old(IsLeader(entity))
        && leaderSteamIds == old(leaderSteamIds) - {entity.asController.value.steamId}
        && !IsLeader(entity)
    {
      var controller := entity.asController;
      if controller.None? || !entity.valid {
        return false;
      }
      removed := controller.value.steamId in leaderSteamIds;
      leaderSteamIds := leaderSteamIds - {controller.value.steamId};
    }

    /** Empty the set: nobody is a leader afterwards. */
    method ClearAllLeaders()
      modifies this
      ensures leaderSteamIds == {}
      ensures forall entity :: !IsLeader(entity)
    {
      leaderSteamIds := {};
    }
  }
}
