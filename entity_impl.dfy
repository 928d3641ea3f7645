/** `OpenDDS::DCPS::EntityImpl`, the base of every DCPS servant (domain
    participant, publisher, subscriber, topic, data writer, data reader): it
    keeps whether the entity is enabled, whether it is being deleted, and the
    status-changed flag of every plain communication status. Each update is
    proved to be the matching `EntityStates.Step`. */
module Entity {
  import opened StatusKinds
  import opened EntityStates

  class EntityImpl {
    /** `enabled_`: the entity is enabled. */
    var enabled: bool
    /** `entity_deleted_`: the entity is being deleted. */
    var entityDeleted: bool
    /** `status_changes_`: the kinds whose StatusChangedFlag is TRUE. */
    var statusChanges: set<StatusKind>

    /** The fields, as an `EntityState` value. */
    function State(): EntityState
      reads this
    {
      EntityState(enabled, entityDeleted, statusChanges)
    }

    /** A new entity is disabled, not deleted, and has no status changed. */
    constructor ()
      ensures State() == Initial
      ensures MaskOf(statusChanges) == 0
    {
      enabled := false;
      entityDeleted := false;
      statusChanges := {};
      MaskOfEmpty();
    }

    /** `set_enabled`: the entity becomes enabled; the deleted flag and the
        status-changed flags are kept. */
    method SetEnabled()
      modifies this
      ensures State() == Step(old(State()), Op.SetEnabled)
      ensures enabled
      ensures entityDeleted == old(entityDeleted) && statusChanges == old(statusChanges)
    {
      enabled := true;
    }

    /** `get_status_changes`: the mask of the kinds whose status has changed
        since the application last read it. Only reads: no flag is reset here. */
    method GetStatusChanges() returns (changes: StatusKindMask)
      ensures changes == MaskOf(statusChanges)
      ensures forall k: StatusKind :: HasKind(changes, k) <==> k in statusChanges
      ensures changes & !KindBits == 0
    {
      changes := MaskOf(statusChanges);
      forall k: StatusKind
        ensures HasKind(changes, k) <==> k in statusChanges
      {
        MaskOfHas(statusChanges, k);
      }
      MaskOfWithin(statusChanges);
    }

    /** `set_deleted(state)`: records whether the entity is being deleted;
        the enabled flag and the status-changed flags are kept. */
    method SetDeleted(state: bool)
      modifies this
      ensures State() == Step(old(State()), Op.SetDeleted(state))
      ensures entityDeleted == state
      ensures enabled == old(enabled) && statusChanges == old(statusChanges)
    {
      entityDeleted := state;
    }

    /** `get_deleted`: whether the entity is being deleted. */
    method GetDeleted() returns (deleted: bool)
      ensures deleted == entityDeleted
    {
      deleted := entityDeleted;
    }

    /** `set_status_changed_flag(status, flag)`: the StatusChangedFlag of
        `status` becomes `flag` (TRUE when that status changes, FALSE when the
        application reads it); every other flag and both lifecycle flags are kept. */
    method SetStatusChangedFlag(status: StatusKind, flag: bool)
      modifies this
      ensures State() == Step(old(State()), Op.SetStatusChangedFlag(status, flag))
      ensures status in statusChanges <==> flag
      ensures forall k :: k != status ==> (k in statusChanges <==> k in old(statusChanges))
      ensures enabled == old(enabled) && entityDeleted == old(entityDeleted)
      ensures MaskOf(statusChanges)
           == if flag then old(MaskOf(statusChanges)) | status
              else old(MaskOf(statusChanges)) & !(status as StatusKindMask)
    {
      if flag {
        MaskOfRaise(statusChanges, status);
        statusChanges := statusChanges + {status};
      } else {
        MaskOfReset(statusChanges, status);
        statusChanges := statusChanges - {status};
      }
    }
  }
}
