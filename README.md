# OpenDDS entity status bookkeeping

This project models `OpenDDS::DCPS::EntityImpl`, the base class of every DCPS
servant in OpenDDS (domain participant, publisher, subscriber, topic, data
writer, data reader). An entity keeps three pieces of state:

- `enabled_`: written by `set_enabled`;
- `entity_deleted_`: written by `set_deleted(state)` and read by `get_deleted`;
- `status_changes_`: a `DDS::StatusKindMask` holding one StatusChangedFlag bit
  per plain communication status. `set_status_changed_flag(kind, flag)` sets
  or clears the bit of one kind, and `get_status_changes` returns the mask.

Section 7.1.4.2.1 of the OMG Data Distribution Service specification v1.2
gives the rule for each flag. It becomes TRUE when that status changes. It is
reset to FALSE when the application reads the status through the entity's
`get_<status>` operation.

The project has three modules:

- `StatusKinds` (`status_kind.dfy`): `DDS::StatusKind` and
  `DDS::StatusKindMask`, both IDL `unsigned long` (here `bv32`). A status
  kind is the constant of one plain communication status. Its value is a
  single bit inside `0x7FE7`. The thirteen `*_STATUS` constants are those of
  the DDS v1.2 IDL, `0x0001 << n`; that IDL file is not part of this model.
  The module also defines `MaskOf`, the 32-bit mask of a set of flagged kinds,
  and proves that setting a flag ORs the kind's constant into the mask and
  resetting it clears that constant. Decoding the mask gives the set back.
- `EntityStates` (`entity_state.dfy`): the entity's state as a value. It has
  the three updates as `Step`, a history of updates as `Run`, and the lemmas.
  The lemmas cover idempotence, commutation, and what a whole history leaves
  behind. The result of a history is proved equal to independent
  last-write definitions (`FlagAfter`, `DeletedAfter`).
- `Entity` (`entity_impl.dfy`): `class EntityImpl`. Its fields are the three
  pieces of state, with `status_changes_` held as the set of flagged kinds.
  Each updating method is proved to produce the state of `EntityStates.Step`
  and the mask that `StatusKinds.MaskOf` gives. `get_status_changes` returns
  that mask. The two queries change nothing.

The model follows the declarations and doc comments in `EntityImpl.h`. The
method bodies (`EntityImpl.cpp`) are not part of this model. From the
declarations:

- `set_enabled` sets the enabled flag.
- `set_deleted(state)` stores `state`. It is a boolean setter, so it can also
  clear the flag.
- `set_status_changed_flag(kind, flag)` sets the kind's bit when `flag` is
  true and clears it otherwise (the doc comment on `status_changes_`).

The header shows no rule that deletion is final: `set_deleted(bool)` can
clear the flag again, and the model follows the header.

## Model

| member | source | states |
|---|---|---|
| StatusKinds.StatusKindsAreConstants | tags/JMS_PROVIDER_BETA.2/dds/DCPS/EntityImpl.h:60-61 | a 32-bit value is a status kind exactly when it is one of the thirteen IDL `*_STATUS` constants |
| StatusKinds.BitsDisjoint | tags/JMS_PROVIDER_BETA.2/dds/DCPS/EntityImpl.h:75-80 | two kinds share a bit of the mask if and only if they are the same kind |
| StatusKinds.MaskOfHas | tags/JMS_PROVIDER_BETA.2/dds/DCPS/EntityImpl.h:75-80 | a kind's StatusChangedFlag is TRUE exactly when its bit is set in `status_changes_` |
| StatusKinds.MaskOfWithin | tags/JMS_PROVIDER_BETA.2/dds/DCPS/EntityImpl.h:75-80 | `status_changes_` never has a bit that belongs to no status kind |
| StatusKinds.MaskOfEmpty | tags/JMS_PROVIDER_BETA.2/dds/DCPS/EntityImpl.h:75-80 | with no flag TRUE the mask is zero |
| StatusKinds.MaskFromUnion | tags/JMS_PROVIDER_BETA.2/dds/DCPS/EntityImpl.h:75-80 | the mask of the union of two sets of flagged kinds is the OR of their masks |
| StatusKinds.MaskOfSingle | tags/JMS_PROVIDER_BETA.2/dds/DCPS/EntityImpl.h:60-61 | the mask with only kind `k` flagged is the constant `k` itself |
| StatusKinds.MaskOfRaise | tags/JMS_PROVIDER_BETA.2/dds/DCPS/EntityImpl.h:75-77 | setting a kind's flag makes the mask the old mask OR the kind's constant |
| StatusKinds.MaskOfReset | tags/JMS_PROVIDER_BETA.2/dds/DCPS/EntityImpl.h:77-79 | resetting a kind's flag makes the mask the old mask AND NOT the kind's constant, so every other bit is kept |
| StatusKinds.KindsOfMaskOf | tags/JMS_PROVIDER_BETA.2/dds/DCPS/EntityImpl.h:50-54 | decoding the mask that `get_status_changes` returns gives back exactly the flagged kinds |
| StatusKinds.MaskOfInjective | tags/JMS_PROVIDER_BETA.2/dds/DCPS/EntityImpl.h:75-80 | two sets of flagged kinds have the same mask if and only if they are equal |
| EntityStates.SetFlag | tags/JMS_PROVIDER_BETA.2/dds/DCPS/EntityImpl.h:60-61 | after the flag of `k` is made `flag`, `k` is flagged exactly when `flag` holds, and every other kind keeps its flag |
| EntityStates.FlagsCommute | tags/JMS_PROVIDER_BETA.2/dds/DCPS/EntityImpl.h:75-80 | updates of the flags of two different kinds give the same state in either order |
| EntityStates.StepIdempotent | tags/JMS_PROVIDER_BETA.2/dds/DCPS/EntityImpl.h:38-61 | each of `set_enabled`, `set_deleted(s)` and `set_status_changed_flag(k, b)` applied twice gives the state it gives once |
| EntityStates.FlagCommutesWithLifecycle | tags/JMS_PROVIDER_BETA.2/dds/DCPS/EntityImpl.h:38-61 | a status-flag update commutes with `set_enabled` and `set_deleted`, so flags do not depend on the lifecycle |
| EntityStates.RunFlag | tags/JMS_PROVIDER_BETA.2/dds/DCPS/EntityImpl.h:75-80 | after any history of updates, a kind is flagged exactly as its last `set_status_changed_flag` left it, or as it was initially if there was none |
| EntityStates.RunMask | tags/JMS_PROVIDER_BETA.2/dds/DCPS/EntityImpl.h:50-54 | after any history, the bit of a kind in the reported mask is the flag its last `set_status_changed_flag` gave it, or its initial bit if there was none |
| EntityStates.RunEnabled | tags/JMS_PROVIDER_BETA.2/dds/DCPS/EntityImpl.h:68-69 | after any history, the entity is enabled exactly when it was before or the history contains `set_enabled`; so once enabled, it stays enabled |
| EntityStates.RunDeleted | tags/JMS_PROVIDER_BETA.2/dds/DCPS/EntityImpl.h:71-72 | after any history, the deleted flag is the argument of the last `set_deleted`, or its initial value if there was none |
| Entity.EntityImpl.constructor | tags/JMS_PROVIDER_BETA.2/dds/DCPS/EntityImpl.h:32-33 | a new entity is disabled, not deleted, and its status mask is zero |
| Entity.EntityImpl.SetEnabled | tags/JMS_PROVIDER_BETA.2/dds/DCPS/EntityImpl.h:38-42 | the new state is `Step(old, SetEnabled)`: enabled, with the deleted flag and status flags unchanged |
| Entity.EntityImpl.GetStatusChanges | tags/JMS_PROVIDER_BETA.2/dds/DCPS/EntityImpl.h:50-54 | returns the mask of the flagged kinds: a kind's bit is set exactly when its flag is TRUE, and no other bit is set; modifies nothing, so no flag is reset by this query |
| Entity.EntityImpl.SetDeleted | tags/JMS_PROVIDER_BETA.2/dds/DCPS/EntityImpl.h:56 | the new state is `Step(old, SetDeleted(state))`: the deleted flag is `state`, and the enabled flag and status flags are unchanged |
| Entity.EntityImpl.GetDeleted | tags/JMS_PROVIDER_BETA.2/dds/DCPS/EntityImpl.h:58 | returns the current deleted flag and modifies nothing |
| Entity.EntityImpl.SetStatusChangedFlag | tags/JMS_PROVIDER_BETA.2/dds/DCPS/EntityImpl.h:60-61 | the new state is `Step(old, SetStatusChangedFlag(status, flag))`: `status` is flagged exactly when `flag` holds, every other flag and both lifecycle flags are unchanged, and the mask is the old mask OR `status` (set) or AND NOT `status` (reset) |

## Left out

- Entity.EntityImpl.constructor: the header does not give the initial values of `enabled_`, `entity_deleted_` and `status_changes_`. Disabled, not deleted and an empty mask are this model's choice. They match the DDS rule that an entity is created disabled.
- Entity.EntityImpl.SetStatusChangedFlag: the `status` parameter is an IDL `unsigned long`. The model assumes each call passes exactly one of the thirteen `*_STATUS` constants (the `StatusKind` type). A call with 0 or with an OR of several constants is not modelled.
- `status_changes_` is held in the class as the set of flagged kinds, not as a 32-bit field. `StatusKinds.MaskOf` gives the 32-bit value, and `StatusKinds.MaskOfInjective` shows that no information is lost. A bit outside the thirteen status bits cannot be represented.
- Entity.EntityImpl.SetEnabled: does not model the `DDS::ReturnCode_t` that `set_enabled` returns, because `EntityImpl.cpp` is not part of this model and the header does not say which codes are returned.
- `lock_` and the `ACE_Atomic_Op` wrappers of `enabled_` and `entity_deleted_`: they exist for thread safety. The model treats the fields as plain sequential state.
- `get_statuscondition` and `notify_status_condition`: `get_statuscondition` returns the entity's StatusCondition. `notify_status_condition` is called after listener dispatch and unblocks the waitsets waiting on that condition (EntityImpl.h:63-65). Both act through StatusCondition/WaitSet code that is not part of this model.
- The CORBA `ACE_THROW_SPEC` clauses (`CORBA::SystemException`): exceptions raised by the ORB are outside the entity's own logic.
- The destructor, the `LocalObject<DDS::Entity>` base class, and the servant classes derived from `EntityImpl`. Those derived classes implement the `get_<status>` accessors that reset a flag. Their reset step is modelled as `set_status_changed_flag(kind, false)`.
- `tags/JMS_PROVIDER_BETA-1/examples/DCPS/IntroductionToOpenDDS/subscriber.cpp`: an example program that creates entities, attaches a transport and polls. It is plumbing over library calls, console output and process exit codes.
