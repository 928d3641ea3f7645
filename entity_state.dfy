/** The state an `EntityImpl` keeps for its entity, as a value: the enabled
    flag, the deleted flag and the status-changed flags, together with the
    three operations that update it. The status-changed flags are held as the
    set of kinds whose flag is TRUE; `StatusKinds.MaskOf` of that set is the
    value of `status_changes_`. The class in module `Entity` is proved to
    follow these functions step by step. */
module EntityStates {
  import opened StatusKinds

  datatype EntityState = EntityState(
    enabled: bool,
    deleted: bool,
    statusChanges: set<StatusKind>)

  /** The state of a freshly constructed entity: disabled, not deleted, no status changed. */
  const Initial: EntityState := EntityState(false, false, {})

  /** The updates an `EntityImpl` offers. */
  datatype Op =
    | SetEnabled
    | SetDeleted(state: bool)
    | SetStatusChangedFlag(status: StatusKind, flag: bool)

  /** The status-changed flags after the flag of `k` is made `flag`. */
  function SetFlag(changes: set<StatusKind>, k: StatusKind, flag: bool): (r: set<StatusKind>)
    ensures k in r <==> flag
    ensures forall j :: j != k ==> (j in r <==> j in changes)
  {
    if flag then changes + {k} else changes - {k}
  }

  /** The state after one update. */
  function Step(s: EntityState, op: Op): EntityState
  {
    match op
    case SetEnabled => s.(enabled := true)
    case SetDeleted(state) => s.(deleted := state)
    case SetStatusChangedFlag(k, flag) => s.(statusChanges := SetFlag(s.statusChanges, k, flag))
  }

  /** The state after a sequence of updates, applied first to last. */
  function Run(s: EntityState, ops: seq<Op>): EntityState
    decreases |ops|
  {
    if ops == [] then s else Run(Step(s, ops[0]), ops[1..])
  }

  // ---------------------------------------------------------------------------
  // set_status_changed_flag

  /** Flags of different kinds may be updated in either order. */
  lemma FlagsCommute(s: EntityState, j: StatusKind, b: bool, k: StatusKind, c: bool)
    requires j != k
    ensures Step(Step(s, SetStatusChangedFlag(j, b)), SetStatusChangedFlag(k, c))
         == Step(Step(s, SetStatusChangedFlag(k, c)), SetStatusChangedFlag(j, b))
  {
  }

  // ---------------------------------------------------------------------------
  // All updates

  /** Every update is idempotent: applying it twice is applying it once. */
  lemma StepIdempotent(s: EntityState, op: Op)
    ensures Step(Step(s, op), op) == Step(s, op)
  {
  }

  /** Status flags are independent of the lifecycle: a flag update commutes with
      `set_enabled` and `set_deleted`. */
  lemma FlagCommutesWithLifecycle(s: EntityState, k: StatusKind, flag: bool, op: Op)
    requires op.SetEnabled? || op.SetDeleted?
    ensures Step(Step(s, SetStatusChangedFlag(k, flag)), op) == Step(Step(s, op), SetStatusChangedFlag(k, flag))
  {
  }

  // ---------------------------------------------------------------------------
  // Sequences of updates

  /** Reference definition of a status-changed flag after a history of updates:
      the flag given by the last update of that kind, or `initial` when there is none. */
  function FlagAfter(ops: seq<Op>, k: StatusKind, initial: bool): bool
  {
    if ops == [] then initial
    else match ops[|ops| - 1]
      case SetStatusChangedFlag(j, flag) =>
        if j == k then flag else FlagAfter(ops[..|ops| - 1], k, initial)
      case _ => FlagAfter(ops[..|ops| - 1], k, initial)
  }

  /** Reference definition of the deleted flag after a history: the argument of
      the last `set_deleted`, or `initial` when there is none. */
  function DeletedAfter(ops: seq<Op>, initial: bool): bool
  {
    if ops == [] then initial
    else match ops[|ops| - 1]
      case SetDeleted(state) => state
      case _ => DeletedAfter(ops[..|ops| - 1], initial)
  }

  /** Running a history extended by one update is running the history, then the update. */
  lemma {:induction false} RunSnoc(s: EntityState, ops: seq<Op>, op: Op)
    ensures Run(s, ops + [op]) == Step(Run(s, ops), op)
    decreases |ops|
  {
    if ops == [] {
      assert [] + [op] == [op];
    } else {
      assert (ops + [op])[1..] == ops[1..] + [op];
      RunSnoc(Step(s, ops[0]), ops[1..], op);
    }
  }

  /** After any history, a kind's status-changed flag is the one its last
      `set_status_changed_flag` gave it; updates of other kinds and lifecycle
      updates never touch it. */
  lemma {:induction false} RunFlag(s: EntityState, ops: seq<Op>, k: StatusKind)
    ensures (k in Run(s, ops).statusChanges) == FlagAfter(ops, k, k in s.statusChanges)
    decreases |ops|
  {
    if ops != [] {
      var init, last := ops[..|ops| - 1], ops[|ops| - 1];
      assert ops == init + [last];
      RunSnoc(s, init, last);
      RunFlag(s, init, k);
    }
  }

  /** Once enabled, an entity stays enabled: it is enabled after a history
      exactly when it was before or the history holds a `set_enabled`. */
  lemma {:induction false} RunEnabled(s: EntityState, ops: seq<Op>)
    ensures Run(s, ops).enabled <==> s.enabled || SetEnabled in ops
    decreases |ops|
  {
    if ops != [] {
      RunEnabled(Step(s, ops[0]), ops[1..]);
      assert ops == [ops[0]] + ops[1..];
    }
  }

  /** After any history, `get_deleted` answers the argument of the last `set_deleted`. */
  lemma {:induction false} RunDeleted(s: EntityState, ops: seq<Op>)
    ensures Run(s, ops).deleted == DeletedAfter(ops, s.deleted)
    decreases |ops|
  {
    if ops != [] {
      var init, last := ops[..|ops| - 1], ops[|ops| - 1];
      assert ops == init + [last];
      RunSnoc(s, init, last);
      RunDeleted(s, init);
    }
  }

  /** After any history, the mask that `get_status_changes` reports has the
      bit of a kind set exactly when the last `set_status_changed_flag` of
      that kind set its flag (or, with none, when it was set initially). */
  lemma RunMask(s: EntityState, ops: seq<Op>, k: StatusKind)
    ensures HasKind(MaskOf(Run(s, ops).statusChanges), k)
        == FlagAfter(ops, k, HasKind(MaskOf(s.statusChanges), k))
  {
    RunFlag(s, ops, k);
    MaskOfHas(Run(s, ops).statusChanges, k);
    MaskOfHas(s.statusChanges, k);
  }
}
