/** Status kinds and status masks of the DDS infrastructure IDL (OMG Data
    Distribution Service v1.2, platform-specific model). `DDS::StatusKind` and
    `DDS::StatusKindMask` are both IDL `unsigned long`; each plain
    communication status is one constant `*_STATUS` that owns a single bit. */
module StatusKinds {

  /** `DDS::StatusKindMask`: an IDL `unsigned long`. */
  type StatusKindMask = bv32

  /** The bits owned by some status kind (bits 3 and 4 belong to none). */
  const KindBits: StatusKindMask := 0x7FE7

  /** `b` is a single bit owned by a status kind. */
  predicate IsStatusBit(b: StatusKindMask)
  {
    b != 0 && b & (b - 1) == 0 && b & !KindBits == 0
  }

  /** `DDS::StatusKind`: the constant of one plain communication status. */
  type StatusKind = b: StatusKindMask | IsStatusBit(b) witness 0x0001

  const INCONSISTENT_TOPIC_STATUS: StatusKind := 0x0001
  const OFFERED_DEADLINE_MISSED_STATUS: StatusKind := 0x0002
  const REQUESTED_DEADLINE_MISSED_STATUS: StatusKind := 0x0004
  const OFFERED_INCOMPATIBLE_QOS_STATUS: StatusKind := 0x0020
  const REQUESTED_INCOMPATIBLE_QOS_STATUS: StatusKind := 0x0040
  const SAMPLE_LOST_STATUS: StatusKind := 0x0080
  const SAMPLE_REJECTED_STATUS: StatusKind := 0x0100
  const DATA_ON_READERS_STATUS: StatusKind := 0x0200
  const DATA_AVAILABLE_STATUS: StatusKind := 0x0400
  const LIVELINESS_LOST_STATUS: StatusKind := 0x0800
  const LIVELINESS_CHANGED_STATUS: StatusKind := 0x1000
  const PUBLICATION_MATCHED_STATUS: StatusKind := 0x2000
  const SUBSCRIPTION_MATCHED_STATUS: StatusKind := 0x4000

  /** Every status kind, in the order of its bit. */
  const AllKinds: seq<StatusKind> := [
    INCONSISTENT_TOPIC_STATUS, OFFERED_DEADLINE_MISSED_STATUS, REQUESTED_DEADLINE_MISSED_STATUS,
    OFFERED_INCOMPATIBLE_QOS_STATUS, REQUESTED_INCOMPATIBLE_QOS_STATUS, SAMPLE_LOST_STATUS,
    SAMPLE_REJECTED_STATUS, DATA_ON_READERS_STATUS, DATA_AVAILABLE_STATUS, LIVELINESS_LOST_STATUS,
    LIVELINESS_CHANGED_STATUS, PUBLICATION_MATCHED_STATUS, SUBSCRIPTION_MATCHED_STATUS]

  /** The status kinds are exactly the thirteen IDL constants. */
  lemma StatusKindsAreConstants(b: StatusKindMask)
    ensures IsStatusBit(b) <==> b in AllKinds
  {
    if IsStatusBit(b) {
      assert b == 0x0001 || b == 0x0002 || b == 0x0004 || b == 0x0020 || b == 0x0040
        || b == 0x0080 || b == 0x0100 || b == 0x0200 || b == 0x0400 || b == 0x0800
        || b == 0x1000 || b == 0x2000 || b == 0x4000;
    }
  }

  /** Two kinds share a bit of the mask if and only if they are the same kind. */
  lemma BitsDisjoint(j: StatusKind, k: StatusKind)
    ensures j != k <==> j & k == 0
  {
    assert IsStatusBit(j) && IsStatusBit(k);
  }

  /** The flag of kind `k` is set in mask `m`. */
  predicate HasKind(m: StatusKindMask, k: StatusKind)
  {
    m & k != 0
  }

  // ---------------------------------------------------------------------------
  // The mask of a set of flagged kinds

  /** The contribution of kind `k` to the mask of the flagged kinds `c`. */
  function Part(c: set<StatusKind>, k: StatusKind): StatusKindMask
  {
    if k in c then k else 0
  }

  /** The OR of the contributions of the kinds listed in `ks`. */
  function MaskFrom(c: set<StatusKind>, ks: seq<StatusKind>): StatusKindMask
    decreases |ks|
  {
    if ks == [] then 0 else Part(c, ks[0]) | MaskFrom(c, ks[1..])
  }

  /** `status_changes_` as the source holds it: the OR of the constants of
      the kinds whose StatusChangedFlag is TRUE. */
  function MaskOf(c: set<StatusKind>): StatusKindMask
  {
    MaskFrom(c, AllKinds)
  }

  /** The kinds whose flag is set in `m`. */
  function KindsOf(m: StatusKindMask): set<StatusKind>
  {
    set k | k in AllKinds && HasKind(m, k)
  }

  /** A bit pattern meets an OR exactly when it meets one of its operands. */
  lemma OrAnd(a: StatusKindMask, b: StatusKindMask, x: StatusKindMask)
    ensures (a | b) & x != 0 <==> a & x != 0 || b & x != 0
  {
  }

  /** A kind's flag is set in the mask of a list exactly when the kind is flagged and listed. */
  lemma {:induction false} MaskFromHas(c: set<StatusKind>, ks: seq<StatusKind>, j: StatusKind)
    ensures HasKind(MaskFrom(c, ks), j) <==> j in c && j in ks
    decreases |ks|
  {
    if ks != [] {
      MaskFromHas(c, ks[1..], j);
      BitsDisjoint(ks[0], j);
      OrAnd(Part(c, ks[0]), MaskFrom(c, ks[1..]), j);
      assert j in ks <==> j == ks[0] || j in ks[1..];
    }
  }

  /** The mask of a list has no bit that belongs to no status kind. */
  lemma {:induction false} MaskFromWithin(c: set<StatusKind>, ks: seq<StatusKind>)
    ensures MaskFrom(c, ks) & !KindBits == 0
    decreases |ks|
  {
    if ks != [] {
      MaskFromWithin(c, ks[1..]);
      assert IsStatusBit(ks[0]);
    }
  }

  /** Two masks with no bit outside the status bits are equal when they agree on every kind. */
  lemma MaskExt(x: StatusKindMask, y: StatusKindMask)
    requires x & !KindBits == 0 && y & !KindBits == 0
    requires HasKind(x, INCONSISTENT_TOPIC_STATUS) == HasKind(y, INCONSISTENT_TOPIC_STATUS)
    requires HasKind(x, OFFERED_DEADLINE_MISSED_STATUS) == HasKind(y, OFFERED_DEADLINE_MISSED_STATUS)
    requires HasKind(x, REQUESTED_DEADLINE_MISSED_STATUS) == HasKind(y, REQUESTED_DEADLINE_MISSED_STATUS)
    requires HasKind(x, OFFERED_INCOMPATIBLE_QOS_STATUS) == HasKind(y, OFFERED_INCOMPATIBLE_QOS_STATUS)
    requires HasKind(x, REQUESTED_INCOMPATIBLE_QOS_STATUS) == HasKind(y, REQUESTED_INCOMPATIBLE_QOS_STATUS)
    requires HasKind(x, SAMPLE_LOST_STATUS) == HasKind(y, SAMPLE_LOST_STATUS)
    requires HasKind(x, SAMPLE_REJECTED_STATUS) == HasKind(y, SAMPLE_REJECTED_STATUS)
    requires HasKind(x, DATA_ON_READERS_STATUS) == HasKind(y, DATA_ON_READERS_STATUS)
    requires HasKind(x, DATA_AVAILABLE_STATUS) == HasKind(y, DATA_AVAILABLE_STATUS)
    requires HasKind(x, LIVELINESS_LOST_STATUS) == HasKind(y, LIVELINESS_LOST_STATUS)
    requires HasKind(x, LIVELINESS_CHANGED_STATUS) == HasKind(y, LIVELINESS_CHANGED_STATUS)
    requires HasKind(x, PUBLICATION_MATCHED_STATUS) == HasKind(y, PUBLICATION_MATCHED_STATUS)
    requires HasKind(x, SUBSCRIPTION_MATCHED_STATUS) == HasKind(y, SUBSCRIPTION_MATCHED_STATUS)
    ensures x == y
  {
  }

  /** A kind is flagged exactly when its flag is set in the mask. */
  lemma MaskOfHas(c: set<StatusKind>, k: StatusKind)
    ensures k in c <==> HasKind(MaskOf(c), k)
  {
    StatusKindsAreConstants(k);
    MaskFromHas(c, AllKinds, k);
  }

  /** The mask never has a bit that belongs to no status kind. */
  lemma MaskOfWithin(c: set<StatusKind>)
    ensures MaskOf(c) & !KindBits == 0
  {
    MaskFromWithin(c, AllKinds);
  }

  /** With no kind flagged the mask is zero. */
  lemma MaskOfEmpty()
    ensures MaskOf({}) == 0
  {
    forall k: StatusKind
      ensures HasKind(MaskOf({}), k) == HasKind(0, k)
    {
      MaskOfHas({}, k);
    }
    MaskOfWithin({});
    MaskExt(MaskOf({}), 0);
  }

  /** The mask of a union of flagged sets is the OR of their masks. */
  lemma {:induction false} MaskFromUnion(c: set<StatusKind>, d: set<StatusKind>, ks: seq<StatusKind>)
    ensures MaskFrom(c + d, ks) == MaskFrom(c, ks) | MaskFrom(d, ks)
    decreases |ks|
  {
    if ks != [] {
      MaskFromUnion(c, d, ks[1..]);
    }
  }

  /** With one kind flagged the mask is that kind's constant. */
  lemma MaskOfSingle(k: StatusKind)
    ensures MaskOf({k}) == k
  {
    forall j: StatusKind
      ensures HasKind(MaskOf({k}), j) == HasKind(k, j)
    {
      MaskOfHas({k}, j);
      BitsDisjoint(j, k);
    }
    MaskOfWithin({k});
    assert IsStatusBit(k);
    MaskExt(MaskOf({k}), k);
  }

  /** Clearing bits that `a` does not have leaves `a` as it is. */
  lemma AndNotDisjoint(a: StatusKindMask, b: StatusKindMask)
    requires a & b == 0
    ensures a & !b == a && (a | b) & !b == a
  {
  }

  /** Clearing the constant of a kind that is not flagged changes nothing. */
  lemma ClearAbsent(d: set<StatusKind>, k: StatusKind)
    requires k !in d
    ensures MaskOf(d) & !(k as StatusKindMask) == MaskOf(d)
    ensures (MaskOf(d) | k) & !(k as StatusKindMask) == MaskOf(d)
  {
    MaskOfHas(d, k);
    AndNotDisjoint(MaskOf(d), k);
  }

  /** Setting a kind's flag ORs its constant into the mask. */
  lemma MaskOfRaise(c: set<StatusKind>, k: StatusKind)
    ensures MaskOf(c + {k}) == MaskOf(c) | k
  {
    MaskFromUnion(c, {k}, AllKinds);
    MaskOfSingle(k);
  }

  /** `MaskOfReset` for a kind that is flagged. */
  lemma ResetFlagged(c: set<StatusKind>, k: StatusKind)
    requires k in c
    ensures MaskOf(c - {k}) == MaskOf(c) & !(k as StatusKindMask)
  {
    var d := c - {k};
    ClearAbsent(d, k);
    assert c == d + {k};
    MaskOfRaise(d, k);
  }

  /** `MaskOfReset` for a kind that is not flagged. */
  lemma ResetUnflagged(c: set<StatusKind>, k: StatusKind)
    requires k !in c
    ensures MaskOf(c - {k}) == MaskOf(c) & !(k as StatusKindMask)
  {
    ClearAbsent(c, k);
    assert c == c - {k};
  }

  /** Resetting a kind's flag clears its constant in the mask and keeps every other bit. */
  lemma MaskOfReset(c: set<StatusKind>, k: StatusKind)
    ensures MaskOf(c - {k}) == MaskOf(c) & !(k as StatusKindMask)
  {
    if k in c {
      ResetFlagged(c, k);
    } else {
      ResetUnflagged(c, k);
    }
  }

  /** Decoding the mask gives back the flagged kinds: the set and the mask
      carry the same information. */
  lemma KindsOfMaskOf(c: set<StatusKind>)
    ensures KindsOf(MaskOf(c)) == c
  {
    forall k | k in c
      ensures k in KindsOf(MaskOf(c))
    {
      MaskOfHas(c, k);
      StatusKindsAreConstants(k);
    }
    forall k | k in KindsOf(MaskOf(c))
      ensures k in c
    {
      MaskOfHas(c, k);
    }
  }

  /** Different sets of flagged kinds have different masks. */
  lemma MaskOfInjective(c: set<StatusKind>, d: set<StatusKind>)
    ensures MaskOf(c) == MaskOf(d) <==> c == d
  {
    if MaskOf(c) == MaskOf(d) {
      KindsOfMaskOf(c);
      KindsOfMaskOf(d);
    }
  }
}
