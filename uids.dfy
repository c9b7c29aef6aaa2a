/** The identity source of Assets/Planner/UIDBase.cs. Every `UidBase` object (each
    Variable and each Goal) takes the value of a static `uint` counter as its `Uid`
    and increments the counter. The static counter is the field `nextUid` of an
    explicit `UidSource` object here; `uint` arithmetic wraps at 2^32. */
module Uids {
  import opened Wrappers

  /** The number of `uint` values. */
  const UidLimit: nat := 0x1_0000_0000

  /** The counter value after `nextUid++` on a `uint`. */
  function Successor(u: nat): (s: nat)
    requires u < UidLimit
    ensures s < UidLimit
    ensures u + 1 < UidLimit ==> s == u + 1
    ensures u == UidLimit - 1 ==> s == 0
  {
    (u + 1) % UidLimit
  }

  class UidSource {
    /** The static `nextUid` (UIDBase.cs:10); a static `uint` starts at 0. */
    var nextUid: nat

    ghost predicate Valid()
      reads this
    {
      nextUid < UidLimit
    }

    constructor ()
      ensures Valid() && nextUid == 0
    {
      nextUid := 0;
    }

    /** The field initialiser `Uid = nextUid++` (UIDBase.cs:11): the new object gets
        the current counter value, and the counter moves on by one. */
    method Issue() returns (uid: nat)
      requires Valid()
      modifies this
      ensures Valid()
      ensures uid == old(nextUid) && nextUid == Successor(old(nextUid))
    {
      uid := nextUid;
      nextUid := Successor(nextUid);
    }
  }

  /** The uids that `n` objects constructed one after the other receive, when the
      counter starts at `start`. */
  function Issued(start: nat, n: nat): (s: seq<nat>)
    requires start < UidLimit
    ensures |s| == n
    decreases n
  {
    if n == 0 then [] else [start] + Issued(Successor(start), n - 1)
  }

  /** Until the counter wraps, the objects receive consecutive, hence distinct and
      strictly increasing, uids in creation order (UIDBase.cs:10-11). */
  lemma {:induction false} IssuedIncreasing(start: nat, n: nat)
    requires start + n <= UidLimit
    ensures forall i :: 0 <= i < n ==> Issued(start, n)[i] == start + i
    ensures forall i, j :: 0 <= i < j < n ==> Issued(start, n)[i] < Issued(start, n)[j]
    decreases n
  {
    if n > 0 {
      IssuedIncreasing(Successor(start), n - 1);
    }
  }

  /** Past 2^32 objects the `uint` counter wraps: the object after the one with the
      largest uid gets uid 0 again, which the very first object already has. */
  lemma IssuedWraps()
    ensures Issued(UidLimit - 1, 2) == [UidLimit - 1, 0]
    ensures Issued(UidLimit - 1, 2)[1] == Issued(0, 1)[0]
  {
    assert Issued(0, 0) == [];
  }

  /** `CompareTo(UidBase other)` (UIDBase.cs:17): `uint.CompareTo` of the two uids,
      which is -1, 0 or 1 with the sign of the comparison. */
  function CompareTo(uid: nat, other: nat): (c: int)
    ensures -1 <= c <= 1
    ensures c < 0 <==> uid < other
    ensures c == 0 <==> uid == other
    ensures c > 0 <==> uid > other
  {
    if uid < other then -1 else if uid > other then 1 else 0
  }

  /** `CompareTo(object)` (UIDBase.cs:12-15) is not implemented: it always throws. */
  function CompareToObject<O>(uid: nat, obj: O): (r: Result<int, Exception>)
    ensures r == Failure(NotImplemented)
  {
    Failure(NotImplemented)
  }
}
