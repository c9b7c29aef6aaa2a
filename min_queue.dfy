/** The binary min-heap of Assets/Planner/MinQueue.cs. The C# class keeps a
    `List<(float priority, T element)>` that it changes in place; here that list is
    the field `data`, a sequence the methods reassign. Priorities are integers. */
module MinQueues {
  import opened Wrappers

  /** C# integer division, which truncates toward zero (Dafny's `/` is Euclidean). */
  function TruncDiv(a: int, b: int): int
    requires b > 0
  {
    if a >= 0 then a / b else -((-a) / b)
  }

  /** Heap order: no entry has a smaller priority than its parent. */
  ghost predicate HeapOrdered<T>(s: seq<(int, T)>)
  {
    forall i :: 0 < i < |s| ==> s[MinQueue<T>.Parent(i)].0 <= s[i].0
  }

  /** Heap order everywhere except, possibly, between `k` and its parent; and `k`'s
      parent is no greater than `k`'s children (the state while sifting up). */
  ghost predicate HeapExceptUp<T>(s: seq<(int, T)>, k: int)
  {
    && (forall i :: 0 < i < |s| && i != k ==> s[MinQueue<T>.Parent(i)].0 <= s[i].0)
    && (0 < k < |s| ==> forall c :: 0 < c < |s| && MinQueue<T>.Parent(c) == k ==> s[MinQueue<T>.Parent(k)].0 <= s[c].0)
  }

  /** Heap order everywhere except, possibly, between `k` and its children; and `k`'s
      parent is no greater than `k`'s children (the state while sifting down). */
  ghost predicate HeapExceptDown<T>(s: seq<(int, T)>, k: int)
  {
    && (forall i :: 0 < i < |s| && MinQueue<T>.Parent(i) != k ==> s[MinQueue<T>.Parent(i)].0 <= s[i].0)
    && (0 < k < |s| ==> forall c :: 0 < c < |s| && MinQueue<T>.Parent(c) == k ==> s[MinQueue<T>.Parent(k)].0 <= s[c].0)
  }

  /** The root of a heap-ordered sequence has the least priority. */
  lemma {:induction false} HeapRootIsMin<T>(s: seq<(int, T)>, i: int)
    requires HeapOrdered(s) && 0 <= i < |s|
    ensures s[0].0 <= s[i].0
    decreases i
  {
    if i > 0 {
      HeapRootIsMin(s, MinQueue<T>.Parent(i));
    }
  }

  /** Moving the last entry of a heap to its root and dropping the old root leaves
      the other entries, in sift-down state at the root. */
  lemma ReplaceRoot<T>(s: seq<(int, T)>)
    requires HeapOrdered(s) && s != []
    ensures var t := s[0 := s[|s| - 1]][..|s| - 1];
            && multiset(t) == multiset(s) - multiset{s[0]}
            && |t| == |s| - 1 && HeapExceptDown(t, 0)
  {
    var last := |s| - 1;
    var t := s[0 := s[last]][..last];
    if last > 0 {
      assert s == [s[0]] + s[1..last] + [s[last]];
      assert t == [s[last]] + s[1..last];
    }
    forall i | 0 < i < |t| && MinQueue<T>.Parent(i) != 0
      ensures t[MinQueue<T>.Parent(i)].0 <= t[i].0
    {
    }
  }

  /** The sequence with the entries at `i` and `j` exchanged. */
  function Swap<T>(s: seq<T>, i: int, j: int): (r: seq<T>)
    requires 0 <= i < |s| && 0 <= j < |s|
    ensures |r| == |s| && r[i] == s[j] && r[j] == s[i]
    ensures forall k :: 0 <= k < |s| && k != i && k != j ==> r[k] == s[k]
    ensures multiset(r) == multiset(s)
  {
    s[i := s[j]][j := s[i]]
  }

  /** One round of `MoveUp` keeps the sift-up state, one level higher. */
  lemma SiftUpStep<T>(s: seq<(int, T)>, k: int)
    requires 0 < k < |s| && HeapExceptUp(s, k)
    ensures var p := MinQueue<T>.Parent(k);
            HeapExceptUp(if s[p].0 > s[k].0 then Swap(s, k, p) else s, p)
  {
    var p := MinQueue<T>.Parent(k);
    if s[p].0 > s[k].0 {
      var t := Swap(s, k, p);
      forall i | 0 < i < |t| && i != p
        ensures t[MinQueue<T>.Parent(i)].0 <= t[i].0
      {
        var q := MinQueue<T>.Parent(i);
        if i == k {
        } else if q == k {
          assert t[q] == s[p];
        } else if q == p {
          assert t[q] == s[k];
        }
      }
      if 0 < p {
        forall c | 0 < c < |t| && MinQueue<T>.Parent(c) == p
          ensures t[MinQueue<T>.Parent(p)].0 <= t[c].0
        {
          if c != k {
            assert t[c] == s[c];
          }
        }
      }
    } else {
      if 0 < p {
        forall c | 0 < c < |s| && MinQueue<T>.Parent(c) == p
          ensures s[MinQueue<T>.Parent(p)].0 <= s[c].0
        {
        }
      }
    }
  }

  /** The position `MoveDown` compares against: the least of `k` and its children,
      the earlier one on ties (MinQueue.cs:62-66). */
  function Smallest<T>(s: seq<(int, T)>, k: int): (m: int)
    requires 0 <= k
    ensures m == k || (k < m < |s| && MinQueue<T>.Parent(m) == k && s[m].0 < s[k].0)
  {
    var left := MinQueue<T>.LeftChild(k);
    var right := MinQueue<T>.RightChild(k);
    var m := if left < |s| && s[left].0 < s[k].0 then left else k;
    if right < |s| && s[right].0 < s[m].0 then right else m
  }

  lemma SmallestIsLeast<T>(s: seq<(int, T)>, k: int, c: int)
    requires 0 <= k && 0 < c < |s| && MinQueue<T>.Parent(c) == k
    ensures s[Smallest(s, k)].0 <= s[c].0
  {
    assert c == MinQueue<T>.LeftChild(k) || c == MinQueue<T>.RightChild(k);
  }

  /** One round of the corrected `MoveDown` keeps the sift-down state, one level lower. */
  lemma SiftDownStep<T>(s: seq<(int, T)>, k: int)
    requires 0 <= k < |s| && HeapExceptDown(s, k)
    ensures var m := Smallest(s, k);
            m == k ==> HeapOrdered(s)
    ensures var m := Smallest(s, k);
            m != k ==> HeapExceptDown(Swap(s, k, m), m)
  {
    var m := Smallest(s, k);
    if m == k {
      forall i | 0 < i < |s|
        ensures s[MinQueue<T>.Parent(i)].0 <= s[i].0
      {
        if MinQueue<T>.Parent(i) == k {
          SmallestIsLeast(s, k, i);
        }
      }
    } else {
      var t := Swap(s, k, m);
      forall i | 0 < i < |t| && MinQueue<T>.Parent(i) != m
        ensures t[MinQueue<T>.Parent(i)].0 <= t[i].0
      {
        var q := MinQueue<T>.Parent(i);
        if q == k {
          SmallestIsLeast(s, k, i);
        } else if i == k {
          assert t[i] == s[m];
          assert s[q].0 <= s[m].0;
        }
      }
      forall c | 0 < c < |t| && MinQueue<T>.Parent(c) == m
        ensures t[MinQueue<T>.Parent(m)].0 <= t[c].0
      {
        assert t[c] == s[c];
      }
    }
  }

  // ---------------------------------------------------------------------------
  // MoveDown and RemoveMin as written

  /** After `MoveDown` swaps `k` with its smallest child, `k` holds the least of the
      three entries. */
  lemma SmallestAfterSwap<T>(s: seq<(int, T)>, k: nat)
    requires k < |s| && Smallest(s, k) != k
    ensures Smallest(Swap(s, k, Smallest(s, k)), k) == k
  {
  }

  /** `MoveDown` exactly as written (MinQueue.cs:59-72): after a swap, `goto again`
      restarts at the SAME `position`, which now holds the least of the three entries,
      so the next round stops. At most one swap is made, and the entry moved down is
      not compared with its new children. */
  function MoveDownAsWritten<T>(s: seq<(int, T)>, position: nat): (r: seq<(int, T)>)
    requires position < |s| || s == []
    ensures multiset(r) == multiset(s) && |r| == |s|
    ensures r == s || r == Swap(s, position, Smallest(s, position))
    decreases if Smallest(s, position) == position then 0 else 1
  {
    var smallest := Smallest(s, position);
    if position == smallest then
      s
    else
      SmallestAfterSwap(s, position);
      MoveDownAsWritten(Swap(s, position, smallest), position)
  }

  /** `RemoveMin` as written (MinQueue.cs:37-46), on the pair sequence: the result
      and the sequence left behind. */
  function RemoveMinAsWritten<T>(s: seq<(int, T)>): (r: (Result<(int, T), Exception>, seq<(int, T)>))
    ensures s == [] ==> r == (Failure(InvalidOperation), s)
    ensures s != [] ==> r.0 == Success(s[0]) && |r.1| == |s| - 1
    ensures s != [] ==> multiset(r.1) == multiset(s) - multiset{s[0]}
  {
    if |s| == 0 then
      (Failure(InvalidOperation), s)
    else
      var lastElement := |s| - 1;
      var t := s[0 := s[lastElement]][..lastElement];
      assert lastElement > 0 ==> s == [s[0]] + s[1..lastElement] + [s[lastElement]] && t == [s[lastElement]] + s[1..lastElement];
      (Success(s[0]), MoveDownAsWritten(t, 0))
  }

  /** One removal by the source's `RemoveMin`, on concrete layouts: the root goes,
      the last pair moves to the root and is swapped with its smaller child at most once. */
  lemma RemoveMinAsWrittenStep(s: seq<(int, int)>, t: seq<(int, int)>, m: int, after: seq<(int, int)>)
    requires |s| >= 2 && t == s[0 := s[|s| - 1]][..|s| - 1]
    requires Smallest(t, 0) == m
    requires after == if m == 0 then t else Swap(t, 0, m)
    requires m != 0 ==> Smallest(after, 0) == 0
    ensures RemoveMinAsWritten(s) == (Success(s[0]), after)
  {
  }

  lemma FirstRemoval()
    ensures RemoveMinAsWritten([(1, 1), (2, 2), (3, 3), (4, 4), (5, 5), (6, 6), (7, 7)])
         == (Success((1, 1)), [(2, 2), (7, 7), (3, 3), (4, 4), (5, 5), (6, 6)])
  {
    var s0 := [(1, 1), (2, 2), (3, 3), (4, 4), (5, 5), (6, 6), (7, 7)];
    var t0 := [(7, 7), (2, 2), (3, 3), (4, 4), (5, 5), (6, 6)];
    assert s0[0 := s0[6]][..6] == t0;
    assert Smallest(t0, 0) == 1;
    var u0 := [(2, 2), (7, 7), (3, 3), (4, 4), (5, 5), (6, 6)];
    assert t0[0 := t0[1]] == [(2, 2), (2, 2), (3, 3), (4, 4), (5, 5), (6, 6)];
    assert t0[0 := t0[1]][1 := t0[0]] == u0;
    RemoveMinAsWrittenStep(s0, t0, 1, u0);
  }

  lemma SecondRemoval()
    ensures RemoveMinAsWritten([(2, 2), (7, 7), (3, 3), (4, 4), (5, 5), (6, 6)])
         == (Success((2, 2)), [(3, 3), (7, 7), (6, 6), (4, 4), (5, 5)])
  {
    var s1 := [(2, 2), (7, 7), (3, 3), (4, 4), (5, 5), (6, 6)];
    var t1 := [(6, 6), (7, 7), (3, 3), (4, 4), (5, 5)];
    assert s1[0 := s1[5]][..5] == t1;
    assert Smallest(t1, 0) == 2;
    var u1 := [(3, 3), (7, 7), (6, 6), (4, 4), (5, 5)];
    assert t1[0 := t1[2]] == [(3, 3), (7, 7), (3, 3), (4, 4), (5, 5)];
    assert t1[0 := t1[2]][2 := t1[0]] == u1;
    RemoveMinAsWrittenStep(s1, t1, 2, u1);
  }

  lemma ThirdAndFourthRemovals()
    ensures RemoveMinAsWritten([(3, 3), (7, 7), (6, 6), (4, 4), (5, 5)])
         == (Success((3, 3)), [(5, 5), (7, 7), (6, 6), (4, 4)])
    ensures RemoveMinAsWritten([(5, 5), (7, 7), (6, 6), (4, 4)])
         == (Success((5, 5)), [(4, 4), (7, 7), (6, 6)])
  {
    var s2 := [(3, 3), (7, 7), (6, 6), (4, 4), (5, 5)];
    var s3 := [(5, 5), (7, 7), (6, 6), (4, 4)];
    assert s2[0 := s2[4]][..4] == s3;
    assert Smallest(s3, 0) == 0;
    RemoveMinAsWrittenStep(s2, s3, 0, s3);
    var t3 := [(4, 4), (7, 7), (6, 6)];
    assert s3[0 := s3[3]][..3] == t3;
    assert Smallest(t3, 0) == 0;
    RemoveMinAsWrittenStep(s3, t3, 0, t3);
  }

  /** The source's `RemoveMin` does not always return a least pair. Starting from the
      heap-ordered layout 1..7 (what adding 1, ..., 7 in that order builds, since no
      `MoveUp` swaps), the first removal leaves 7 above 4 and 5, and the fourth removal
      returns 5 while 4 is still queued. */
  lemma RemoveMinAsWrittenMissesMinimum()
    ensures var s0 := [(1, 1), (2, 2), (3, 3), (4, 4), (5, 5), (6, 6), (7, 7)];
            var s1 := RemoveMinAsWritten(s0).1;
            var s2 := RemoveMinAsWritten(s1).1;
            var s3 := RemoveMinAsWritten(s2).1;
            && HeapOrdered(s0)
            && !HeapOrdered(s1)
            && RemoveMinAsWritten(s3).0 == Success((5, 5))
            && (4, 4) in RemoveMinAsWritten(s3).1
  {
    LayoutsOrder();
    FirstRemoval();
    SecondRemoval();
    ThirdAndFourthRemovals();
    assert [(4, 4), (7, 7), (6, 6)][0] == (4, 4);
  }

  lemma LayoutsOrder()
    ensures HeapOrdered([(1, 1), (2, 2), (3, 3), (4, 4), (5, 5), (6, 6), (7, 7)])
    ensures !HeapOrdered([(2, 2), (7, 7), (3, 3), (4, 4), (5, 5), (6, 6)])
  {
    var s0 := [(1, 1), (2, 2), (3, 3), (4, 4), (5, 5), (6, 6), (7, 7)];
    forall i | 0 < i < |s0| ensures s0[MinQueue<int>.Parent(i)].0 <= s0[i].0 {
    }
    var s1 := [(2, 2), (7, 7), (3, 3), (4, 4), (5, 5), (6, 6)];
    assert s1[MinQueue<int>.Parent(3)].0 > s1[3].0;
  }

  class MinQueue<T> {
    /** The (priority, element) pairs, in heap layout. */
    var data: seq<(int, T)>

    ghost predicate Valid()
      reads this
    {
      HeapOrdered(data)
    }

    /** A new queue is empty (MinQueue.cs:13). */
    constructor ()
      ensures Valid() && data == []
    {
      data := [];
    }

    /** `IsEmpty` (MinQueue.cs:14): the queue holds no pair at all. */
    function IsEmpty(): (b: bool)
      reads this
      ensures b <==> multiset(data) == multiset{}
    {
      |data| == 0
    }

    /** `Parent(child)` (MinQueue.cs:16), with C#'s truncating division: the parent
        of the root is the root itself. */
    static function Parent(child: int): (p: int)
      ensures child > 0 ==> 0 <= p < child
      ensures child == 0 ==> p == 0
    {
      TruncDiv(child - 1, 2)
    }

    /** `LeftChild(parent)` (MinQueue.cs:17): a later position whose parent is `parent`. */
    static function LeftChild(parent: int): (c: int)
      ensures parent >= 0 ==> c > parent && Parent(c) == parent
    {
      2 * parent + 1
    }

    /** `RightChild(parent)` (MinQueue.cs:18): the position after the left child, with
        the same parent. */
    static function RightChild(parent: int): (c: int)
      ensures parent >= 0 ==> c == LeftChild(parent) + 1 && Parent(c) == parent
    {
      2 * parent + 2
    }

    /** `Add` (MinQueue.cs:27-32): append the pair, then sift it up. */
    method Add(element: T, priority: int)
      requires Valid()
      modifies this
      ensures Valid()
      ensures multiset(data) == old(multiset(data)) + multiset{(priority, element)}
      ensures |data| == old(|data|) + 1
    {
      var position := |data|;
      data := data + [(priority, element)];
      MoveUp(position);
    }

    /** `RemoveMin` (MinQueue.cs:37-46): on an empty queue, the exception and no
        change; otherwise the root pair, whose priority is no greater than any pair
        left, after the last pair has replaced it and been sifted down. */
    method RemoveMin() returns (r: Result<(int, T), Exception>)
      requires Valid()
      modifies this
      ensures Valid()
      ensures old(data) == [] ==> r == Failure(InvalidOperation) && data == old(data)
      ensures old(data) != [] ==> && r.Success?
                                  && r.value in old(multiset(data))
                                  && multiset(data) == old(multiset(data)) - multiset{r.value}
                                  && |data| == old(|data|) - 1
                                  && forall e :: e in data ==> r.value.0 <= e.0
    {
      if |data| == 0 {
        return Failure(InvalidOperation);
      }
      var result := data[0];
      ghost var before := data;
      var lastElement := |data| - 1;
      data := data[0 := data[lastElement]];
      data := data[..lastElement];
      ReplaceRoot(before);
      MoveDown(0);
      r := Success(result);
      forall e | e in data ensures result.0 <= e.0 {
        assert e in multiset(data);
        assert e in multiset(before);
        var i :| 0 <= i < |before| && before[i] == e;
        HeapRootIsMin(before, i);
      }
    }

    /** `MoveUp` (MinQueue.cs:48-57): swap with the parent while the parent's
        priority is greater, climbing until the root. */
    method MoveUp(position: int)
      requires 0 <= position < |data| && HeapExceptUp(data, position)
      modifies this
      ensures Valid()
      ensures multiset(data) == old(multiset(data)) && |data| == old(|data|)
    {
      var position := position;
      while position > 0
        invariant 0 <= position < |data| && HeapExceptUp(data, position)
        invariant multiset(data) == old(multiset(data)) && |data| == old(|data|)
        decreases position
      {
        var parentPosition := Parent(position);
        SiftUpStep(data, position);
        if data[parentPosition].0 > data[position].0 {
          SwapData(position, parentPosition);
        }
        position := parentPosition;
      }
    }

    /** `MoveDown` (MinQueue.cs:59-72) as intended: swap with the smaller child while
        a child's priority is smaller, following the entry down. The source restarts
        at the same position after a swap instead; see `MoveDownAsWritten`. */
    method MoveDown(position: int)
      requires 0 <= position && (position < |data| || data == []) && HeapExceptDown(data, position)
      modifies this
      ensures Valid()
      ensures multiset(data) == old(multiset(data)) && |data| == old(|data|)
    {
      var position := position;
      if data == [] {
        return;
      }
      while true
        invariant 0 <= position < |data| && HeapExceptDown(data, position)
        invariant multiset(data) == old(multiset(data)) && |data| == old(|data|)
        decreases |data| - position
      {
        var left := LeftChild(position);
        var right := RightChild(position);
        var smallest := position;
        if left < |data| && data[left].0 < data[smallest].0 {
          smallest := left;
        }
        if right < |data| && data[right].0 < data[smallest].0 {
          smallest := right;
        }
        assert smallest == Smallest(data, position);
        SiftDownStep(data, position);
        if position == smallest {
          break;
        }
        SwapData(position, smallest);
        position := smallest;
      }
    }

    /** `SwapData` (MinQueue.cs:74-75): exchange two entries, leave the rest. */
    method SwapData(position: int, parentPosition: int)
      requires 0 <= position < |data| && 0 <= parentPosition < |data|
      modifies this
      ensures data == Swap(old(data), position, parentPosition)
    {
      data := data[position := data[parentPosition]][parentPosition := data[position]];
    }
  }
}
