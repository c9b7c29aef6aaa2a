/** The persistent, structure-sharing singly linked list of Assets/Planner/LList.cs.

    A cell is immutable once built (both fields of the C# class are readonly), so
    cells are values here. What the C# code can observe beyond the contents is a
    cell's identity: `Where` compares references. Each cell therefore carries an
    `id` standing for its address, handed out by an allocation counter `next` that
    every allocating function takes and returns. As long as ids are fresh, two cells
    are equal values exactly when they are the same object. `Nil` is the null
    reference, which the source uses for the empty list. */
module LinkedLists {

  datatype LList<T> = Nil | Cell(id: nat, first: T, rest: LList<T>)

  /** The elements of a list, first cell first. */
  function Elements<T>(l: LList<T>): seq<T>
  {
    match l
    case Nil => []
    case Cell(_, x, r) => [x] + Elements(r)
  }

  function Length<T>(l: LList<T>): nat
  {
    |Elements(l)|
  }

  /** Every cell of `l` was allocated before the counter reached `next`. */
  predicate AllocatedBefore<T>(l: LList<T>, next: nat)
  {
    match l
    case Nil => true
    case Cell(id, _, r) => id < next && AllocatedBefore(r, next)
  }

  lemma {:induction false} AllocatedBeforeMono<T>(l: LList<T>, next: nat, later: nat)
    requires next <= later
    ensures AllocatedBefore(l, next) ==> AllocatedBefore(l, later)
  {
    match l
    case Nil =>
    case Cell(_, _, r) => AllocatedBeforeMono(r, next, later);
  }

  /** The cells of `l`: the list itself and every non-empty suffix of it. */
  function Cells<T(==)>(l: LList<T>): (cs: set<LList<T>>)
    ensures forall c :: c in cs ==> c.Cell? && Length(c) <= Length(l)
    ensures l.Cell? ==> l in cs
  {
    match l
    case Nil => {}
    case Cell(_, _, r) => {l} + Cells(r)
  }

  /** `new LList<T>(first, rest)` (LList.cs:19-23) and the operator `first + rest`
      (LList.cs:27): a fresh cell with exactly the given fields. */
  function New<T>(first: T, rest: LList<T>, next: nat): (r: (LList<T>, nat))
    ensures r.0.Cell? && r.0.first == first && r.0.rest == rest
    ensures Elements(r.0) == [first] + Elements(rest)
    ensures !AllocatedBefore(r.0, next) && r.1 > next
    ensures AllocatedBefore(rest, next) ==> AllocatedBefore(r.0, r.1)
  {
    AllocatedBeforeMono(rest, next, next + 1);
    (Cell(next, first, rest), next + 1)
  }

  /** The implicit conversion of an element to a one-cell list (LList.cs:25). */
  function Singleton<T>(element: T, next: nat): (r: (LList<T>, nat))
    ensures r.0.Cell? && r.0.first == element && r.0.rest == Nil
    ensures Elements(r.0) == [element]
    ensures !AllocatedBefore(r.0, next) && AllocatedBefore(r.0, r.1)
  {
    New(element, Nil, next)
  }

  // ---------------------------------------------------------------------------
  // Specification of filtering, on sequences

  /** The elements of `s` that satisfy `keep`, in their original order. */
  function Filter<T>(s: seq<T>, keep: T -> bool): seq<T>
  {
    if s == [] then [] else (if keep(s[0]) then [s[0]] else []) + Filter(s[1..], keep)
  }

  predicate NoneKept<T>(s: seq<T>, keep: T -> bool)
  {
    forall i :: 0 <= i < |s| ==> !keep(s[i])
  }

  predicate AllKept<T>(s: seq<T>, keep: T -> bool)
  {
    forall i :: 0 <= i < |s| ==> keep(s[i])
  }

  /** The position of the last element of `s` that satisfies `keep`. */
  function LastKept<T>(s: seq<T>, keep: T -> bool): (j: nat)
    requires !NoneKept(s, keep)
    ensures j < |s| && keep(s[j]) && NoneKept(s[j + 1..], keep)
  {
    if NoneKept(s[1..], keep) then
      0
    else
      var j' := LastKept(s[1..], keep);
      assert s[1..][j' + 1..] == s[j' + 2..];
      j' + 1
  }

  lemma AppendAssociative<T>(a: seq<T>, b: seq<T>, c: seq<T>)
    ensures a + (b + c) == (a + b) + c
  {
  }

  /** Filtering a list with a first element `x`. */
  lemma FilterCons<T>(x: T, s: seq<T>, keep: T -> bool)
    ensures Filter([x] + s, keep) == (if keep(x) then [x] else []) + Filter(s, keep)
  {
    assert ([x] + s)[0] == x && ([x] + s)[1..] == s;
  }

  lemma {:induction false} FilterAppend<T>(a: seq<T>, b: seq<T>, keep: T -> bool)
    ensures Filter(a + b, keep) == Filter(a, keep) + Filter(b, keep)
  {
    if a == [] {
      assert a + b == b;
    } else {
      assert a == [a[0]] + a[1..];
      assert a + b == [a[0]] + (a[1..] + b);
      FilterCons(a[0], a[1..] + b, keep);
      FilterCons(a[0], a[1..], keep);
      FilterAppend(a[1..], b, keep);
    }
  }

  /** Filtering keeps exactly the elements that satisfy `keep`. */
  lemma {:induction false} FilterMembers<T>(s: seq<T>, keep: T -> bool)
    ensures forall x :: x in Filter(s, keep) <==> x in s && keep(x)
  {
    if s != [] {
      FilterMembers(s[1..], keep);
      assert s == [s[0]] + s[1..];
    }
  }

  lemma {:induction false} FilterNoneKept<T>(s: seq<T>, keep: T -> bool)
    requires NoneKept(s, keep)
    ensures Filter(s, keep) == []
  {
    if s != [] {
      FilterNoneKept(s[1..], keep);
    }
  }

  lemma {:induction false} FilterAllKept<T>(s: seq<T>, keep: T -> bool)
    requires AllKept(s, keep)
    ensures Filter(s, keep) == s
  {
    if s != [] {
      FilterAllKept(s[1..], keep);
    }
  }

  lemma {:induction false} FilterIdempotent<T>(s: seq<T>, keep: T -> bool)
    ensures Filter(Filter(s, keep), keep) == Filter(s, keep)
  {
    if s != [] {
      var head := if keep(s[0]) then [s[0]] else [];
      FilterAppend(head, Filter(s[1..], keep), keep);
      FilterIdempotent(s[1..], keep);
      if keep(s[0]) {
        assert Filter(head, keep) == [s[0]] + Filter([], keep);
      }
    }
  }

  /** `a` is obtained from `b` by deleting elements. */
  ghost predicate IsSubsequence<T>(a: seq<T>, b: seq<T>)
    decreases |b|
  {
    a == [] || (b != [] && ((a[0] == b[0] && IsSubsequence(a[1..], b[1..])) || IsSubsequence(a, b[1..])))
  }

  lemma {:induction false} SubsequenceOfSelf<T>(s: seq<T>)
    ensures IsSubsequence(s, s)
  {
    if s != [] {
      SubsequenceOfSelf(s[1..]);
    }
  }

  lemma {:induction false} SubsequenceDrop<T>(a: seq<T>, x: T, b: seq<T>)
    requires IsSubsequence(a, b)
    ensures IsSubsequence(a, [x] + b)
  {
    assert ([x] + b)[1..] == b;
  }

  lemma {:induction false} SubsequenceKeep<T>(a: seq<T>, x: T, b: seq<T>)
    requires IsSubsequence(a, b)
    ensures IsSubsequence([x] + a, [x] + b)
  {
    assert ([x] + b)[1..] == b;
    assert ([x] + a)[1..] == a;
  }

  lemma {:induction false} FilterIsSubsequence<T>(s: seq<T>, t: seq<T>, keep: T -> bool)
    ensures IsSubsequence(Filter(s, keep) + t, s + t)
    decreases |s|
  {
    if s == [] {
      assert Filter(s, keep) + t == t && s + t == t;
      SubsequenceOfSelf(t);
    } else {
      assert s + t == [s[0]] + (s[1..] + t);
      FilterIsSubsequence(s[1..], t, keep);
      if keep(s[0]) {
        assert Filter(s, keep) + t == [s[0]] + (Filter(s[1..], keep) + t);
        SubsequenceKeep(Filter(s[1..], keep) + t, s[0], s[1..] + t);
      } else {
        assert Filter(s, keep) + t == Filter(s[1..], keep) + t;
        SubsequenceDrop(Filter(s[1..], keep) + t, s[0], s[1..] + t);
      }
    }
  }

  // ---------------------------------------------------------------------------
  // LListUtilities.Where, as written

  /** `LListUtilities.Where(list, predicate, tail)` as written (LList.cs:36-45): the
      recursion filters the rest first, then returns the original cell whenever its
      element is kept and the filtered rest is the very `tail` object. The result is
      the list built from those cells and the counter after the allocations. */
  function Where<T(==)>(list: LList<T>, keep: T -> bool, tail: LList<T>, next: nat): (r: (LList<T>, nat))
    ensures r.1 >= next
    decreases list
  {
    match list
    case Nil => (tail, next)
    case Cell(_, first, rest) =>
      var (newTail, next') := Where(rest, keep, tail, next);
      var k := keep(first);
      if k && newTail == tail then
        (list, next')
      else if k then
        New(first, newTail, next')
      else
        (newTail, next')
  }

  /** When no element is kept, `Where` returns `tail` itself, whatever `tail` is
      (LList.cs:38-44). */
  lemma {:induction false} WhereNoneKept<T>(list: LList<T>, keep: T -> bool, tail: LList<T>, next: nat)
    requires NoneKept(Elements(list), keep)
    ensures Where(list, keep, tail, next) == (tail, next)
  {
    match list
    case Nil =>
    case Cell(_, x, rest) =>
      assert Elements(list)[0] == x && Elements(rest) == Elements(list)[1..];
      assert !keep(x);
      WhereNoneKept(rest, keep, tail, next);
  }

  /** Every list `Where` returns is `tail`, one of the cells of `list`, or holds a
      freshly allocated cell, and it is not `tail` once some element is kept: `Where`
      builds new cells and never alters old ones. */
  lemma {:induction false} WhereOrigin<T>(list: LList<T>, keep: T -> bool, tail: LList<T>, next: nat)
    ensures var r := Where(list, keep, tail, next).0;
            && (r == tail || r in Cells(list) || !AllocatedBefore(r, next))
            && (!NoneKept(Elements(list), keep) ==> r in Cells(list) || !AllocatedBefore(r, next))
  {
    match list
    case Nil =>
    case Cell(_, x, rest) =>
      var e := Elements(list);
      assert e[0] == x && Elements(rest) == e[1..];
      WhereOrigin(rest, keep, tail, next);
      if NoneKept(Elements(rest), keep) {
        WhereNoneKept(rest, keep, tail, next);
      }
  }

  /** What `Where` as written returns when some element is kept and `tail` is not a
      cell of `list` (LList.cs:36-45): fresh copies of the kept elements before the
      last kept one, followed by the ORIGINAL cell of the last kept element. So every
      element after the last kept one stays, rejected or not, and `tail` is dropped. */
  lemma {:induction false} WhereShape<T>(list: LList<T>, keep: T -> bool, tail: LList<T>, next: nat)
    requires AllocatedBefore(tail, next) && tail !in Cells(list)
    requires !NoneKept(Elements(list), keep)
    ensures var e := Elements(list);
            Elements(Where(list, keep, tail, next).0) == Filter(e[..LastKept(e, keep)], keep) + e[LastKept(e, keep)..]
  {
    var Cell(_, x, rest) := list;
    var e, e' := Elements(list), Elements(rest);
    assert e == [x] + e' && e[1..] == e';
    if NoneKept(e', keep) {
      WhereNoneKept(rest, keep, tail, next);
      assert LastKept(e, keep) == 0;
      assert e[0..] == e && e[..0] == [];
    } else {
      WhereOrigin(rest, keep, tail, next);
      var nt := Where(rest, keep, tail, next).0;
      assert nt != tail by { assert Cells(list) == {list} + Cells(rest); }
      var j' := LastKept(e', keep);
      calc {
        Elements(Where(list, keep, tail, next).0);
        { WhereStep(list, keep, tail, next); }
        (if keep(x) then [x] else []) + Elements(nt);
        { WhereShape(rest, keep, tail, next); }
        (if keep(x) then [x] else []) + (Filter(e'[..j'], keep) + e'[j'..]);
        { ShapeCons(x, e', j', keep); }
        Filter(e[..j' + 1], keep) + e[j' + 1..];
        { assert LastKept(e, keep) == j' + 1; }
        Filter(e[..LastKept(e, keep)], keep) + e[LastKept(e, keep)..];
      }
    }
  }

  /** One step of `Where` as written, when the filtered rest is not `tail` itself:
      the first element is kept in a fresh cell in front of it, or dropped. */
  lemma WhereStep<T>(list: LList<T>, keep: T -> bool, tail: LList<T>, next: nat)
    requires list.Cell? && Where(list.rest, keep, tail, next).0 != tail
    ensures Elements(Where(list, keep, tail, next).0)
         == (if keep(list.first) then [list.first] else []) + Elements(Where(list.rest, keep, tail, next).0)
  {
  }

  lemma ShapeCons<T>(x: T, s: seq<T>, j: nat, keep: T -> bool)
    requires j <= |s|
    ensures Filter(([x] + s)[..j + 1], keep) + ([x] + s)[j + 1..]
         == (if keep(x) then [x] else []) + (Filter(s[..j], keep) + s[j..])
  {
    assert ([x] + s)[..j + 1] == [x] + s[..j];
    assert ([x] + s)[j + 1..] == s[j..];
    assert ([x] + s[..j])[1..] == s[..j];
  }

  /** `Where` as written returns the original cell exactly when its element is kept
      and no later element is (LList.cs:42-43), whatever `tail` is, provided `tail`
      is not one of the list's cells. */
  lemma {:induction false} WhereReturnsSelf<T>(list: LList<T>, keep: T -> bool, tail: LList<T>, next: nat)
    requires AllocatedBefore(list, next) && AllocatedBefore(tail, next) && tail !in Cells(list)
    requires list != Nil
    ensures Where(list, keep, tail, next).0 == list <==> keep(list.first) && NoneKept(Elements(list.rest), keep)
  {
    var Cell(_, x, rest) := list;
    var (newTail, next') := Where(rest, keep, tail, next);
    if NoneKept(Elements(rest), keep) {
      WhereNoneKept(rest, keep, tail, next);
    } else {
      WhereOrigin(rest, keep, tail, next);
      if newTail in Cells(rest) {
        assert Length(newTail) < Length(list);
      }
      AllocatedBeforeMono(list, next, next');
    }
  }

  /** With no tail, the result of `Where` keeps exactly the kept elements, in
      order, and is obtained from the input by deleting elements: it may still
      contain rejected elements, but never loses a kept one (LList.cs:36-45). */
  lemma WhereNoTail<T>(list: LList<T>, keep: T -> bool, next: nat)
    requires AllocatedBefore(list, next)
    ensures var r := Where(list, keep, Nil, next).0;
            && Filter(Elements(r), keep) == Filter(Elements(list), keep)
            && IsSubsequence(Elements(r), Elements(list))
  {
    var r := Where(list, keep, Nil, next).0;
    var e := Elements(list);
    if NoneKept(e, keep) {
      WhereNoneKept(list, keep, Nil, next);
      FilterNoneKept(e, keep);
    } else {
      var j := LastKept(e, keep);
      assert e == e[..j] + e[j..];
      WhereShape(list, keep, Nil, next);
      calc {
        Filter(Elements(r), keep);
        Filter(Filter(e[..j], keep) + e[j..], keep);
        { FilterAppend(Filter(e[..j], keep), e[j..], keep); }
        Filter(Filter(e[..j], keep), keep) + Filter(e[j..], keep);
        { FilterIdempotent(e[..j], keep); }
        Filter(e[..j], keep) + Filter(e[j..], keep);
        { FilterAppend(e[..j], e[j..], keep); }
        Filter(e, keep);
      }
      FilterIsSubsequence(e[..j], e[j..], keep);
    }
  }

  /** With no tail and the last element kept, `Where` computes exactly the
      filtered list (LList.cs:40-44). */
  lemma WhereLastKept<T>(list: LList<T>, keep: T -> bool, next: nat)
    requires AllocatedBefore(list, next) && list != Nil
    requires keep(Elements(list)[Length(list) - 1])
    ensures Elements(Where(list, keep, Nil, next).0) == Filter(Elements(list), keep)
  {
    var e := Elements(list);
    WhereShape(list, keep, Nil, next);
    var j := LastKept(e, keep);
    assert j == |e| - 1;
    assert e == e[..j] + [e[j]];
    FilterAppend(e[..j], [e[j]], keep);
  }

  /** The doc comment's promise fails: with `[a, b]` and only `a` kept, `Where`
      returns the input list itself, rejected `b` included. */
  lemma WhereKeepsRejectedElement<T>(a: T, b: T, keep: T -> bool)
    requires keep(a) && !keep(b)
    ensures var l := Cell(0, a, Cell(1, b, Nil));
            && Where(l, keep, Nil, 2).0 == l
            && Elements(Where(l, keep, Nil, 2).0) == [a, b] != Filter(Elements(l), keep)
  {
    var l := Cell(0, a, Cell(1, b, Nil));
    assert Elements(Cell(1, b, Nil)) == [b] + Elements(Nil) == [b];
    assert Elements(l) == [a, b];
    assert Where(Cell(1, b, Nil), keep, Nil, 2) == (Nil, 2);
    assert [a, b][1..] == [b];
    assert Filter([b], keep) == [] + Filter([], keep);
    assert Filter(Elements(l), keep) == [a] + Filter([b], keep);
  }

  /** The doc comment's promise fails: a kept last element drops a non-empty tail. */
  lemma WhereDropsTail<T>(a: T, c: T, keep: T -> bool)
    requires keep(a)
    ensures var l := Cell(0, a, Nil);
            var tail := Cell(1, c, Nil);
            && Where(l, keep, tail, 2).0 == l
            && Elements(Where(l, keep, tail, 2).0) != Filter(Elements(l), keep) + Elements(tail)
  {
  }

  /** Sharing is lost: with no tail, a list of two or more elements that are all
      kept is not returned as is, although the result has the same elements. (A
      one-element list is returned as is, as `WhereReturnsSelf` states.) */
  lemma WhereCopiesKeptList<T>(list: LList<T>, keep: T -> bool, next: nat)
    requires AllocatedBefore(list, next) && Length(list) >= 2 && AllKept(Elements(list), keep)
    ensures Where(list, keep, Nil, next).0 != list
    ensures Elements(Where(list, keep, Nil, next).0) == Elements(list)
  {
    var e := Elements(list);
    assert e == [list.first] + Elements(list.rest);
    assert Elements(list.rest)[0] == e[1];
    assert Nil !in Cells(list);
    WhereReturnsSelf(list, keep, Nil, next);
    assert keep(e[Length(list) - 1]);
    WhereLastKept(list, keep, next);
    FilterAllKept(e, keep);
  }

  /** Every element of the result of `Where` is an element of `list` or of `tail`:
      `Where` never invents elements. */
  lemma {:induction false} WhereMembers<T>(list: LList<T>, keep: T -> bool, tail: LList<T>, next: nat, x: T)
    requires x in Elements(Where(list, keep, tail, next).0)
    ensures x in Elements(list) || x in Elements(tail)
    decreases list
  {
    match list
    case Nil =>
    case Cell(_, first, rest) =>
      assert Elements(list) == [first] + Elements(rest);
      var newTail := Where(rest, keep, tail, next).0;
      if !(keep(first) && newTail == tail) && x != first {
        WhereMembers(rest, keep, tail, next, x);
      }
  }

  // ---------------------------------------------------------------------------
  // LListUtilities.Where, corrected

  /** `Where` with the comparison the doc comment calls for (LList.cs:32-45): the
      cell is reused when the filtered rest is its own `Rest`. */
  function WhereFixed<T(==)>(list: LList<T>, keep: T -> bool, tail: LList<T>, next: nat): (r: (LList<T>, nat))
    ensures r.1 >= next
    decreases list
  {
    match list
    case Nil => (tail, next)
    case Cell(_, first, rest) =>
      var filtered := WhereFixed(rest, keep, tail, next);
      if keep(first) && filtered.0 == rest then
        (list, filtered.1)
      else if keep(first) then
        New(first, filtered.0, filtered.1)
      else
        filtered
  }

  /** One step of the corrected filter: the first element is kept in front of the
      filtered rest, or dropped, whichever cell ends up holding it. */
  lemma WhereFixedStep<T>(list: LList<T>, keep: T -> bool, tail: LList<T>, next: nat)
    requires list.Cell?
    ensures Elements(WhereFixed(list, keep, tail, next).0)
         == (if keep(list.first) then [list.first] else []) + Elements(WhereFixed(list.rest, keep, tail, next).0)
  {
  }

  /** The corrected filter keeps exactly the elements that satisfy the predicate,
      in order, followed by `tail`. */
  lemma {:induction false} WhereFixedFilters<T>(list: LList<T>, keep: T -> bool, tail: LList<T>, next: nat)
    ensures Elements(WhereFixed(list, keep, tail, next).0) == Filter(Elements(list), keep) + Elements(tail)
    decreases list
  {
    match list
    case Nil =>
    case Cell(_, first, rest) =>
      var head := if keep(first) then [first] else [];
      calc {
        Elements(WhereFixed(list, keep, tail, next).0);
        { WhereFixedStep(list, keep, tail, next); }
        head + Elements(WhereFixed(rest, keep, tail, next).0);
        { WhereFixedFilters(rest, keep, tail, next); }
        head + (Filter(Elements(rest), keep) + Elements(tail));
        { AppendAssociative(head, Filter(Elements(rest), keep), Elements(tail)); }
        (head + Filter(Elements(rest), keep)) + Elements(tail);
        { FilterCons(first, Elements(rest), keep); }
        Filter(Elements(list), keep) + Elements(tail);
      }
  }

  /** The corrected filter shares structure as intended: it returns the input list
      itself exactly when every element is kept and there is no tail. */
  lemma {:induction false} WhereFixedShares<T>(list: LList<T>, keep: T -> bool, tail: LList<T>, next: nat)
    requires AllocatedBefore(list, next) && AllocatedBefore(tail, next) && tail !in Cells(list)
    ensures var r := WhereFixed(list, keep, tail, next).0;
            && (r == tail || r in Cells(list) || !AllocatedBefore(r, next))
            && (r == list <==> tail == Nil && AllKept(Elements(list), keep))
  {
    match list
    case Nil =>
    case Cell(_, x, rest) =>
      var e := Elements(list);
      assert e[0] == x && Elements(rest) == e[1..];
      var (newTail, next') := WhereFixed(rest, keep, tail, next);
      WhereFixedShares(rest, keep, tail, next);
      AllocatedBeforeMono(list, next, next');
      if newTail in Cells(rest) {
        assert Length(newTail) < Length(list);
      }
      if AllKept(e, keep) {
        assert AllKept(Elements(rest), keep);
      }
  }

  // ---------------------------------------------------------------------------
  // LListUtilities.ToArray

  /** `LListUtilities.ToArray` (LList.cs:50-63): one loop counts the cells, a second
      fills an array of that length with the elements in order. */
  method ToArray<T>(list: LList<T>) returns (a: array<T>)
    ensures fresh(a)
    ensures a.Length == Length(list)
    ensures forall i :: 0 <= i < a.Length ==> a[i] == Elements(list)[i]
  {
    var length := 0;
    var cell := list;
    while cell != Nil
      invariant length + Length(cell) == Length(list)
      decreases cell
    {
      length := length + 1;
      cell := cell.rest;
    }
    if length == 0 {
      a := new T[0];
    } else {
      // C# fills the new array with default(T); any element does here, every slot is overwritten
      a := new T[length](_ => list.first);
    }
    var i := 0;
    cell := list;
    while cell != Nil
      invariant 0 <= i <= length && Elements(cell) == Elements(list)[i..]
      invariant forall j :: 0 <= j < i ==> a[j] == Elements(list)[j]
      decreases cell
    {
      a[i] := cell.first;
      i := i + 1;
      cell := cell.rest;
    }
  }
}
