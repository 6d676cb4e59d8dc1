/**
 * Join-table bindings of an invite (its invited groups, its topics) kept as
 * lists of ids in creation order, and Ruby's `Array#-`, with which the
 * generator computes the group ids still to be bound.
 */
module Bindings {

  predicate NoDup<T(==)>(s: seq<T>) {
    forall i, j :: 0 <= i < j < |s| ==> s[i] != s[j]
  }

  /**
   * `a - b` on Ruby arrays: the elements of `a` that do not occur in `b`, in
   * their order in `a`, duplicates included.
   */
  function Difference<T(==,!new)>(a: seq<T>, b: seq<T>): (r: seq<T>)
    ensures forall x :: x in r <==> x in a && x !in b
    ensures |r| <= |a|
    ensures b == [] ==> r == a
    ensures NoDup(a) ==> NoDup(r)
    ensures forall x :: multiset(r)[x] == if x in b then 0 else multiset(a)[x]
    decreases |a|
  {
    if a == [] then []
    else
      assert a == [a[0]] + a[1..];
      if a[0] in b then Difference(a[1..], b) else [a[0]] + Difference(a[1..], b)
  }

  /**
   * Insert-if-absent: the bindings after binding `requested` to an owner
   * that already has `bound`.  Existing bindings stay as they are, every
   * requested id ends up bound, and nothing already bound is bound again.
   */
  function InsertAbsent<T(==,!new)>(bound: seq<T>, requested: seq<T>): (r: seq<T>)
    ensures |bound| <= |r| && r[..|bound|] == bound
    ensures forall x :: x in r <==> x in bound || x in requested
    ensures forall j :: |bound| <= j < |r| ==> r[j] !in bound
    ensures bound == [] ==> r == requested
    ensures NoDup(bound) && NoDup(requested) ==> NoDup(r)
  {
    var added := Difference(requested, bound);
    assert forall j :: |bound| <= j < |bound + added| ==> (bound + added)[j] == added[j - |bound|];
    bound + added
  }

  /**
   * Subtraction works element by element, in order: subtracting from two
   * lists laid end to end gives the two results laid end to end.
   */
  lemma {:induction false} DifferenceAppend<T(!new)>(a: seq<T>, c: seq<T>, b: seq<T>)
    ensures Difference(a + c, b) == Difference(a, b) + Difference(c, b)
    decreases |a|
  {
    if a == [] {
      assert a + c == c;
    } else {
      assert (a + c)[0] == a[0] && (a + c)[1..] == a[1..] + c;
      DifferenceAppend(a[1..], c, b);
    }
  }

  /** Subtracting a list that covers every element leaves nothing. */
  lemma {:induction false} DifferenceOfCovered<T(!new)>(a: seq<T>, b: seq<T>)
    requires forall x :: x in a ==> x in b
    ensures Difference(a, b) == []
    decreases |a|
  {
    if a != [] {
      assert a[0] in a;
      assert forall x :: x in a[1..] ==> x in a;
      DifferenceOfCovered(a[1..], b);
    }
  }

  /**
   * Ruby's `Array#-` removes only what occurs in the right operand: an id
   * requested twice for an owner with nothing bound is bound twice.
   */
  lemma DuplicateRequestBoundTwice<T(!new)>(g: T)
    ensures InsertAbsent([], [g, g]) == [g, g]
    ensures multiset(InsertAbsent([], [g, g]))[g] == 2
  {
  }

  /** Binding the same ids a second time adds no binding. */
  lemma InsertAbsentIdempotent<T(!new)>(bound: seq<T>, requested: seq<T>)
    ensures InsertAbsent(InsertAbsent(bound, requested), requested) == InsertAbsent(bound, requested)
  {
    var once := InsertAbsent(bound, requested);
    DifferenceOfCovered(requested, once);
  }
}
