/** Value-level specification of the playlist list: the sequence operations that
    the linked-list methods are proved against, and their properties. */
module ListSpec {

  /** A value or nothing: the `T | null` results of the list's cursor methods. */
  datatype Option<T> = None | Some(value: T)

  /** `s` with the element at index `i` taken out (JavaScript `splice(i, 1)`). */
  function RemovedAt<T>(s: seq<T>, i: nat): (r: seq<T>)
    requires i < |s|
    ensures |r| == |s| - 1
    ensures forall k :: 0 <= k < i ==> r[k] == s[k]
    ensures forall k :: i <= k < |r| ==> r[k] == s[k + 1]
  {
    s[..i] + s[i + 1..]
  }

  /** `s` with `x` placed at index `i`, later elements shifted right
      (JavaScript `splice(i, 0, x)`). */
  function InsertedAt<T>(s: seq<T>, i: nat, x: T): (r: seq<T>)
    requires i <= |s|
    ensures |r| == |s| + 1 && r[i] == x
    ensures forall k :: 0 <= k < i ==> r[k] == s[k]
    ensures forall k :: i < k < |r| ==> r[k] == s[k - 1]
  {
    s[..i] + [x] + s[i..]
  }

  /** Inserting and then removing at the same index gives back the original. */
  lemma RemoveAfterInsert<T>(s: seq<T>, i: nat, x: T)
    requires i <= |s|
    ensures RemovedAt(InsertedAt(s, i, x), i) == s
  {
    var r := RemovedAt(InsertedAt(s, i, x), i);
    assert |r| == |s|;
    forall k | 0 <= k < |s| ensures r[k] == s[k] {
    }
  }

  /** Removing an element and putting it back where it was gives back the original. */
  lemma InsertAfterRemove<T>(s: seq<T>, i: nat)
    requires i < |s|
    ensures InsertedAt(RemovedAt(s, i), i, s[i]) == s
  {
    var r := InsertedAt(RemovedAt(s, i), i, s[i]);
    assert |r| == |s|;
    forall k | 0 <= k < |s| ensures r[k] == s[k] {
    }
  }

  /** Inserting adds exactly one occurrence of the new value. */
  lemma InsertedAtMultiset<T>(s: seq<T>, i: nat, x: T)
    requires i <= |s|
    ensures multiset(InsertedAt(s, i, x)) == multiset(s) + multiset{x}
  {
    assert s == s[..i] + s[i..];
    assert InsertedAt(s, i, x) == s[..i] + ([x] + s[i..]);
  }

  /** Removing takes away exactly one occurrence of the removed value. */
  lemma RemovedAtMultiset<T>(s: seq<T>, i: nat)
    requires i < |s|
    ensures multiset(RemovedAt(s, i)) + multiset{s[i]} == multiset(s)
  {
    assert s == s[..i] + ([s[i]] + s[i + 1..]);
  }

  /** `s` with the element at `from` taken out and reinserted at `to`: the new
      order produced by reorder's two splices. */
  function Moved<T>(s: seq<T>, from: nat, to: nat): (r: seq<T>)
    requires from < |s| && to < |s|
    ensures |r| == |s| && r[to] == s[from]
  {
    InsertedAt(RemovedAt(s, from), to, s[from])
  }

  /** Moving an element to where it already is changes nothing. */
  lemma MovedSamePlace<T>(s: seq<T>, i: nat)
    requires i < |s|
    ensures Moved(s, i, i) == s
  {
    InsertAfterRemove(s, i);
  }

  /** Moving an element is a permutation. */
  lemma {:induction false} MovedPermutes<T>(s: seq<T>, from: nat, to: nat)
    requires from < |s| && to < |s|
    ensures multiset(Moved(s, from, to)) == multiset(s)
  {
    RemovedAtMultiset(s, from);
    InsertedAtMultiset(RemovedAt(s, from), to, s[from]);
  }

  /** Where each element of `s` ends up after a move: the moved element lands at
      `to`, the ones it passed over shift by one towards `from`, the rest stay. */
  lemma MovedAt<T>(s: seq<T>, from: nat, to: nat, k: nat)
    requires from < |s| && to < |s| && k < |s|
    ensures Moved(s, from, to)[k] ==
      if k == to then s[from]
      else if from < to && from <= k < to then s[k + 1]
      else if to < from && to < k <= from then s[k - 1]
      else s[k]
  {
  }

  /** Moving back from `to` to `from` undoes a move from `from` to `to`. */
  lemma MovedInverse<T>(s: seq<T>, from: nat, to: nat)
    requires from < |s| && to < |s|
    ensures Moved(Moved(s, from, to), to, from) == s
  {
    var m := Moved(s, from, to);
    var r := Moved(m, to, from);
    forall k | 0 <= k < |s| ensures r[k] == s[k] {
      MovedAt(m, to, from, k);
      if k == from {
      } else if to < from && to <= k < from {
        MovedAt(s, from, to, k + 1);
      } else if from < to && from < k <= to {
        MovedAt(s, from, to, k - 1);
      } else {
        MovedAt(s, from, to, k);
      }
    }
  }

  /** Inserting at the front prepends and inserting past the last element
      appends: the two ends to which insertAt clamps its index. */
  lemma InsertedAtEnds<T>(s: seq<T>, x: T)
    ensures InsertedAt(s, 0, x) == [x] + s
    ensures InsertedAt(s, |s|, x) == s + [x]
  {
    assert s[..0] == [] && s[0..] == s && s[..|s|] == s && s[|s|..] == [];
  }

  /** After a move between two different places, position `from` holds the
      neighbour of the moved element on the side it moved towards: the element
      on which reorder leaves the cursor. */
  lemma MovedAtFrom<T>(s: seq<T>, from: nat, to: nat)
    requires from < |s| && to < |s| && from != to
    ensures Moved(s, from, to)[from] == if from < to then s[from + 1] else s[from - 1]
  {
    MovedAt(s, from, to, from);
  }

  /** When the elements are distinct, the element left at position `from`
      after a move is never the moved one. */
  lemma MovedLeavesFrom<T>(s: seq<T>, from: nat, to: nat)
    requires from < |s| && to < |s| && from != to
    requires forall i, j :: 0 <= i < j < |s| ==> s[i] != s[j]
    ensures Moved(s, from, to)[from] != s[from]
  {
    MovedAtFrom(s, from, to);
  }

  /** Index of the first occurrence of `x` in `s`: the node that remove unlinks. */
  function FirstIndex<T(==)>(s: seq<T>, x: T): (r: nat)
    requires x in s
    ensures r < |s| && s[r] == x && x !in s[..r]
  {
    if s[0] == x then 0
    else
      assert x in s[1..];
      1 + FirstIndex(s[1..], x)
  }

  /** A position holding `x` with no earlier `x` is the first index of `x`. */
  lemma FirstIndexUnique<T>(s: seq<T>, x: T, i: nat)
    requires i < |s| && s[i] == x && x !in s[..i]
    ensures FirstIndex(s, x) == i
  {
  }

  /** Removing a value that was not in `s` right after inserting it at `i`
      finds the inserted copy at `i` and gives back `s`. */
  lemma RemoveUndoesInsert<T>(s: seq<T>, i: nat, x: T)
    requires i <= |s| && x !in s
    ensures x in InsertedAt(s, i, x) && FirstIndex(InsertedAt(s, i, x), x) == i
    ensures RemovedAt(InsertedAt(s, i, x), i) == s
  {
    var r := InsertedAt(s, i, x);
    assert r[..i] == s[..i];
    FirstIndexUnique(r, x, i);
    RemoveAfterInsert(s, i, x);
  }

  /** The elements of `s` satisfying `p`, in their order in `s`. */
  function Filter<T>(p: T -> bool, s: seq<T>): (r: seq<T>)
    ensures |r| <= |s|
    ensures forall k :: 0 <= k < |r| ==> p(r[k])
  {
    if s == [] then []
    else (if p(s[0]) then [s[0]] else []) + Filter(p, s[1..])
  }

  /** Filtering a concatenation filters each part. */
  lemma {:induction false} FilterAppend<T>(p: T -> bool, a: seq<T>, b: seq<T>)
    ensures Filter(p, a + b) == Filter(p, a) + Filter(p, b)
  {
    if a == [] {
      assert a + b == b;
    } else {
      assert (a + b)[1..] == a[1..] + b;
      FilterAppend(p, a[1..], b);
    }
  }

  /** A value is in the filtered sequence exactly when it is in `s` and satisfies `p`. */
  lemma {:induction false} FilterMembership<T>(p: T -> bool, s: seq<T>, x: T)
    ensures x in Filter(p, s) <==> x in s && p(x)
  {
    if s != [] {
      FilterMembership(p, s[1..], x);
      assert s == [s[0]] + s[1..];
    }
  }

  /** A filter that keeps every element returns the whole sequence. */
  lemma {:induction false} FilterKeepsAll<T>(p: T -> bool, s: seq<T>)
    requires forall k :: 0 <= k < |s| ==> p(s[k])
    ensures Filter(p, s) == s
  {
    if s != [] {
      FilterKeepsAll(p, s[1..]);
    }
  }
}
