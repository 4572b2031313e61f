/**
 * Sequence operations with the semantics of the JavaScript array methods the source
 * uses: `filter`, `indexOf`, `splice`, and `Set` construction from an array.
 */
module Seqs {

  /** An element of a non-empty sequence is its last element or an element of the rest. */
  lemma InitOrLast<T>(s: seq<T>, x: T)
    requires x in s
    ensures s[..|s| - 1 + 1] == s
    ensures x == s[|s| - 1] || x in s[..|s| - 1]
  {
    var k :| 0 <= k < |s| && s[k] == x;
    if k < |s| - 1 {
      assert s[..|s| - 1][k] == x;
    }
  }

  /** `s.filter(p)`: the elements satisfying `p`, in their original order. */
  function Filter<T(!new)>(s: seq<T>, p: T -> bool): (r: seq<T>)
    ensures |r| <= |s|
    ensures forall i :: 0 <= i < |r| ==> p(r[i])
    ensures forall x :: x in r <==> x in s && p(x)
  {
    if s == [] then []
    else (if p(s[0]) then [s[0]] else []) + Filter(s[1..], p)
  }

  lemma {:induction false} FilterConcat<T(!new)>(a: seq<T>, b: seq<T>, p: T -> bool)
    ensures Filter(a + b, p) == Filter(a, p) + Filter(b, p)
  {
    if a == [] {
      assert a + b == b;
    } else {
      assert (a + b)[1..] == a[1..] + b;
      FilterConcat(a[1..], b, p);
    }
  }

  /** Every element kept: the filter is the identity. */
  lemma {:induction false} FilterAll<T(!new)>(s: seq<T>, p: T -> bool)
    requires forall i :: 0 <= i < |s| ==> p(s[i])
    ensures Filter(s, p) == s
  {
    if s != [] {
      FilterAll(s[1..], p);
    }
  }

  lemma {:induction false} FilterMultiset<T(!new)>(s: seq<T>, p: T -> bool, x: T)
    ensures multiset(Filter(s, p))[x] == if p(x) then multiset(s)[x] else 0
  {
    if s != [] {
      FilterMultiset(s[1..], p, x);
      assert s == [s[0]] + s[1..];
    }
  }

  /** `s.filter(y => y !== x)` */
  function Remove<T(==, !new)>(s: seq<T>, x: T): (r: seq<T>)
    ensures x !in r
    ensures forall y :: y in r <==> y in s && y != x
    ensures multiset(r) == multiset(s)[x := 0]
  {
    var r := Filter(s, y => y != x);
    forall y ensures multiset(r)[y] == multiset(s)[x := 0][y] {
      FilterMultiset(s, z => z != x, y);
    }
    r
  }

  lemma RemoveAbsent<T(!new)>(s: seq<T>, x: T)
    requires x !in s
    ensures Remove(s, x) == s
  {
    FilterAll(s, y => y != x);
  }

  /** Removing an element just appended to a sequence without it gives the sequence back. */
  lemma RemoveAppended<T(!new)>(s: seq<T>, x: T)
    requires x !in s
    ensures Remove(s + [x], x) == s
  {
    FilterConcat(s, [x], y => y != x);
    RemoveAbsent(s, x);
    assert Filter([x], y => y != x) == [];
  }

  /** `s.indexOf(x)`: the first position of `x`, or -1. */
  function IndexOf<T(==)>(s: seq<T>, x: T): (i: int)
    ensures -1 <= i < |s|
    ensures i == -1 <==> x !in s
    ensures 0 <= i ==> s[i] == x && x !in s[..i]
  {
    if s == [] then -1
    else if s[0] == x then 0
    else
      var j := IndexOf(s[1..], x);
      assert j >= 0 ==> s[..j + 1] == [s[0]] + s[1..][..j];
      if j == -1 then -1 else j + 1
  }

  /** Where `splice(start, …)` starts on a sequence of length `len`: a negative start counts from the end. */
  function SpliceStart(len: nat, start: int): (k: nat)
    ensures k <= len
  {
    if start < 0 then (if len + start < 0 then 0 else len + start)
    else if start > len then len
    else start
  }

  /**
   * `s.splice(start, deleteCount, ...items)` returning the updated array: `deleteCount`
   * elements from the (clamped) start are replaced by `items`.
   */
  function Splice<T>(s: seq<T>, start: int, deleteCount: nat, items: seq<T>): (r: seq<T>)
    ensures var k := SpliceStart(|s|, start);
            var n := if deleteCount <= |s| - k then deleteCount else |s| - k;
            r == s[..k] + items + s[k + n..]
  {
    var k := SpliceStart(|s|, start);
    var n := if deleteCount <= |s| - k then deleteCount else |s| - k;
    s[..k] + items + s[k + n..]
  }

  /** Inserting one element at an index within bounds adds exactly that element. */
  lemma SpliceInsert<T>(s: seq<T>, i: int, x: T)
    requires 0 <= i <= |s|
    ensures Splice(s, i, 0, [x]) == s[..i] + [x] + s[i..]
    ensures multiset(Splice(s, i, 0, [x])) == multiset(s) + multiset{x}
  {
    assert s == s[..i] + s[i..];
  }

  /** Replacing the element at an index within bounds by `items`. */
  lemma SpliceReplace<T>(s: seq<T>, i: int, items: seq<T>)
    requires 0 <= i < |s|
    ensures Splice(s, i, 1, items) == s[..i] + items + s[i + 1..]
    ensures multiset(Splice(s, i, 1, items)) == multiset(s) - multiset{s[i]} + multiset(items)
  {
    assert s == s[..i] + [s[i]] + s[i + 1..];
  }

  /** Replacing an element of a distinct sequence by distinct items that are new to it. */
  lemma SpliceReplaceDistinct<T>(s: seq<T>, i: int, items: seq<T>)
    requires 0 <= i < |s| && Distinct(s) && Distinct(items)
    requires forall x :: x in items ==> x !in s
    ensures Distinct(Splice(s, i, 1, items))
    ensures forall x :: x in Splice(s, i, 1, items) <==> (x in s && x != s[i]) || x in items
  {
    SpliceReplace(s, i, items);
    var r := Splice(s, i, 1, items);
    forall x ensures x in r <==> (x in s && x != s[i]) || x in items {
      assert x in r <==> multiset(r)[x] > 0;
      assert x in s <==> multiset(s)[x] > 0;
      assert x in items <==> multiset(items)[x] > 0;
    }
    forall x | x in r ensures multiset(r)[x] <= 1 {
      if x in items {
        assert multiset(s)[x] == 0;
      }
    }
  }

  /** `Array.from(new Set(s))`: the distinct elements in order of first occurrence. */
  function Dedup<T(==, !new)>(s: seq<T>): (r: seq<T>)
    ensures forall x :: x in r <==> x in s
    ensures forall i, j :: 0 <= i < j < |r| ==> r[i] != r[j]
  {
    if s == [] then []
    else
      var d := Dedup(s[..|s| - 1]);
      assert forall x :: x in s <==> x in s[..|s| - 1] || x == s[|s| - 1] by {
        assert s == s[..|s| - 1] + [s[|s| - 1]];
      }
      if s[|s| - 1] in d then d else d + [s[|s| - 1]]
  }
  /** No element occurs twice. */
  predicate Distinct<T(==)>(s: seq<T>) {
    forall x :: x in s ==> multiset(s)[x] <= 1
  }

  /** Removing an element keeps a sequence free of duplicates. */
  lemma RemoveDistinct<T(!new)>(s: seq<T>, x: T)
    requires Distinct(s)
    ensures Distinct(Remove(s, x))
  {
  }

  /** Inserting one element anywhere adds exactly that element. */
  lemma SpliceInsertAny<T>(s: seq<T>, i: int, x: T)
    ensures multiset(Splice(s, i, 0, [x])) == multiset(s) + multiset{x}
  {
    var k := SpliceStart(|s|, i);
    assert s == s[..k] + s[k..];
  }

  /** Inserting an absent element keeps a sequence free of duplicates. */
  lemma InsertDistinct<T>(s: seq<T>, i: int, x: T)
    requires Distinct(s) && x !in s
    ensures Distinct(Splice(s, i, 0, [x]))
    ensures forall y :: y in Splice(s, i, 0, [x]) <==> y in s || y == x
  {
    SpliceInsertAny(s, i, x);
  }

  /** Appending an absent element keeps a sequence free of duplicates. */
  lemma AppendDistinct<T>(s: seq<T>, x: T)
    requires Distinct(s) && x !in s
    ensures Distinct(s + [x])
  {
    assert multiset(s + [x]) == multiset(s) + multiset{x};
  }
}
