/** LINQ Where and Distinct over sequences, with the order facts they promise. */
module Seqs {

  predicate NoDuplicates<T(==)>(s: seq<T>) {
    forall i, j :: 0 <= i < j < |s| ==> s[i] != s[j]
  }

  /** Position of the first occurrence of x in s. */
  function FirstIndex<T(==)>(s: seq<T>, x: T): (k: nat)
    requires x in s
    ensures k < |s| && s[k] == x
    ensures forall j :: 0 <= j < k ==> s[j] != x
  {
    if s[0] == x then 0 else 1 + FirstIndex(s[1..], x)
  }

  /** Elements of r appear in the order of their first occurrences in s. */
  predicate FirstOccurrenceOrder<T(==)>(s: seq<T>, r: seq<T>)
    requires forall i :: 0 <= i < |r| ==> r[i] in s
  {
    forall i, j :: 0 <= i < j < |r| ==> FirstIndex(s, r[i]) < FirstIndex(s, r[j])
  }

  lemma FirstIndexOfAppend<T>(s: seq<T>, t: seq<T>, x: T)
    requires x in s
    ensures FirstIndex(s + t, x) == FirstIndex(s, x)
  {
    var k := FirstIndex(s, x);
    assert (s + t)[k] == x;
    assert forall j :: 0 <= j < k ==> (s + t)[j] == s[j];
    FirstIndexUnique(s + t, x, k);
  }

  lemma FirstIndexUnique<T>(s: seq<T>, x: T, k: nat)
    requires k < |s| && s[k] == x && forall j :: 0 <= j < k ==> s[j] != x
    ensures FirstIndex(s, x) == k
  {
    var f := FirstIndex(s, x);
    assert !(f < k) && !(k < f);
  }

  /** The facts Distinct promises about r as the distinct elements of s. */
  predicate DistinctOf<T(==)>(s: seq<T>, r: seq<T>) {
    && NoDuplicates(r)
    && (forall i :: 0 <= i < |r| ==> r[i] in s)
    && (forall i :: 0 <= i < |s| ==> s[i] in r)
    && FirstOccurrenceOrder(s, r)
  }

  /** Appending x to s: the distinct list gains x at its end unless it already holds it. */
  lemma DistinctSnoc<T>(init: seq<T>, x: T, d: seq<T>)
    requires DistinctOf(init, d)
    ensures DistinctOf(init + [x], if x in d then d else d + [x])
  {
    if x in d {
      DistinctSnocPresent(init, x, d);
    } else {
      DistinctSnocAbsent(init, x, d);
    }
  }

  /** Appending keeps the first occurrence of everything already present. */
  lemma FirstIndicesKept<T>(init: seq<T>, x: T, d: seq<T>)
    requires forall i :: 0 <= i < |d| ==> d[i] in init
    ensures forall i :: 0 <= i < |d| ==> FirstIndex(init + [x], d[i]) == FirstIndex(init, d[i])
  {
    forall i | 0 <= i < |d| ensures FirstIndex(init + [x], d[i]) == FirstIndex(init, d[i]) {
      FirstIndexOfAppend(init, [x], d[i]);
    }
  }

  lemma DistinctSnocPresent<T>(init: seq<T>, x: T, d: seq<T>)
    requires DistinctOf(init, d) && x in d
    ensures DistinctOf(init + [x], d)
  {
    var s := init + [x];
    assert forall i :: 0 <= i < |init| ==> s[i] == init[i];
    FirstIndicesKept(init, x, d);
    assert forall i :: 0 <= i < |d| ==> d[i] in s;
    assert forall i :: 0 <= i < |s| ==> s[i] in d by {
      forall i | 0 <= i < |s| ensures s[i] in d {
        if i < |init| {
          assert s[i] == init[i];
        }
      }
    }
  }

  lemma DistinctSnocAbsent<T>(init: seq<T>, x: T, d: seq<T>)
    requires DistinctOf(init, d) && x !in d
    ensures DistinctOf(init + [x], d + [x])
  {
    var s := init + [x];
    var r := d + [x];
    assert forall i :: 0 <= i < |init| ==> s[i] == init[i];
    assert forall i :: 0 <= i < |d| ==> r[i] == d[i];
    assert x !in init;
    FirstIndicesKept(init, x, d);
    FirstIndexUnique(s, x, |s| - 1);
    assert NoDuplicates(r);
    assert forall i :: 0 <= i < |r| ==> r[i] in s;
    assert forall i :: 0 <= i < |s| ==> s[i] in r by {
      forall i | 0 <= i < |s| ensures s[i] in r {
        if i < |init| {
          assert s[i] == init[i];
        }
      }
    }
    assert FirstOccurrenceOrder(s, r) by {
      forall i, j | 0 <= i < j < |r| ensures FirstIndex(s, r[i]) < FirstIndex(s, r[j]) {
        assert FirstIndex(s, r[i]) == FirstIndex(init, d[i]);
        if j < |d| {
          assert FirstIndex(s, r[j]) == FirstIndex(init, d[j]);
        }
      }
    }
  }

  /**
   * Enumerable.Distinct: keeps the first occurrence of each element. The
   * result has no duplicates, holds exactly the elements of s, and lists
   * them in the order of their first occurrences.
   */
  function Distinct<T(==)>(s: seq<T>): (r: seq<T>)
    ensures NoDuplicates(r)
    ensures forall i :: 0 <= i < |r| ==> r[i] in s
    ensures forall i :: 0 <= i < |s| ==> s[i] in r
    ensures FirstOccurrenceOrder(s, r)
  {
    if s == [] then []
    else
      var init := s[..|s| - 1];
      var x := s[|s| - 1];
      var d := Distinct(init);
      assert s == init + [x];
      DistinctSnoc(init, x, d);
      if x in d then d else d + [x]
  }

  /** Enumerable.Where: the elements that satisfy keep, in order. */
  function Where<T>(s: seq<T>, keep: T -> bool): (r: seq<T>)
    ensures |r| <= |s|
    ensures forall i :: 0 <= i < |r| ==> r[i] in s && keep(r[i])
    ensures forall i :: 0 <= i < |s| && keep(s[i]) ==> s[i] in r
  {
    if s == [] then []
    else if keep(s[0]) then [s[0]] + Where(s[1..], keep)
    else Where(s[1..], keep)
  }

  /** Filtering keeps the relative order of first occurrences. */
  lemma {:induction false} WhereKeepsOrder<T>(s: seq<T>, keep: T -> bool, x: T, y: T)
    requires x in Where(s, keep) && y in Where(s, keep)
    requires FirstIndex(Where(s, keep), x) < FirstIndex(Where(s, keep), y)
    ensures FirstIndex(s, x) < FirstIndex(s, y)
  {
    var w := Where(s, keep);
    if keep(s[0]) {
      assert w == [s[0]] + Where(s[1..], keep);
      if x != s[0] {
        assert y != s[0];
        WhereKeepsOrder(s[1..], keep, x, y);
      }
    } else {
      assert x != s[0] && y != s[0];
      WhereKeepsOrder(s[1..], keep, x, y);
    }
  }

  /** Distinct(Where(s, keep)) lists the kept elements in their first-occurrence order in s. */
  lemma DistinctWhereOrder<T>(s: seq<T>, keep: T -> bool)
    ensures FirstOccurrenceOrder(s, Distinct(Where(s, keep)))
  {
    var w := Where(s, keep);
    var d := Distinct(w);
    forall i, j | 0 <= i < j < |d| ensures FirstIndex(s, d[i]) < FirstIndex(s, d[j]) {
      WhereKeepsOrder(s, keep, d[i], d[j]);
    }
  }
}
