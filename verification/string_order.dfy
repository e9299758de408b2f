/**
 * The order JavaScript's default `Array.prototype.sort` uses for strings: element by
 * element on code units, a proper prefix before its extensions. A `char` here stands for
 * one UTF-16 code unit. The sort itself is a host built-in whose algorithm is not given;
 * it is modelled by insertion sort, and `SortedUnique` shows that every algorithm that
 * returns a sorted permutation returns the same list.
 */
module StringOrder {

  /** `a <= b` for JavaScript strings. */
  predicate LessEq(a: string, b: string) {
    |a| == 0 || (|b| > 0 && (a[0] < b[0] || (a[0] == b[0] && LessEq(a[1..], b[1..]))))
  }

  lemma {:induction false} LessEqReflexive(a: string)
    ensures LessEq(a, a)
  {
    if |a| > 0 {
      LessEqReflexive(a[1..]);
    }
  }

  lemma {:induction false} LessEqTotal(a: string, b: string)
    ensures LessEq(a, b) || LessEq(b, a)
  {
    if |a| > 0 && |b| > 0 && a[0] == b[0] {
      LessEqTotal(a[1..], b[1..]);
    }
  }

  lemma {:induction false} LessEqAntisymmetric(a: string, b: string)
    requires LessEq(a, b) && LessEq(b, a)
    ensures a == b
  {
    if |a| > 0 {
      LessEqAntisymmetric(a[1..], b[1..]);
      assert a == [a[0]] + a[1..] && b == [b[0]] + b[1..];
    }
  }

  lemma {:induction false} LessEqTransitive(a: string, b: string, c: string)
    requires LessEq(a, b) && LessEq(b, c)
    ensures LessEq(a, c)
  {
    if |a| > 0 && a[0] == b[0] && b[0] == c[0] {
      LessEqTransitive(a[1..], b[1..], c[1..]);
    }
  }

  /** Ascending order of a whole list. */
  predicate Sorted(s: seq<string>) {
    forall i, j :: 0 <= i < j < |s| ==> LessEq(s[i], s[j])
  }

  /** Every element occurs exactly once. */
  predicate NoDuplicates(s: seq<string>) {
    forall x :: x in multiset(s) ==> multiset(s)[x] == 1
  }

  /** A string below every element of a sorted list can be put in front of it. */
  lemma ConsSorted(y: string, t: seq<string>)
    requires Sorted(t)
    requires forall z :: z in multiset(t) ==> LessEq(y, z)
    ensures Sorted([y] + t)
  {
    assert forall k :: 0 <= k < |t| ==> t[k] in multiset(t);
  }

  /** The head of a sorted list is below its tail and below anything not below it. */
  lemma HeadBoundsInsertion(s: seq<string>, x: string)
    requires Sorted(s) && s != [] && !LessEq(x, s[0])
    ensures forall z :: z in multiset(s[1..]) + multiset{x} ==> LessEq(s[0], z)
  {
    forall z | z in multiset(s[1..]) + multiset{x} ensures LessEq(s[0], z) {
      if z == x {
        LessEqTotal(x, s[0]);
      } else {
        assert z in s[1..];
        var k :| 0 <= k < |s[1..]| && s[1..][k] == z;
        assert s[k + 1] == z;
      }
    }
  }

  /** The first element of a sorted list, when it is not below `x`, leaves `x` below the whole list. */
  lemma InsertInFront(x: string, s: seq<string>)
    requires Sorted(s) && s != [] && LessEq(x, s[0])
    ensures forall z :: z in multiset(s) ==> LessEq(x, z)
  {
    forall z | z in multiset(s) ensures LessEq(x, z) {
      var k :| 0 <= k < |s| && s[k] == z;
      if k > 0 { LessEqTransitive(x, s[0], s[k]); }
    }
  }

  /** Inserts `x` into a sorted list. */
  function Insert(x: string, s: seq<string>): (r: seq<string>)
    requires Sorted(s)
    ensures Sorted(r)
    ensures multiset(r) == multiset(s) + multiset{x}
  {
    if s == [] then [x]
    else if LessEq(x, s[0]) then
      InsertInFront(x, s);
      ConsSorted(x, s);
      [x] + s
    else
      var t := Insert(x, s[1..]);
      HeadBoundsInsertion(s, x);
      ConsSorted(s[0], t);
      assert s == [s[0]] + s[1..];
      [s[0]] + t
  }

  /** `keys.sort()` on a list of strings. */
  function SortStrings(s: seq<string>): (r: seq<string>)
    ensures Sorted(r)
    ensures multiset(r) == multiset(s)
  {
    if s == [] then []
    else
      assert s == [s[0]] + s[1..];
      Insert(s[0], SortStrings(s[1..]))
  }

  /** Sorting neither adds nor drops a string. */
  lemma SortKeepsMembers(s: seq<string>)
    ensures forall k :: k in SortStrings(s) <==> k in s
  {
    var r := SortStrings(s);
    forall k ensures k in r <==> k in s {
      assert k in r <==> k in multiset(r);
      assert k in s <==> k in multiset(s);
    }
  }

  /** The least element of a sorted list is below every element. */
  lemma {:induction false} SortedHeadIsLeast(s: seq<string>, x: string)
    requires Sorted(s) && x in s
    ensures LessEq(s[0], x)
  {
    var k :| 0 <= k < |s| && s[k] == x;
    if k == 0 {
      LessEqReflexive(x);
    }
  }

  /** Two non-empty sorted lists with the same strings start with the same string. */
  lemma SortedSameHead(a: seq<string>, b: seq<string>)
    requires Sorted(a) && Sorted(b) && a != []
    requires multiset(a) == multiset(b)
    ensures b != [] && a[0] == b[0]
  {
    assert a[0] in multiset(b);
    assert b[0] in multiset(a);
    SortedHeadIsLeast(a, b[0]);
    SortedHeadIsLeast(b, a[0]);
    LessEqAntisymmetric(a[0], b[0]);
  }

  /** The tail of a list holds its strings less one copy of the head. */
  lemma TailMultiset(a: seq<string>)
    requires a != []
    ensures multiset(a[1..]) == multiset(a) - multiset{a[0]}
  {
    assert a == [a[0]] + a[1..];
  }

  /** Two sorted lists holding the same strings the same number of times are equal. */
  lemma {:induction false} SortedUnique(a: seq<string>, b: seq<string>)
    requires Sorted(a) && Sorted(b)
    requires multiset(a) == multiset(b)
    ensures a == b
  {
    if a != [] {
      SortedSameHead(a, b);
      TailMultiset(a);
      TailMultiset(b);
      SortedUnique(a[1..], b[1..]);
      assert a == [a[0]] + a[1..] && b == [b[0]] + b[1..];
    } else {
      assert |b| == |multiset(b)| == 0;
    }
  }
}
