/** Python's `list.sort(key=...)`: a stable sort by a key. It is modelled as
    insertion sort under a total preorder `le` ("key of a <= key of b");
    a stable sort's result is unique, so any stable sort agrees with it. */
module Sorting {

  /** `le` is total and transitive: comparing keys of a sort. */
  ghost predicate IsTotalPreorder<T(!new)>(le: (T, T) -> bool)
  {
    && (forall a, b :: le(a, b) || le(b, a))
    && (forall a, b, c :: le(a, b) && le(b, c) ==> le(a, c))
  }

  /** Every element is `le` every later one. */
  predicate Sorted<T>(s: seq<T>, le: (T, T) -> bool)
  {
    forall i, j :: 0 <= i < j < |s| ==> le(s[i], s[j])
  }

  /** Insert `x` after the leading elements not above it, so that among
      equal keys it comes last. */
  function Insert<T>(s: seq<T>, x: T, le: (T, T) -> bool): (r: seq<T>)
    ensures multiset(r) == multiset(s) + multiset{x}
  {
    if s == [] then [x]
    else if le(s[0], x) then
      assert s == [s[0]] + s[1..];
      [s[0]] + Insert(s[1..], x, le)
    else [x] + s
  }

  /** The sorted copy: each element in turn inserted into the sorted prefix. */
  function SortSeq<T>(s: seq<T>, le: (T, T) -> bool): (r: seq<T>)
    ensures multiset(r) == multiset(s)
  {
    if s == [] then []
    else
      assert s == s[..|s| - 1] + [s[|s| - 1]];
      Insert(SortSeq(s[..|s| - 1], le), s[|s| - 1], le)
  }

  lemma {:induction false} InsertSorted<T(!new)>(s: seq<T>, x: T, le: (T, T) -> bool)
    requires IsTotalPreorder(le) && Sorted(s, le)
    ensures Sorted(Insert(s, x, le), le)
    decreases |s|
  {
    if s != [] && le(s[0], x) {
      SortedTail(s, le);
      InsertSorted(s[1..], x, le);
      var t := Insert(s[1..], x, le);
      InsertStaysAbove(s, x, le);
      ConsSorted(s[0], t, le);
    } else if s != [] {
      assert le(x, s[0]);
      forall y | y in s ensures le(x, y) {
        var k :| 0 <= k < |s| && s[k] == y;
        if k > 0 {
          assert le(s[0], s[k]);
        }
      }
      ConsSorted(x, s, le);
    }
  }

  /** What is inserted behind the head stays at or above the head. */
  lemma InsertStaysAbove<T>(s: seq<T>, x: T, le: (T, T) -> bool)
    requires s != [] && Sorted(s, le) && le(s[0], x)
    ensures forall y :: y in Insert(s[1..], x, le) ==> le(s[0], y)
  {
    forall y | y in Insert(s[1..], x, le) ensures le(s[0], y) {
      assert y in multiset(Insert(s[1..], x, le));
      if y != x {
        assert y in multiset(s[1..]);
        var k :| 0 <= k < |s[1..]| && s[1..][k] == y;
        assert s[k + 1] == y;
      }
    }
  }

  lemma ConsSorted<T>(a: T, t: seq<T>, le: (T, T) -> bool)
    requires Sorted(t, le) && forall y :: y in t ==> le(a, y)
    ensures Sorted([a] + t, le)
  {
    var r := [a] + t;
    forall i, j | 0 <= i < j < |r| ensures le(r[i], r[j]) {
      assert r[j] == t[j - 1];
      if i > 0 {
        assert r[i] == t[i - 1];
      }
    }
  }

  /** The sorted copy is sorted. */
  lemma {:induction false} SortSeqSorted<T(!new)>(s: seq<T>, le: (T, T) -> bool)
    requires IsTotalPreorder(le)
    ensures Sorted(SortSeq(s, le), le)
    decreases |s|
  {
    if s != [] {
      SortSeqSorted(s[..|s| - 1], le);
      InsertSorted(SortSeq(s[..|s| - 1], le), s[|s| - 1], le);
    }
  }

  /** The sorted copy holds exactly the elements of the input. */
  lemma SortSeqSameElements<T>(s: seq<T>, le: (T, T) -> bool, x: T)
    ensures x in SortSeq(s, le) <==> x in s
  {
    assert x in SortSeq(s, le) <==> x in multiset(SortSeq(s, le));
  }

  lemma SortedTail<T>(s: seq<T>, le: (T, T) -> bool)
    requires s != [] && Sorted(s, le)
    ensures Sorted(s[1..], le)
  {
    forall i, j | 0 <= i < j < |s| - 1 ensures le(s[1..][i], s[1..][j]) {
      assert s[1..][i] == s[i + 1] && s[1..][j] == s[j + 1];
    }
  }

  /** Two sorted sequences with the same elements are equal when `le`
      never ties two different elements: the order is then forced. */
  lemma {:induction false} SortedUnique<T>(a: seq<T>, b: seq<T>, le: (T, T) -> bool)
    requires Sorted(a, le) && Sorted(b, le)
    requires multiset(a) == multiset(b)
    requires forall x, y :: x in a && y in a && le(x, y) && le(y, x) ==> x == y
    ensures a == b
    decreases |a|
  {
    if a == [] {
      assert |multiset(b)| == |b|;
    } else {
      SortedSameHead(a, b, le);
      DropHead(a, b);
      SortedTail(a, le);
      SortedTail(b, le);
      assert forall x :: x in a[1..] ==> x in a;
      SortedUnique(a[1..], b[1..], le);
      assert a == [a[0]] + a[1..];
      assert b == [b[0]] + b[1..];
    }
  }

  /** The least element comes first in both. */
  lemma SortedSameHead<T>(a: seq<T>, b: seq<T>, le: (T, T) -> bool)
    requires a != [] && Sorted(a, le) && Sorted(b, le)
    requires multiset(a) == multiset(b)
    requires forall x, y :: x in a && y in a && le(x, y) && le(y, x) ==> x == y
    ensures b != [] && a[0] == b[0]
  {
    assert a[0] in multiset(b);
    assert b[0] in multiset(a);
    var i :| 0 <= i < |b| && b[i] == a[0];
    var j :| 0 <= j < |a| && a[j] == b[0];
    if i > 0 && j > 0 {
      assert le(b[0], b[i]);
      assert le(a[0], a[j]);
    }
  }

  lemma DropHead<T>(a: seq<T>, b: seq<T>)
    requires a != [] && b != [] && a[0] == b[0]
    requires multiset(a) == multiset(b)
    ensures multiset(a[1..]) == multiset(b[1..])
  {
    assert a == [a[0]] + a[1..];
    assert b == [b[0]] + b[1..];
    assert multiset(a) == multiset{a[0]} + multiset(a[1..]);
    assert multiset(b) == multiset{b[0]} + multiset(b[1..]);
    assert multiset(a[1..]) == multiset(a) - multiset{a[0]};
    assert multiset(b[1..]) == multiset(b) - multiset{b[0]};
  }

  /** `a` and `b` have equal keys. */
  predicate Tied<T>(le: (T, T) -> bool, a: T, b: T)
  {
    le(a, b) && le(b, a)
  }

  /** The elements of `s` whose key equals that of `x`, in their order in `s`. */
  function TiesOf<T>(s: seq<T>, x: T, le: (T, T) -> bool): seq<T>
  {
    if s == [] then []
    else (if Tied(le, x, s[0]) then [s[0]] else []) + TiesOf(s[1..], x, le)
  }

  lemma {:induction false} TiesOfAppend<T>(a: seq<T>, b: seq<T>, x: T, le: (T, T) -> bool)
    ensures TiesOf(a + b, x, le) == TiesOf(a, x, le) + TiesOf(b, x, le)
    decreases |a|
  {
    if a != [] {
      assert (a + b)[1..] == a[1..] + b;
      TiesOfAppend(a[1..], b, x, le);
    } else {
      assert a + b == b;
    }
  }

  /** Inserting into a sorted sequence puts the new element behind every
      element with the same key. */
  lemma {:induction false} InsertTies<T(!new)>(s: seq<T>, y: T, x: T, le: (T, T) -> bool)
    requires IsTotalPreorder(le) && Sorted(s, le)
    ensures TiesOf(Insert(s, y, le), x, le) == TiesOf(s, x, le) + TiesOf([y], x, le)
    decreases |s|
  {
    if s == [] {
    } else if le(s[0], y) {
      SortedTail(s, le);
      InsertTies(s[1..], y, x, le);
      InsertTiesBehind(s, y, x, le);
    } else {
      InsertTiesFront(s, y, x, le);
    }
  }

  lemma InsertTiesBehind<T>(s: seq<T>, y: T, x: T, le: (T, T) -> bool)
    requires s != [] && le(s[0], y)
    requires TiesOf(Insert(s[1..], y, le), x, le) == TiesOf(s[1..], x, le) + TiesOf([y], x, le)
    ensures TiesOf(Insert(s, y, le), x, le) == TiesOf(s, x, le) + TiesOf([y], x, le)
  {
    var t := Insert(s[1..], y, le);
    var h := if Tied(le, x, s[0]) then [s[0]] else [];
    var u := [s[0]] + t;
    assert Insert(s, y, le) == u;
    assert u[1..] == t && u[0] == s[0];
    assert TiesOf(u, x, le) == h + TiesOf(t, x, le);
    assert TiesOf(s, x, le) == h + TiesOf(s[1..], x, le);
    SeqAssoc(h, TiesOf(s[1..], x, le), TiesOf([y], x, le));
  }

  lemma SeqAssoc<T>(a: seq<T>, b: seq<T>, c: seq<T>)
    ensures a + (b + c) == (a + b) + c
  {
  }

  lemma InsertTiesFront<T(!new)>(s: seq<T>, y: T, x: T, le: (T, T) -> bool)
    requires IsTotalPreorder(le) && Sorted(s, le)
    requires s != [] && !le(s[0], y)
    ensures TiesOf(Insert(s, y, le), x, le) == TiesOf(s, x, le) + TiesOf([y], x, le)
  {
    assert Insert(s, y, le) == [y] + s;
    assert ([y] + s)[1..] == s;
    assert [y][1..] == [];
    if Tied(le, x, y) {
      NoTiesAbove(s, y, x, le);
    }
  }

  /** When the head of a sorted sequence is above `y`, no element ties
      with `y`. */
  lemma {:induction false} NoTiesAbove<T(!new)>(s: seq<T>, y: T, x: T, le: (T, T) -> bool)
    requires IsTotalPreorder(le) && Sorted(s, le)
    requires s != [] && !le(s[0], y) && Tied(le, x, y)
    ensures TiesOf(s, x, le) == []
  {
    assert forall k :: 0 <= k < |s| ==> le(s[0], s[k]);
    NoTiesNone(s, x, le);
  }

  lemma {:induction false} NoTiesNone<T>(s: seq<T>, x: T, le: (T, T) -> bool)
    requires forall k :: 0 <= k < |s| ==> !Tied(le, x, s[k])
    ensures TiesOf(s, x, le) == []
    decreases |s|
  {
    if s != [] {
      assert forall k :: 0 <= k < |s[1..]| ==> s[1..][k] == s[k + 1];
      NoTiesNone(s[1..], x, le);
    }
  }

  /** The sort is stable: elements with equal keys keep their input order. */
  lemma {:induction false} SortSeqStable<T(!new)>(s: seq<T>, x: T, le: (T, T) -> bool)
    requires IsTotalPreorder(le)
    ensures TiesOf(SortSeq(s, le), x, le) == TiesOf(s, x, le)
    decreases |s|
  {
    if s != [] {
      var init, last := s[..|s| - 1], s[|s| - 1];
      var sorted := SortSeq(init, le);
      SortSeqSnoc(s, le);
      SortSeqStable(init, x, le);
      SortSeqSorted(init, le);
      InsertTies(sorted, last, x, le);
      TiesOfAppend(init, [last], x, le);
      assert init + [last] == s;
    }
  }

  lemma SortSeqSnoc<T>(s: seq<T>, le: (T, T) -> bool)
    requires s != []
    ensures SortSeq(s, le) == Insert(SortSeq(s[..|s| - 1], le), s[|s| - 1], le)
  {
  }

  /** A stable sort's result is unique: two sorted permutations that keep
      every group of tied elements in the same order are equal. */
  lemma {:induction false} StableSortUnique<T(!new)>(a: seq<T>, b: seq<T>, le: (T, T) -> bool)
    requires IsTotalPreorder(le)
    requires Sorted(a, le) && Sorted(b, le)
    requires multiset(a) == multiset(b)
    requires forall x :: TiesOf(a, x, le) == TiesOf(b, x, le)
    ensures a == b
    decreases |a|
  {
    if a == [] {
      assert |multiset(b)| == |b|;
    } else {
      assert a[0] in multiset(b);
      assert b != [] && b[0] in multiset(a);
      var i :| 0 <= i < |b| && b[i] == a[0];
      var j :| 0 <= j < |a| && a[j] == b[0];
      assert le(b[0], a[0]) by { if i > 0 { assert le(b[0], b[i]); } }
      assert le(a[0], b[0]) by { if j > 0 { assert le(a[0], a[j]); } }
      var x := a[0];
      assert TiesOf(a, x, le)[0] == a[0];
      assert TiesOf(b, x, le)[0] == b[0];
      DropHead(a, b);
      SortedTail(a, le);
      SortedTail(b, le);
      assert a[0] == b[0];
      forall y ensures TiesOf(a[1..], y, le) == TiesOf(b[1..], y, le) {
        var h := if Tied(le, y, a[0]) then [a[0]] else [];
        var ta, tb := TiesOf(a[1..], y, le), TiesOf(b[1..], y, le);
        assert TiesOf(a, y, le) == h + ta == h + tb;
        assert (h + ta)[|h|..] == ta && (h + tb)[|h|..] == tb;
      }
      StableSortUnique(a[1..], b[1..], le);
      assert a == [a[0]] + a[1..];
      assert b == [b[0]] + b[1..];
    }
  }
}
