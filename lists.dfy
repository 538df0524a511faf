/**
 * The Python list operations the group engine uses on its member list
 * (`index`, `remove`, `insert` at an end, and the exchange of two neighbours)
 * as functions on sequences, each with the facts the engine relies on.
 */
module Lists {

  /** The elements at positions `i` and `j` differ. */
  predicate Apart<T(==)>(s: seq<T>, i: nat, j: nat)
    requires i < |s| && j < |s|
  {
    s[i] != s[j]
  }

  /** No element occurs twice. */
  predicate Distinct<T(==)>(s: seq<T>)
  {
    forall i, j :: 0 <= i < j < |s| ==> Apart(s, i, j)
  }

  /** In a sequence without repetitions, elements at different positions differ. */
  lemma DistinctApart<T>(s: seq<T>)
    requires Distinct(s)
    ensures forall i, j :: 0 <= i < |s| && 0 <= j < |s| && i != j ==> s[i] != s[j]
  {
    forall i, j | 0 <= i < |s| && 0 <= j < |s| && i != j
      ensures s[i] != s[j]
    {
      if i < j {
        assert Apart(s, i, j);
      } else {
        assert Apart(s, j, i);
      }
    }
  }

  /** Two positions of a sequence without repetitions hold different elements. */
  lemma DistinctPair<T>(s: seq<T>, i: nat, j: nat)
    requires i < |s| && j < |s| && i != j
    ensures Distinct(s) ==> s[i] != s[j]
  {
    if Distinct(s) {
      if i < j {
        assert Apart(s, i, j);
      } else {
        assert Apart(s, j, i);
      }
    }
  }

  /** Attaching an absent element at either end keeps a sequence free of repetitions. */
  lemma DistinctAttach<T>(s: seq<T>, x: T)
    requires Distinct(s) && x !in s
    ensures Distinct([x] + s) && Distinct(s + [x])
  {
    DistinctApart(s);
    var l, r := [x] + s, s + [x];
    forall i, j | 0 <= i < j < |l|
      ensures Apart(l, i, j) && Apart(r, i, j)
    {
      assert l[j] == s[j - 1];
      if i > 0 {
        assert l[i] == s[i - 1];
      }
      if j < |s| {
        assert r[j] == s[j];
      }
    }
  }

  /** `list.index`: the position of the first occurrence of `x`. */
  function IndexOf<T(==)>(s: seq<T>, x: T): (i: nat)
    requires x in s
    ensures i < |s| && s[i] == x
    ensures forall j :: 0 <= j < i ==> s[j] != x
  {
    if s[0] == x then 0
    else
      assert s == [s[0]] + s[1..];
      1 + IndexOf(s[1..], x)
  }

  /** In a sequence without repetitions the index of an element is its only position. */
  lemma IndexOfDistinct<T>(s: seq<T>, k: nat)
    requires Distinct(s) && k < |s|
    ensures IndexOf(s, s[k]) == k
  {
    DistinctApart(s);
  }

  /** `list.remove`: drops the first occurrence of `x`, if any, scanning from the front. */
  function RemoveFirst<T(==)>(s: seq<T>, x: T): (r: seq<T>)
    ensures |r| == if x in s then |s| - 1 else |s|
    ensures forall y :: y in r ==> y in s
  {
    if s == [] then []
    else if s[0] == x then s[1..]
    else [s[0]] + RemoveFirst(s[1..], x)
  }

  /**
   * Removing leaves every other element in place and in order: the result is
   * the sequence cut around the first occurrence, or the sequence itself when
   * the element is absent.
   */
  lemma RemoveFirstIsSplice<T>(s: seq<T>, x: T)
    ensures x !in s ==> RemoveFirst(s, x) == s
    ensures x in s ==> RemoveFirst(s, x) == s[..IndexOf(s, x)] + s[IndexOf(s, x) + 1..]
  {
    if x in s {
      RemoveFirstAt(s, IndexOf(s, x));
    } else {
      RemoveFirstAbsent(s, x);
    }
  }

  /** Removing the element at `i`, when it does not occur earlier, cuts the sequence around `i`. */
  lemma {:induction false} RemoveFirstAt<T>(s: seq<T>, i: nat)
    requires i < |s| && forall j :: 0 <= j < i ==> s[j] != s[i]
    ensures RemoveFirst(s, s[i]) == s[..i] + s[i + 1..]
  {
    if i > 0 {
      var t := s[1..];
      assert t[i - 1] == s[i];
      RemoveFirstAt(t, i - 1);
      assert s[..i] == [s[0]] + t[..i - 1];
      assert s[i + 1..] == t[i..];
    }
  }

  /** Removing an absent element changes nothing. */
  lemma {:induction false} RemoveFirstAbsent<T>(s: seq<T>, x: T)
    requires x !in s
    ensures RemoveFirst(s, x) == s
  {
    if s != [] {
      assert s == [s[0]] + s[1..];
      RemoveFirstAbsent(s[1..], x);
    }
  }

  /** In a sequence without repetitions removal takes the element out entirely and nothing else. */
  lemma RemoveFirstOfDistinct<T>(s: seq<T>, x: T)
    requires Distinct(s)
    ensures Distinct(RemoveFirst(s, x))
    ensures forall y :: y in RemoveFirst(s, x) <==> y in s && y != x
  {
    RemoveFirstIsSplice(s, x);
    if x in s {
      var i := IndexOf(s, x);
      var r := RemoveFirst(s, x);
      forall k | 0 <= k < |r|
        ensures r[k] == s[if k < i then k else k + 1]
      {
      }
      forall a, b | 0 <= a < b < |r|
        ensures Apart(r, a, b)
      {
        DistinctPair(s, if a < i then a else a + 1, if b < i then b else b + 1);
      }
      forall y
        ensures y in r <==> y in s && y != x
      {
        if y in s && y != x {
          var k :| 0 <= k < |s| && s[k] == y;
          if k < i {
            assert r[k] == y;
          } else {
            assert k != i;
            assert r[k - 1] == y;
          }
        }
        if y in r {
          var k :| 0 <= k < |r| && r[k] == y;
          DistinctPair(s, if k < i then k else k + 1, i);
        }
      }
    }
  }

  /** Attaching at either end and then removing gives back the original list. */
  lemma AttachThenRemove<T>(s: seq<T>, x: T)
    requires x !in s
    ensures RemoveFirst([x] + s, x) == s
    ensures RemoveFirst(s + [x], x) == s
  {
    RemoveFirstIsSplice(s + [x], x);
    assert IndexOf(s + [x], x) == |s|;
    assert (s + [x])[..|s|] == s;
  }

  /** The list with the elements at `i` and `j` exchanged. */
  function Swapped<T>(s: seq<T>, i: nat, j: nat): (r: seq<T>)
    requires i < |s| && j < |s|
    ensures |r| == |s| && r[i] == s[j] && r[j] == s[i]
    ensures forall k :: 0 <= k < |s| && k != i && k != j ==> r[k] == s[k]
  {
    s[i := s[j]][j := s[i]]
  }

  /** Exchanging two elements is its own inverse and keeps the same elements. */
  lemma SwappedBack<T>(s: seq<T>, i: nat, j: nat)
    requires i < |s| && j < |s|
    ensures Swapped(Swapped(s, i, j), i, j) == s
    ensures multiset(Swapped(s, i, j)) == multiset(s)
  {
    var r := Swapped(Swapped(s, i, j), i, j);
    assert forall k :: 0 <= k < |s| ==> r[k] == s[k];
  }

  /** Exchanging two neighbours is cutting the list around them and putting them back the other way round. */
  lemma SwappedAround<T>(s: seq<T>, i: nat, j: nat)
    requires i < |s| && j < |s| && (j == i + 1 || i == j + 1)
    ensures var lo := if i < j then i else j;
      && s == s[..lo] + [s[lo], s[lo + 1]] + s[lo + 2..]
      && Swapped(s, i, j) == s[..lo] + [s[lo + 1], s[lo]] + s[lo + 2..]
  {
    var lo := if i < j then i else j;
    assert s == s[..lo] + [s[lo], s[lo + 1]] + s[lo + 2..];
    var r := s[..lo] + [s[lo + 1], s[lo]] + s[lo + 2..];
    assert forall k :: 0 <= k < |s| ==> Swapped(s, i, j)[k] == r[k];
  }

  /** Exchanging two elements keeps a sequence free of repetitions. */
  lemma SwappedDistinct<T>(s: seq<T>, i: nat, j: nat)
    requires i < |s| && j < |s| && Distinct(s)
    ensures Distinct(Swapped(s, i, j))
  {
    DistinctApart(s);
    var r := Swapped(s, i, j);
    forall a, b | 0 <= a < b < |r|
      ensures r[a] != r[b]
    {
      var a' := if a == i then j else if a == j then i else a;
      var b' := if b == i then j else if b == j then i else b;
      assert r[a] == s[a'] && r[b] == s[b'];
    }
  }

  /** `list.insert(i, x)`: `x` placed before the element at `i`. */
  function Insert<T>(s: seq<T>, i: nat, x: T): (r: seq<T>)
    requires i <= |s|
    ensures |r| == |s| + 1 && r[i] == x
    ensures forall k :: 0 <= k < i ==> r[k] == s[k]
    ensures forall k :: i < k <= |s| ==> r[k] == s[k - 1]
  {
    s[..i] + [x] + s[i..]
  }

  /**
   * Removing the element at `i` and inserting it again one place to the left
   * or to the right exchanges it with that neighbour.
   */
  lemma {:induction false} MoveOneSlot<T>(s: seq<T>, i: nat, j: nat)
    requires i < |s| && j < |s| && (j + 1 == i || j == i + 1)
    requires IndexOf(s, s[i]) == i
    ensures Insert(RemoveFirst(s, s[i]), j, s[i]) == Swapped(s, i, j)
  {
    RemoveFirstIsSplice(s, s[i]);
    var r := RemoveFirst(s, s[i]);
    assert r == s[..i] + s[i + 1..];
    var a := Insert(r, j, s[i]);
    var b := Swapped(s, i, j);
    forall k | 0 <= k < |s|
      ensures a[k] == b[k]
    {
      if k < j && k < i {
        assert a[k] == r[k] == s[k];
      } else if k > j && k > i {
        assert a[k] == r[k - 1] == s[k];
      } else if k == i && j < i {
        assert a[k] == r[k - 1] == s[j];
      } else if k == i {
        assert a[k] == r[k] == s[j];
      }
    }
  }
}
