/** A stable sort in descending order of an integer key, as
    `array.sort((a, b) => key(b) - key(a))` behaves in an engine whose sort is
    stable. The specification is a back-scanning insertion sort on sequences;
    the lemmas show that it sorts, is stable, permutes, and is the only
    sequence that does all of these, so that any stable sort by the same key
    returns it. */
module StableSort {

  predicate SortedDesc<T>(s: seq<T>, key: T -> int) {
    forall i, j :: 0 <= i < j < |s| ==> key(s[i]) >= key(s[j])
  }

  /** The elements of `s` whose key is `t`, in order. A sort is stable exactly
      when it keeps each of these subsequences. */
  function Group<T>(s: seq<T>, key: T -> int, t: int): seq<T> {
    if s == [] then []
    else Group(s[..|s| - 1], key, t) + Single(s[|s| - 1], key, t)
  }

  function Single<T>(x: T, key: T -> int, t: int): seq<T> {
    if key(x) == t then [x] else []
  }

  lemma GroupSnoc<T>(s: seq<T>, x: T, key: T -> int, t: int)
    ensures Group(s + [x], key, t) == Group(s, key, t) + Single(x, key, t)
  {
    assert (s + [x])[..|s|] == s;
  }

  lemma {:induction false} GroupMember<T>(s: seq<T>, key: T -> int, t: int, x: T)
    ensures x in Group(s, key, t) <==> x in s && key(x) == t
  {
    if s != [] {
      GroupMember(s[..|s| - 1], key, t, x);
      assert s == s[..|s| - 1] + [s[|s| - 1]];
    }
  }

  /** Inserts `x` after the last element whose key is at least `x`'s,
      scanning from the back as an insertion sort does. */
  function Insert<T>(sorted: seq<T>, x: T, key: T -> int): (r: seq<T>)
    ensures |r| == |sorted| + 1
  {
    if sorted == [] then [x]
    else
      var last := sorted[|sorted| - 1];
      var init := sorted[..|sorted| - 1];
      if key(last) < key(x) then Insert(init, x, key) + [last] else sorted + [x]
  }

  /** The stable sort, descending by key. */
  function SortDesc<T>(s: seq<T>, key: T -> int): (r: seq<T>)
    ensures |r| == |s|
  {
    if s == [] then []
    else Insert(SortDesc(s[..|s| - 1], key), s[|s| - 1], key)
  }

  lemma {:induction false} InsertPermutation<T>(sorted: seq<T>, x: T, key: T -> int)
    ensures multiset(Insert(sorted, x, key)) == multiset(sorted) + multiset{x}
  {
    if sorted != [] {
      var last := sorted[|sorted| - 1];
      var init := sorted[..|sorted| - 1];
      assert sorted == init + [last];
      if key(last) < key(x) {
        InsertPermutation(init, x, key);
      }
    }
  }

  /** The sort loses and adds no element. */
  lemma {:induction false} SortDescPermutation<T>(s: seq<T>, key: T -> int)
    ensures multiset(SortDesc(s, key)) == multiset(s)
  {
    if s != [] {
      var init, last := s[..|s| - 1], s[|s| - 1];
      SortDescPermutation(init, key);
      InsertPermutation(SortDesc(init, key), last, key);
      assert s == init + [last];
    }
  }

  lemma {:induction false} InsertSorted<T>(sorted: seq<T>, x: T, key: T -> int)
    requires SortedDesc(sorted, key)
    ensures SortedDesc(Insert(sorted, x, key), key)
  {
    if sorted != [] {
      var last := sorted[|sorted| - 1];
      var init := sorted[..|sorted| - 1];
      if key(last) < key(x) {
        InsertSorted(init, x, key);
        var r := Insert(init, x, key);
        InsertBounded(init, x, key, key(last));
        assert Insert(sorted, x, key) == r + [last];
      }
    }
  }

  /** Inserting keeps every key at least `b` when all keys already were. */
  lemma {:induction false} InsertBounded<T>(sorted: seq<T>, x: T, key: T -> int, b: int)
    requires forall i :: 0 <= i < |sorted| ==> key(sorted[i]) >= b
    requires key(x) >= b
    ensures forall i :: 0 <= i < |Insert(sorted, x, key)| ==> key(Insert(sorted, x, key)[i]) >= b
  {
    if sorted != [] {
      var init := sorted[..|sorted| - 1];
      if key(sorted[|sorted| - 1]) < key(x) {
        InsertBounded(init, x, key, b);
      }
    }
  }

  lemma {:induction false} InsertStable<T>(sorted: seq<T>, x: T, key: T -> int, t: int)
    ensures Group(Insert(sorted, x, key), key, t) == Group(sorted, key, t) + Single(x, key, t)
  {
    if sorted == [] {
      GroupSnoc([], x, key, t);
    } else {
      var last := sorted[|sorted| - 1];
      var init := sorted[..|sorted| - 1];
      assert sorted == init + [last];
      GroupSnoc(init, last, key, t);
      if key(last) < key(x) {
        InsertStable(init, x, key, t);
        GroupSnoc(Insert(init, x, key), last, key, t);
        assert Single(x, key, t) == [] || Single(last, key, t) == [];
      } else {
        GroupSnoc(sorted, x, key, t);
      }
    }
  }

  /** The sort puts the keys in descending order. */
  lemma {:induction false} SortDescSorted<T>(s: seq<T>, key: T -> int)
    ensures SortedDesc(SortDesc(s, key), key)
  {
    if s != [] {
      SortDescSorted(s[..|s| - 1], key);
      InsertSorted(SortDesc(s[..|s| - 1], key), s[|s| - 1], key);
    }
  }

  /** The sort is stable: elements with equal keys keep their input order. */
  lemma {:induction false} SortDescStable<T>(s: seq<T>, key: T -> int, t: int)
    ensures Group(SortDesc(s, key), key, t) == Group(s, key, t)
  {
    if s != [] {
      var init, last := s[..|s| - 1], s[|s| - 1];
      SortDescStable(init, key, t);
      InsertStable(SortDesc(init, key), last, key, t);
      assert s == init + [last];
      GroupSnoc(init, last, key, t);
    }
  }

  /** Descending order plus stability pin the result down: any stable sort by
      descending key returns exactly `SortDesc`. */
  lemma SortDescUnique<T>(s: seq<T>, r: seq<T>, key: T -> int)
    requires SortedDesc(r, key)
    requires forall t :: Group(r, key, t) == Group(s, key, t)
    ensures r == SortDesc(s, key)
  {
    SortDescSorted(s, key);
    forall t ensures Group(r, key, t) == Group(SortDesc(s, key), key, t) {
      SortDescStable(s, key, t);
    }
    SortedWithSameGroupsEqual(r, SortDesc(s, key), key);
  }

  lemma {:induction false} SortedWithSameGroupsEqual<T>(a: seq<T>, b: seq<T>, key: T -> int)
    requires SortedDesc(a, key) && SortedDesc(b, key)
    requires forall t :: Group(a, key, t) == Group(b, key, t)
    ensures a == b
    decreases |a|
  {
    if a == [] {
      NoGroupsEmpty(b, key);
    } else if b == [] {
      NoGroupsEmpty(a, key);
    } else {
      var a', b' := a[..|a| - 1], b[..|b| - 1];
      assert a == a' + [a[|a| - 1]] && b == b' + [b[|b| - 1]];
      SameGroupsDropLast(a', a[|a| - 1], b', b[|b| - 1], key);
      SortedWithSameGroupsEqual(a', b', key);
    }
  }

  /** Two sorted sequences with the same groups end with the same element,
      and what precedes it is again sorted with the same groups. */
  lemma SameGroupsDropLast<T>(a: seq<T>, x: T, b: seq<T>, y: T, key: T -> int)
    requires SortedDesc(a + [x], key) && SortedDesc(b + [y], key)
    requires forall t :: Group(a + [x], key, t) == Group(b + [y], key, t)
    ensures x == y
    ensures SortedDesc(a, key) && SortedDesc(b, key)
    ensures forall t :: Group(a, key, t) == Group(b, key, t)
  {
    assert Group(a + [x], key, key(x)) == Group(b + [y], key, key(x));
    assert Group(a + [x], key, key(y)) == Group(b + [y], key, key(y));
    SameLast(a + [x], b + [y], key);
    forall t ensures Group(a, key, t) == Group(b, key, t) {
      DropLast(a + [x], b + [y], key, t);
      assert (a + [x])[..|a|] == a && (b + [y])[..|b|] == b;
    }
    assert forall i :: 0 <= i < |a| ==> a[i] == (a + [x])[i];
    assert forall i :: 0 <= i < |b| ==> b[i] == (b + [y])[i];
  }

  /** Two sorted sequences with the same groups end with the same element:
      the last element has the smallest key, and both hold the same keys. */
  lemma SameLast<T>(a: seq<T>, b: seq<T>, key: T -> int)
    requires a != [] && b != []
    requires SortedDesc(a, key) && SortedDesc(b, key)
    requires Group(a, key, key(a[|a| - 1])) == Group(b, key, key(a[|a| - 1]))
    requires Group(a, key, key(b[|b| - 1])) == Group(b, key, key(b[|b| - 1]))
    ensures a[|a| - 1] == b[|b| - 1]
  {
    var x, y := a[|a| - 1], b[|b| - 1];
    GroupMember(a, key, key(x), x);
    GroupMember(b, key, key(x), x);
    GroupMember(b, key, key(y), y);
    GroupMember(a, key, key(y), y);
    LastIsSmallest(a, y, key);
    LastIsSmallest(b, x, key);
    LastOfGroup(a, key, key(x));
    LastOfGroup(b, key, key(x));
  }

  /** The last element of a sequence is the last of its group. */
  lemma LastOfGroup<T>(s: seq<T>, key: T -> int, t: int)
    requires s != [] && key(s[|s| - 1]) == t
    ensures Group(s, key, t) != [] && Group(s, key, t)[|Group(s, key, t)| - 1] == s[|s| - 1]
  {
  }

  lemma DropLast<T>(a: seq<T>, b: seq<T>, key: T -> int, t: int)
    requires a != [] && b != [] && a[|a| - 1] == b[|b| - 1]
    requires Group(a, key, t) == Group(b, key, t)
    ensures Group(a[..|a| - 1], key, t) == Group(b[..|b| - 1], key, t)
  {
    var e := Single(a[|a| - 1], key, t);
    SnocCancel(Group(a[..|a| - 1], key, t), Group(b[..|b| - 1], key, t), e);
  }

  lemma SnocCancel<T>(p: seq<T>, q: seq<T>, e: seq<T>)
    requires p + e == q + e
    ensures p == q
  {
    assert p == (p + e)[..|p|];
    assert q == (q + e)[..|q|];
  }

  lemma LastIsSmallest<T>(s: seq<T>, x: T, key: T -> int)
    requires SortedDesc(s, key) && x in s
    ensures key(s[|s| - 1]) <= key(x)
  {
  }

  /** A sequence all of whose groups are empty is empty. */
  lemma NoGroupsEmpty<T>(s: seq<T>, key: T -> int)
    requires forall t :: Group(s, key, t) == []
    ensures s == []
  {
    if s != [] {
      GroupMember(s, key, key(s[0]), s[0]);
      assert false;
    }
  }

  // ---------------------------------------------------------------------------
  // The sort in place

  /** Insertion sort of the array, in place. */
  method SortInPlace<T>(a: array<T>, key: T -> int)
    modifies a
    ensures a[..] == SortDesc(old(a[..]), key)
  {
    ghost var input := a[..];
    var i := 0;
    while i < a.Length
      invariant 0 <= i <= a.Length
      invariant a[..i] == SortDesc(input[..i], key)
      invariant a[i..] == input[i..]
    {
      InsertIntoPrefix(a, i, key);
      assert input[..i + 1] == input[..i] + [input[i]];
      i := i + 1;
    }
    assert input[..a.Length] == input;
    assert a[..a.Length] == a[..];
  }

  /** Moves `a[i]` left past every element of the prefix `a[..i]` whose key
      is smaller. */
  method InsertIntoPrefix<T>(a: array<T>, i: nat, key: T -> int)
    requires i < a.Length
    modifies a
    ensures a[..i + 1] == Insert(old(a[..i]), old(a[i]), key)
    ensures a[i + 1..] == old(a[i + 1..])
  {
    ghost var sorted := a[..i];
    var x := a[i];
    var j := i;
    while j > 0 && key(a[j - 1]) < key(x)
      invariant 0 <= j <= i
      invariant forall m :: 0 <= m < j ==> a[m] == sorted[m]
      invariant forall m :: j < m <= i ==> a[m] == sorted[m - 1]
      invariant forall m :: j <= m < i ==> key(sorted[m]) < key(x)
      invariant a[i + 1..] == old(a[i + 1..])
    {
      a[j] := a[j - 1];
      j := j - 1;
    }
    a[j] := x;
    InsertStep(a[..], sorted, x, key, i, j);
  }

  /** One pass of the outer loop: the array prefix now holds `x` inserted
      into the previously sorted prefix. */
  lemma InsertStep<T>(after: seq<T>, sorted: seq<T>, x: T, key: T -> int, i: nat, j: nat)
    requires j <= i == |sorted| < |after|
    requires forall m :: 0 <= m < j ==> after[m] == sorted[m]
    requires after[j] == x
    requires forall m :: j < m <= i ==> after[m] == sorted[m - 1]
    requires forall m :: j <= m < i ==> key(sorted[m]) < key(x)
    requires j == 0 || key(sorted[j - 1]) >= key(x)
    ensures after[..i + 1] == Insert(sorted, x, key)
  {
    InsertAt(sorted, x, key, j);
    var r := sorted[..j] + [x] + sorted[j..];
    assert |r| == i + 1 && r[j] == x;
    forall m | 0 <= m <= i ensures after[m] == r[m] {
      if m < j {
        assert r[m] == sorted[..j][m] == sorted[m];
      } else if m > j {
        assert r[m] == sorted[j..][m - j - 1] == sorted[m - 1];
      }
    }
    assert after[..i + 1] == r;
  }

  /** Where the backward scan stops: after the last element whose key is at
      least `x`'s. */
  lemma {:induction false} InsertAt<T>(sorted: seq<T>, x: T, key: T -> int, j: nat)
    requires j <= |sorted|
    requires j == 0 || key(sorted[j - 1]) >= key(x)
    requires forall m :: j <= m < |sorted| ==> key(sorted[m]) < key(x)
    ensures Insert(sorted, x, key) == sorted[..j] + [x] + sorted[j..]
    decreases |sorted|
  {
    if j < |sorted| {
      var init, last := sorted[..|sorted| - 1], sorted[|sorted| - 1];
      InsertAt(init, x, key, j);
      assert init[..j] == sorted[..j];
      assert init[j..] + [last] == sorted[j..];
    } else if sorted != [] {
      assert sorted[..j] == sorted;
    }
  }
}
