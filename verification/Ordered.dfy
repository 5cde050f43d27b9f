/** Ordered identifier lists: the meaning of every `sort.Slice` call in the program,
    and the "drop zeroes and duplicates, then sort" loop shared by the simulator and the services. */
module Ordered {

  ghost predicate SortedBy<T>(s: seq<T>, key: T -> int) {
    forall i, j :: 0 <= i < j < |s| ==> key(s[i]) <= key(s[j])
  }

  ghost predicate StrictBy<T>(s: seq<T>, key: T -> int) {
    forall i, j :: 0 <= i < j < |s| ==> key(s[i]) < key(s[j])
  }

  ghost predicate DistinctBy<T>(s: seq<T>, key: T -> int) {
    forall i, j :: 0 <= i < j < |s| ==> key(s[i]) != key(s[j])
  }

  ghost predicate StrictlyAscending(s: seq<int>) {
    forall i, j :: 0 <= i < j < |s| ==> s[i] < s[j]
  }

  ghost predicate SameElements<T(!new)>(a: seq<T>, b: seq<T>) {
    forall x :: x in a <==> x in b
  }

  /** `a` has exactly the positive members of `b`. */
  ghost predicate SamePositive(a: seq<nat>, b: seq<nat>) {
    forall x :: x in a <==> x in b && x > 0
  }

  /** There is only one way to list a given collection in strictly ascending key order. */
  lemma {:induction false} StrictOrderIsUnique<T(!new)>(a: seq<T>, b: seq<T>, key: T -> int)
    requires StrictBy(a, key) && StrictBy(b, key)
    requires SameElements(a, b)
    ensures a == b
  {
    if a == [] {
      assert forall i :: 0 <= i < |b| ==> b[i] in a;
    } else {
      assert a[0] in b;
      var x, y := a[|a| - 1], b[|b| - 1];
      assert x in b && y in a;
      assert x == y;
      var a', b' := a[..|a| - 1], b[..|b| - 1];
      forall z ensures z in a' <==> z in b' {
        assert z in a' <==> z in a && key(z) < key(x);
        assert z in b' <==> z in b && key(z) < key(y);
      }
      StrictOrderIsUnique(a', b', key);
    }
  }

  /** Elements of a list that have the same key are equal. */
  ghost predicate KeyDecides<T>(s: seq<T>, key: T -> int) {
    forall i, j :: 0 <= i < |s| && 0 <= j < |s| && key(s[i]) == key(s[j]) ==> s[i] == s[j]
  }

  lemma LastOfSorted<T>(a: seq<T>, b: seq<T>, key: T -> int)
    requires SortedBy(a, key) && SortedBy(b, key) && multiset(a) == multiset(b) && |a| == |b| > 0 && KeyDecides(a, key)
    ensures a[|a| - 1] == b[|b| - 1]
  {
    var x, y := a[|a| - 1], b[|b| - 1];
    assert x in multiset(b) && y in multiset(a);
    var i :| 0 <= i < |a| && a[i] == y;
    var j :| 0 <= j < |b| && b[j] == x;
    assert key(y) <= key(x) && key(x) <= key(y);
  }

  lemma SortedFront<T>(s: seq<T>, key: T -> int)
    requires s != [] && SortedBy(s, key)
    ensures var front := s[..|s| - 1];
      && SortedBy(front, key) && multiset(front) == multiset(s) - multiset{s[|s| - 1]}
      && (KeyDecides(s, key) ==> KeyDecides(front, key))
  {
    assert s == s[..|s| - 1] + [s[|s| - 1]];
  }

  /** Where the key decides, there is only one way to sort a list, repeated elements included. */
  lemma {:induction false} SortedOrderIsUnique<T>(a: seq<T>, b: seq<T>, key: T -> int)
    requires SortedBy(a, key) && SortedBy(b, key) && multiset(a) == multiset(b) && |a| == |b| && KeyDecides(a, key)
    ensures a == b
  {
    if a != [] {
      LastOfSorted(a, b, key);
      SortedFront(a, key);
      SortedFront(b, key);
      SortedOrderIsUnique(a[..|a| - 1], b[..|b| - 1], key);
      assert a == a[..|a| - 1] + [a[|a| - 1]] && b == b[..|b| - 1] + [b[|b| - 1]];
    }
  }

  /** Inserts `x` into a strictly ascending list, unless it is already there. */
  function Insert(x: int, s: seq<int>): (r: seq<int>)
    ensures StrictlyAscending(s) ==> StrictlyAscending(r)
    ensures forall y :: y in r <==> y == x || y in s
    ensures |r| <= |s| + 1
  {
    if s == [] then [x]
    else if x < s[0] then [x] + s
    else if x == s[0] then s
    else
      var rest := Insert(x, s[1..]);
      assert forall y :: y in s <==> y == s[0] || y in s[1..];
      assert forall i :: 0 <= i < |rest| ==> rest[i] in rest;
      [s[0]] + rest
  }

  /** The distinct elements of a list in strictly ascending order. */
  function Ascending(s: seq<int>): (r: seq<int>)
    ensures StrictlyAscending(r)
    ensures forall x :: x in r <==> x in s
    ensures |r| <= |s|
  {
    if s == [] then [] else Insert(s[0], Ascending(s[1..]))
  }

  function AscendingIds(s: seq<nat>): (r: seq<nat>)
    ensures StrictlyAscending(r)
    ensures forall x :: x in r <==> x in s
  {
    var r := Ascending(s);
    assert forall i :: 0 <= i < |r| ==> r[i] in r;
    r
  }

  /** Inserts `x` into an ascending list, before any equal element. */
  function InsertRepeated(x: nat, s: seq<nat>): (r: seq<nat>)
    ensures |r| == |s| + 1
  {
    if s == [] || x <= s[0] then [x] + s else [s[0]] + InsertRepeated(x, s[1..])
  }

  function Itself(x: nat): int { x }

  /** An identifier list in ascending order, repeated identifiers included. */
  function SortedIds(s: seq<nat>): (r: seq<nat>)
    ensures |r| == |s|
  {
    if s == [] then [] else InsertRepeated(s[|s| - 1], SortedIds(s[..|s| - 1]))
  }

  lemma {:induction false} InsertedElements(x: nat, s: seq<nat>)
    ensures multiset(InsertRepeated(x, s)) == multiset{x} + multiset(s)
  {
    if s != [] && x > s[0] {
      InsertedElements(x, s[1..]);
      assert s == [s[0]] + s[1..];
    }
  }

  lemma {:induction false} InsertedInOrder(x: nat, s: seq<nat>)
    requires SortedBy(s, Itself)
    ensures SortedBy(InsertRepeated(x, s), Itself)
    ensures s != [] ==> InsertRepeated(x, s)[0] == if x <= s[0] then x else s[0]
  {
    if s != [] && x > s[0] {
      InsertedInOrder(x, s[1..]);
    }
  }

  lemma {:induction false} SortedIdsSorts(s: seq<nat>)
    ensures multiset(SortedIds(s)) == multiset(s) && SortedBy(SortedIds(s), Itself)
  {
    if s != [] {
      var front, last := s[..|s| - 1], s[|s| - 1];
      assert s == front + [last];
      SortedIdsSorts(front);
      InsertedElements(last, SortedIds(front));
      InsertedInOrder(last, SortedIds(front));
    }
  }

  /** The canonical form of an identifier list: its positive members, once each, ascending. */
  function CanonicalIds(s: seq<nat>): (r: seq<nat>)
    ensures StrictlyAscending(r)
    ensures forall x :: x in r <==> x in s && x > 0
  {
    if s == [] then []
    else
      var rest := CanonicalIds(s[1..]);
      if s[0] == 0 then rest else
      var r := Insert(s[0], rest);
      assert forall i :: 0 <= i < |r| ==> r[i] in r;
      r
  }

  lemma AscendingCharacterised(r: seq<int>, s: seq<int>)
    requires StrictlyAscending(r) && SameElements(r, s)
    ensures r == Ascending(s)
  {
    StrictOrderIsUnique(r, Ascending(s), (x: int) => x);
  }

  lemma CanonicalIdsCharacterised(r: seq<nat>, s: seq<nat>)
    requires StrictlyAscending(r) && forall x :: x in r <==> x in s && x > 0
    ensures r == CanonicalIds(s)
  {
    StrictOrderIsUnique(r, CanonicalIds(s), (x: nat) => x);
  }

  /** A sorted rearrangement of a list without repeated keys is strictly sorted. */
  lemma SortedRearrangementIsStrict<T>(s: seq<T>, t: seq<T>, key: T -> int)
    requires multiset(s) == multiset(t)
    requires SortedBy(s, key) && DistinctBy(t, key)
    ensures StrictBy(s, key)
  {
    forall i, j | 0 <= i < j < |s| ensures key(s[i]) < key(s[j]) {
      MultiplicityOfRepeat(s, i, j);
      MultiplicityWhenDistinct(t, s[i], key);
      assert s[i] in multiset(t) && s[j] in multiset(t);
    }
  }

  lemma MultiplicityOfRepeat<T>(s: seq<T>, i: nat, j: nat)
    requires i < j < |s|
    ensures s[i] == s[j] ==> multiset(s)[s[i]] >= 2
  {
    assert s == s[..j] + [s[j]] + s[j + 1..];
    assert s[i] in s[..j];
    assert s[i] in multiset(s[..j]);
  }

  lemma {:induction false} MultiplicityWhenDistinct<T>(t: seq<T>, x: T, key: T -> int)
    requires DistinctBy(t, key)
    ensures multiset(t)[x] <= 1
  {
    if t != [] {
      var front, last := t[..|t| - 1], t[|t| - 1];
      assert t == front + [last];
      MultiplicityWhenDistinct(front, x, key);
      assert forall i :: 0 <= i < |front| ==> key(t[i]) != key(last);
      assert last !in front;
      assert last !in multiset(front);
    }
  }

  lemma SameMultisetSameElements<T(!new)>(a: seq<T>, b: seq<T>)
    requires multiset(a) == multiset(b)
    ensures SameElements(a, b) && |a| == |b|
  {
    assert |multiset(a)| == |a| && |multiset(b)| == |b|;
    forall x ensures x in a <==> x in b {
      assert x in a <==> x in multiset(a);
      assert x in b <==> x in multiset(b);
    }
  }

  /** In-place sort of a slice by an integer key; nothing is promised about the order of equal keys. */
  method SortSlice<T>(a: array<T>, key: T -> int)
    modifies a
    ensures multiset(a[..]) == multiset(old(a[..]))
    ensures SortedBy(a[..], key)
  {
    var n := 0;
    while n < a.Length
      invariant 0 <= n <= a.Length
      invariant multiset(a[..]) == multiset(old(a[..]))
      invariant SortedBy(a[..n], key)
    {
      InsertLast(a, n, key);
      n := n + 1;
    }
    assert a[..n] == a[..];
  }

  method InsertLast<T>(a: array<T>, n: nat, key: T -> int)
    requires n < a.Length && SortedBy(a[..n], key)
    modifies a
    ensures multiset(a[..]) == multiset(old(a[..]))
    ensures SortedBy(a[..n + 1], key)
  {
    var j := n;
    assert a[..n + 1][..n] == a[..n];
    AppendedExcept(a[..n + 1], n, key);
    while j > 0 && key(a[j - 1]) > key(a[j])
      invariant 0 <= j <= n
      invariant multiset(a[..]) == multiset(old(a[..]))
      invariant SortedExcept(a[..n + 1], j, key)
    {
      Sink(a, n, j, key);
      j := j - 1;
    }
    SettledIsSorted(a[..n + 1], j, key);
  }

  /** Moves an element that is too small for its place one place down. */
  method Sink<T>(a: array<T>, n: nat, j: nat, key: T -> int)
    requires 0 < j <= n < a.Length && SortedExcept(a[..n + 1], j, key) && key(a[j - 1]) > key(a[j])
    modifies a
    ensures multiset(a[..]) == multiset(old(a[..]))
    ensures SortedExcept(a[..n + 1], j - 1, key)
  {
    ghost var before := a[..];
    assert a[..n + 1] == before[..n + 1];
    SwapSinksLast(before[..n + 1], j, key);
    SwapKeepsMultiset(before, j - 1);
    SwapAdjacent(a, j - 1);
    assert a[..n + 1] == Swapped(before[..n + 1], j - 1);
  }

  lemma AppendedExcept<T>(s: seq<T>, n: nat, key: T -> int)
    requires n + 1 == |s| && SortedBy(s[..n], key)
    ensures SortedExcept(s, n, key)
  {
    assert forall p :: 0 <= p < n ==> s[..n][p] == s[p];
  }

  lemma SettledIsSorted<T>(s: seq<T>, j: nat, key: T -> int)
    requires j < |s| && SortedExcept(s, j, key) && (j > 0 ==> key(s[j - 1]) <= key(s[j]))
    ensures SortedBy(s, key)
  {
    forall p, q | 0 <= p < q < |s| ensures key(s[p]) <= key(s[q]) {
      if q == j && p < j - 1 {
        assert key(s[p]) <= key(s[j - 1]);
      }
    }
  }

  method SwapAdjacent<T>(a: array<T>, i: nat)
    requires i + 1 < a.Length
    modifies a
    ensures a[..] == Swapped(old(a[..]), i)
  {
    a[i], a[i + 1] := a[i + 1], a[i];
  }

  /** Sorted, except that the element at `j` may still be too small for its place. */
  ghost predicate SortedExcept<T>(s: seq<T>, j: nat, key: T -> int) {
    forall p, q :: 0 <= p < q < |s| && q != j ==> key(s[p]) <= key(s[q])
  }

  ghost function Swapped<T>(s: seq<T>, i: nat): (r: seq<T>)
    requires i + 1 < |s|
    ensures |r| == |s|
  {
    s[i := s[i + 1]][i + 1 := s[i]]
  }

  lemma SwapKeepsMultiset<T>(s: seq<T>, i: nat)
    requires i + 1 < |s|
    ensures multiset(Swapped(s, i)) == multiset(s)
  {
    assert s == s[..i] + [s[i], s[i + 1]] + s[i + 2..];
    assert Swapped(s, i) == s[..i] + [s[i + 1], s[i]] + s[i + 2..];
  }

  lemma SwapSinksLast<T>(s: seq<T>, j: nat, key: T -> int)
    requires 0 < j < |s| && SortedExcept(s, j, key) && key(s[j - 1]) > key(s[j])
    ensures SortedExcept(Swapped(s, j - 1), j - 1, key)
  {
  }

  /** Sorts a value slice; the caller's slice is not shared. */
  method SortedCopy<T>(s: seq<T>, key: T -> int) returns (r: seq<T>)
    ensures multiset(r) == multiset(s) && SortedBy(r, key)
  {
    var a := new T[|s|](i requires 0 <= i < |s| => s[i]);
    assert a[..] == s;
    SortSlice(a, key);
    r := a[..];
  }

  /** `mapKeys`: the keys of a map, in ascending order whatever order they are listed in. */
  method SortedKeys(values: map<nat, bool>, ghost keys: seq<nat>) returns (r: seq<nat>)
    requires forall x :: x in keys <==> x in values
    ensures r == AscendingIds(keys)
  {
    var result: seq<nat> := [];
    var remaining := values.Keys;
    while remaining != {}
      invariant remaining <= values.Keys
      invariant forall x :: x in result <==> x in values && x !in remaining
      invariant DistinctBy(result, (x: nat) => x)
    {
      var key :| key in remaining;
      result := result + [key];
      remaining := remaining - {key};
    }
    r := SortedCopy(result, (x: nat) => x);
    SameMultisetSameElements(r, result);
    SortedRearrangementIsStrict(r, result, (x: nat) => x);
    AscendingCharacterised(r, keys);
  }

  /** `sortedUnique` and `uniqueIDs`: exactly the positive inputs, once each, in ascending order. */
  method SortedUnique(values: seq<nat>) returns (r: seq<nat>)
    ensures r == CanonicalIds(values)
  {
    var seen: map<nat, bool> := map[];
    var result: seq<nat> := [];
    for i := 0 to |values|
      invariant forall x :: x in seen <==> x in values[..i] && x > 0
      invariant forall x :: x in result <==> x in seen
      invariant DistinctBy(result, (x: nat) => x)
    {
      var value := values[i];
      assert values[..i + 1] == values[..i] + [value];
      if value > 0 && value !in seen {
        seen := seen[value := true];
        result := result + [value];
      }
    }
    assert values[..|values|] == values;
    r := SortedCopy(result, (x: nat) => x);
    SameMultisetSameElements(r, result);
    SortedRearrangementIsStrict(r, result, (x: nat) => x);
    CanonicalIdsCharacterised(r, values);
  }
}
