/** sort.Slice: in-place sorting by a comparator, with the order of ties left open. */
module Sorting {

  /** less is irreflexive, and "not less" is transitive: what sort.Slice needs of its comparator. */
  ghost predicate StrictWeakOrder<T(!new)>(less: (T, T) -> bool) {
    && (forall a :: !less(a, a))
    && (forall a, b, c :: less(a, b) && less(b, c) ==> less(a, c))
    && (forall a, b, c :: !less(a, b) && !less(b, c) ==> !less(a, c))
  }

  ghost predicate SortedBy<T>(less: (T, T) -> bool, s: seq<T>) {
    forall i, j :: 0 <= i < j < |s| ==> !less(s[j], s[i])
  }

  /** Sorts in place. The library's algorithm is not part of this model; callers use only the contract. */
  method SortSlice<T(!new)>(a: array<T>, less: (T, T) -> bool)
    requires StrictWeakOrder(less)
    modifies a
    ensures SortedBy(less, a[..])
    ensures multiset(a[..]) == old(multiset(a[..]))
  {
    var i := 0;
    while i < a.Length
      invariant 0 <= i <= a.Length
      invariant SortedBy(less, a[..i])
      invariant multiset(a[..]) == old(multiset(a[..]))
    {
      var j := Sink(a, i, less);
      SunkIsSorted(a[..], i, j, less);
      i := i + 1;
    }
    assert a[..i] == a[..];
  }

  /** Element i went down to position j: it is less than what it passed, and not less than what it did not pass. */
  ghost predicate Sunk<T(!new)>(s: seq<T>, i: nat, j: nat, less: (T, T) -> bool) {
    && j <= i < |s|
    && (forall x, y :: 0 <= x < y <= i && x != j && y != j ==> !less(s[y], s[x]))
    && (forall y :: j < y <= i ==> less(s[j], s[y]))
  }

  /** Moves element i down while it is less than the one below it. */
  method Sink<T(!new)>(a: array<T>, i: nat, less: (T, T) -> bool) returns (j: nat)
    requires i < a.Length && SortedBy(less, a[..i])
    modifies a
    ensures Sunk(a[..], i, j, less) && (j > 0 ==> !less(a[j], a[j - 1]))
    ensures multiset(a[..]) == old(multiset(a[..]))
  {
    j := i;
    while j > 0 && less(a[j], a[j - 1])
      invariant 0 <= j <= i
      invariant Sunk(a[..], i, j, less)
      invariant multiset(a[..]) == old(multiset(a[..]))
    {
      ghost var s := a[..];
      SinksOne(s, i, j, less);
      SwapKeeps(s, j);
      a[j - 1], a[j] := a[j], a[j - 1];
      assert a[..] == s[j - 1 := s[j]][j := s[j - 1]];
      j := j - 1;
    }
  }

  lemma SwapKeeps<T(!new)>(s: seq<T>, j: nat)
    requires 0 < j < |s|
    ensures multiset(s[j - 1 := s[j]][j := s[j - 1]]) == multiset(s)
  {
  }

  lemma SinksOne<T(!new)>(s: seq<T>, i: nat, j: nat, less: (T, T) -> bool)
    requires Sunk(s, i, j, less) && j > 0 && less(s[j], s[j - 1])
    ensures Sunk(s[j - 1 := s[j]][j := s[j - 1]], i, j - 1, less)
  {
    var t := s[j - 1 := s[j]][j := s[j - 1]];
    // Apart from the sinking element, t holds what s holds, with the element passed one place up.
    assert forall x :: 0 <= x <= i && x != j - 1 ==> t[x] == s[if x == j then j - 1 else x];
    forall x, y | 0 <= x < y <= i && x != j - 1 && y != j - 1 ensures !less(t[y], t[x]) {
      var x', y' := if x == j then j - 1 else x, if y == j then j - 1 else y;
      assert x' < y' && x' != j && y' != j;
    }
  }

  lemma SunkIsSorted<T(!new)>(s: seq<T>, i: nat, j: nat, less: (T, T) -> bool)
    requires StrictWeakOrder(less) && Sunk(s, i, j, less) && (j > 0 ==> !less(s[j], s[j - 1]))
    ensures SortedBy(less, s[..i + 1])
  {
    forall x, y | 0 <= x < y <= i ensures !less(s[y], s[x]) {
      if x == j {
        assert less(s[j], s[y]) && !less(s[j], s[j]);
      } else if y == j {
        assert x == j - 1 || !less(s[j - 1], s[x]);
      }
    }
  }

  /** Two sorts of one list differ only within ties: at each position their elements are not ordered. */
  lemma SortsAgreeUpToTies<T(!new)>(less: (T, T) -> bool, s: seq<T>, t: seq<T>, k: nat)
    requires StrictWeakOrder(less) && SortedBy(less, s) && SortedBy(less, t)
    requires multiset(s) == multiset(t) && k < |s|
    ensures |s| == |t| && !less(s[k], t[k]) && !less(t[k], s[k])
  {
    assert |multiset(s)| == |s| && |multiset(t)| == |t|;
    NotLessAtRank(less, s, t, k);
    NotLessAtRank(less, t, s, k);
  }

  lemma NotLessAtRank<T(!new)>(less: (T, T) -> bool, s: seq<T>, t: seq<T>, k: nat)
    requires StrictWeakOrder(less) && SortedBy(less, s) && SortedBy(less, t)
    requires multiset(s) == multiset(t) && k < |s| == |t|
    ensures !less(s[k], t[k])
  {
    if less(s[k], t[k]) {
      // The k+1 first elements of s all come strictly before t[k], so t holds them among its first k.
      forall r | r in s[..k + 1] ensures r !in t[k..] {
        LowElementsPrecede(less, s, t, k, r);
      }
      ElementsMustFit(s, t, k);
    }
  }

  lemma ElementsMustFit<T(!new)>(s: seq<T>, t: seq<T>, k: nat)
    requires multiset(s) == multiset(t) && k < |s| == |t|
    ensures exists r :: r in s[..k + 1] && r in t[k..]
  {
    var low, top := multiset(s[..k + 1]), multiset(t[..k]);
    assert s == s[..k + 1] + s[k + 1..] && t == t[..k] + t[k..];
    var r :| low[r] > top[r] by {
      if forall r :: low[r] <= top[r] {
        SubmultisetSize(low, top);
        assert false;
      }
    }
    assert multiset(t)[r] == top[r] + multiset(t[k..])[r];
    assert multiset(s)[r] == low[r] + multiset(s[k + 1..])[r];
    assert r in multiset(t[k..]) && r in low;
    assert r in s[..k + 1] && r in t[k..];
  }

  lemma SubmultisetSize<T>(a: multiset<T>, b: multiset<T>)
    requires a <= b
    ensures |a| <= |b|
  {
    assert b == a + (b - a);
  }

  lemma LowElementsPrecede<T(!new)>(less: (T, T) -> bool, s: seq<T>, t: seq<T>, k: nat, r: T)
    requires StrictWeakOrder(less) && SortedBy(less, s) && SortedBy(less, t)
    requires k < |s| == |t| && less(s[k], t[k]) && r in s[..k + 1]
    ensures r !in t[k..]
  {
    var i :| 0 <= i <= k && s[..k + 1][i] == r;
    assert i == k || !less(s[k], s[i]);
    assert less(r, t[k]);
    forall j | k <= j < |t| ensures t[j] != r {
      assert j == k || !less(t[j], t[k]);
    }
  }

  /** A repeated element of a multiset is met at two places of any sequence of its elements. */
  lemma {:induction false} TwiceInSequence<T(!new)>(s: seq<T>, v: T) returns (x: nat, y: nat)
    requires multiset(s)[v] >= 2
    ensures x < y < |s| && s[x] == v && s[y] == v
  {
    assert s == s[..|s| - 1] + [s[|s| - 1]];
    if s[|s| - 1] == v {
      assert v in multiset(s[..|s| - 1]);
      x :| 0 <= x < |s| - 1 && s[x] == v;
      y := |s| - 1;
    } else {
      x, y := TwiceInSequence(s[..|s| - 1], v);
    }
  }

  // ----- a stable sort, and how far sorts can differ -----

  /** Puts x behind everything that it is not less than. */
  function Insert<T>(less: (T, T) -> bool, s: seq<T>, x: T): seq<T> {
    if s != [] && less(x, s[|s| - 1]) then Insert(less, s[..|s| - 1], x) + [s[|s| - 1]] else s + [x]
  }

  /** The stable sort of a list: equal elements keep their order. */
  function StableSort<T>(less: (T, T) -> bool, s: seq<T>): seq<T> {
    if s == [] then [] else Insert(less, StableSort(less, s[..|s| - 1]), s[|s| - 1])
  }

  lemma {:induction false} InsertKeeps<T(!new)>(less: (T, T) -> bool, s: seq<T>, x: T)
    ensures multiset(Insert(less, s, x)) == multiset(s) + multiset{x}
  {
    if s != [] && less(x, s[|s| - 1]) {
      InsertKeeps(less, s[..|s| - 1], x);
      assert s == s[..|s| - 1] + [s[|s| - 1]];
    }
  }

  lemma {:induction false} InsertSorts<T(!new)>(less: (T, T) -> bool, s: seq<T>, x: T)
    requires StrictWeakOrder(less) && SortedBy(less, s)
    ensures SortedBy(less, Insert(less, s, x))
  {
    if s != [] && less(x, s[|s| - 1]) {
      var front, last := s[..|s| - 1], s[|s| - 1];
      InsertSorts(less, front, x);
      InsertKeeps(less, front, x);
      AppendSorts(less, Insert(less, front, x), last);
    } else {
      forall y | y in s ensures !less(x, y) {
        var k :| 0 <= k < |s| && s[k] == y;
        assert k == |s| - 1 || !less(s[|s| - 1], y);
      }
      AppendSorts(less, s, x);
    }
  }

  lemma AppendSorts<T(!new)>(less: (T, T) -> bool, s: seq<T>, x: T)
    requires SortedBy(less, s) && forall y :: y in multiset(s) ==> !less(x, y)
    ensures SortedBy(less, s + [x])
  {
    forall i | 0 <= i < |s| ensures !less(x, s[i]) { assert s[i] in multiset(s); }
  }

  lemma {:induction false} StableKeeps<T(!new)>(less: (T, T) -> bool, s: seq<T>)
    ensures multiset(StableSort(less, s)) == multiset(s)
  {
    if s != [] {
      StableKeeps(less, s[..|s| - 1]);
      InsertKeeps(less, StableSort(less, s[..|s| - 1]), s[|s| - 1]);
      LastCounts(s);
    }
  }

  lemma LastCounts<T(!new)>(s: seq<T>)
    requires s != []
    ensures multiset(s) == multiset(s[..|s| - 1]) + multiset{s[|s| - 1]}
  {
    assert s == s[..|s| - 1] + [s[|s| - 1]];
  }

  lemma {:induction false} StableIsSorted<T(!new)>(less: (T, T) -> bool, s: seq<T>)
    requires StrictWeakOrder(less)
    ensures SortedBy(less, StableSort(less, s))
  {
    if s != [] {
      StableIsSorted(less, s[..|s| - 1]);
      InsertSorts(less, StableSort(less, s[..|s| - 1]), s[|s| - 1]);
    }
  }

  lemma StableSorts<T(!new)>(less: (T, T) -> bool, s: seq<T>)
    requires StrictWeakOrder(less)
    ensures SortedBy(less, StableSort(less, s)) && multiset(StableSort(less, s)) == multiset(s)
  {
    StableIsSorted(less, s);
    StableKeeps(less, s);
  }

  /** s is a sort of the list. */
  ghost predicate Sorts<T(!new)>(less: (T, T) -> bool, list: seq<T>, s: seq<T>) {
    SortedBy(less, s) && multiset(s) == multiset(list)
  }

  /** Any two different elements of the list are ordered. */
  ghost predicate NoTies<T(!new)>(less: (T, T) -> bool, list: seq<T>) {
    forall x, y :: x in list && y in list && x != y ==> less(x, y) || less(y, x)
  }

  /** A list has just one sort exactly when no two different elements tie. */
  lemma SortFixedExactly<T(!new)>(less: (T, T) -> bool, list: seq<T>)
    requires StrictWeakOrder(less)
    ensures (forall s, t :: Sorts(less, list, s) && Sorts(less, list, t) ==> s == t) <==> NoTies(less, list)
  {
    if NoTies(less, list) {
      forall s, t | Sorts(less, list, s) && Sorts(less, list, t) ensures s == t {
        NoTiesOneSort(less, list, s, t);
      }
    } else {
      var s, t := TiesTwoSorts(less, list);
    }
  }

  lemma NoTiesOneSort<T(!new)>(less: (T, T) -> bool, list: seq<T>, s: seq<T>, t: seq<T>)
    requires StrictWeakOrder(less) && NoTies(less, list) && Sorts(less, list, s) && Sorts(less, list, t)
    ensures s == t
  {
    assert |multiset(s)| == |s| && |multiset(t)| == |t|;
    forall k | 0 <= k < |s| ensures s[k] == t[k] {
      SortsAgreeUpToTies(less, s, t, k);
      assert s[k] in multiset(list) && t[k] in multiset(list);
    }
  }

  lemma TiesTwoSorts<T(!new)>(less: (T, T) -> bool, list: seq<T>) returns (s: seq<T>, t: seq<T>)
    requires StrictWeakOrder(less) && !NoTies(less, list)
    ensures Sorts(less, list, s) && Sorts(less, list, t) && s != t
  {
    var x, y :| x in list && y in list && x != y && !less(x, y) && !less(y, x);
    s := StableSort(less, list);
    StableSorts(less, list);
    var a, b := IndexOf(list, s, x), IndexOf(list, s, y);
    t := s[a := y][b := x];
    SwapTies(less, s, a, b);
    assert t[a] != s[a];
  }

  ghost function IndexOf<T(!new)>(list: seq<T>, s: seq<T>, x: T): (k: nat)
    requires multiset(s) == multiset(list) && x in list
    ensures k < |s| && s[k] == x
  {
    assert x in multiset(s);
    var k :| 0 <= k < |s| && s[k] == x;
    k
  }

  lemma SwapTies<T(!new)>(less: (T, T) -> bool, s: seq<T>, a: nat, b: nat)
    requires StrictWeakOrder(less) && SortedBy(less, s) && a < |s| && b < |s|
    requires !less(s[a], s[b]) && !less(s[b], s[a])
    ensures SortedBy(less, s[a := s[b]][b := s[a]]) && multiset(s[a := s[b]][b := s[a]]) == multiset(s)
  {
    var t := s[a := s[b]][b := s[a]];
    forall i | 0 <= i < |s| ensures !less(s[i], t[i]) && !less(t[i], s[i]) {
    }
    forall i, j | 0 <= i < j < |s| ensures !less(t[j], t[i]) {
      assert !less(t[j], s[j]) && !less(s[j], s[i]) && !less(s[i], t[i]);
    }
  }
}
