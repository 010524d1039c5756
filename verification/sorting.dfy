/** The two orderings exif_write_apps imposes before it writes: directories
    ascending by number and each directory's entries ascending by id. The
    source calls std::sort with a strict less-than on the key; the model is
    an insertion sort on sequences, which keeps elements of equal key in
    their original order (a choice std::sort leaves open; with distinct
    keys every sorted permutation is the same one, see SortedUnique).
 */
module Sorting {

  /** Keys never decrease along `s`. */
  predicate SortedBy<T>(s: seq<T>, key: T -> int) {
    forall i, j :: 0 <= i < j < |s| ==> key(s[i]) <= key(s[j])
  }

  /** Keys strictly increase along `s`. */
  predicate StrictlySortedBy<T>(s: seq<T>, key: T -> int) {
    forall i, j :: 0 <= i < j < |s| ==> key(s[i]) < key(s[j])
  }

  /** `x` placed before the first element of larger or equal key. */
  function Insert<T>(x: T, s: seq<T>, key: T -> int): (r: seq<T>)
    ensures |r| == |s| + 1
    decreases |s|
  {
    if |s| == 0 || key(x) <= key(s[0]) then [x] + s
    else [s[0]] + Insert(x, s[1..], key)
  }

  /** Insertion sort: the head inserted into the sorted tail. */
  function SortBy<T>(s: seq<T>, key: T -> int): (r: seq<T>)
    ensures |r| == |s|
    decreases |s|
  {
    if |s| == 0 then [] else Insert(s[0], SortBy(s[1..], key), key)
  }

  /** Insertion adds exactly the inserted element. */
  lemma {:induction false} InsertPermutes<T>(x: T, s: seq<T>, key: T -> int)
    ensures multiset(Insert(x, s, key)) == multiset(s) + multiset{x}
    decreases |s|
  {
    if |s| > 0 && key(x) > key(s[0]) {
      InsertPermutes(x, s[1..], key);
      assert s == [s[0]] + s[1..];
    }
  }

  /** A lower bound of `x` and of every element of `s` bounds every element
      of the insertion. */
  lemma {:induction false} InsertBounded<T>(x: T, s: seq<T>, key: T -> int, b: int)
    requires b <= key(x)
    requires forall k :: 0 <= k < |s| ==> b <= key(s[k])
    ensures forall k :: 0 <= k < |s| + 1 ==> b <= key(Insert(x, s, key)[k])
    decreases |s|
  {
    if |s| > 0 && key(x) > key(s[0]) {
      InsertBounded(x, s[1..], key, b);
    }
  }

  /** Inserting into a sorted sequence keeps it sorted. */
  lemma {:induction false} InsertSorted<T>(x: T, s: seq<T>, key: T -> int)
    requires SortedBy(s, key)
    ensures SortedBy(Insert(x, s, key), key)
    decreases |s|
  {
    if |s| > 0 && key(x) > key(s[0]) {
      InsertSorted(x, s[1..], key);
      InsertBounded(x, s[1..], key, key(s[0]));
    }
  }

  /** The sort returns a sorted permutation of its input. */
  lemma {:induction false} SortSortsAndPermutes<T>(s: seq<T>, key: T -> int)
    ensures SortedBy(SortBy(s, key), key)
    ensures multiset(SortBy(s, key)) == multiset(s)
    decreases |s|
  {
    if |s| > 0 {
      SortSortsAndPermutes(s[1..], key);
      InsertSorted(s[0], SortBy(s[1..], key), key);
      InsertPermutes(s[0], SortBy(s[1..], key), key);
      assert s == [s[0]] + s[1..];
    }
  }

  /** Sorting an already sorted sequence changes nothing. */
  lemma {:induction false} SortOfSorted<T>(s: seq<T>, key: T -> int)
    requires SortedBy(s, key)
    ensures SortBy(s, key) == s
    decreases |s|
  {
    if |s| > 0 {
      SortOfSorted(s[1..], key);
      assert s == [s[0]] + s[1..];
    }
  }

  /** Sorting twice is sorting once. */
  lemma SortIdempotent<T>(s: seq<T>, key: T -> int)
    ensures SortBy(SortBy(s, key), key) == SortBy(s, key)
  {
    SortSortsAndPermutes(s, key);
    SortOfSorted(SortBy(s, key), key);
  }

  /** Two sorted permutations of each other, one with distinct keys, are
      the same sequence: whatever order std::sort picks among equal keys,
      with distinct keys its result is this model's. */
  lemma {:induction false} SortedUnique<T>(a: seq<T>, b: seq<T>, key: T -> int)
    requires StrictlySortedBy(a, key) && SortedBy(b, key)
    requires multiset(a) == multiset(b)
    ensures a == b
    decreases |a|
  {
    assert |a| == |multiset(a)| == |multiset(b)| == |b|;
    if |a| > 0 {
      assert a[0] == b[0] by { HeadsAgree(a, b, key); }
      assert a == [a[0]] + a[1..];
      assert b == [b[0]] + b[1..];
      assert multiset(a[1..]) == multiset(a) - multiset{a[0]};
      assert multiset(b[1..]) == multiset(b) - multiset{b[0]};
      SortedUnique(a[1..], b[1..], key);
    }
  }

  /** The heads of two such sequences are the same element: each is an
      element of the other, so neither key is below the other, and in `a`
      only its head carries the least key. */
  lemma HeadsAgree<T>(a: seq<T>, b: seq<T>, key: T -> int)
    requires StrictlySortedBy(a, key) && SortedBy(b, key)
    requires multiset(a) == multiset(b) && |a| > 0 && |b| > 0
    ensures a[0] == b[0]
  {
    assert b[0] in multiset(a);
    var i :| 0 <= i < |a| && a[i] == b[0];
    assert a[0] in multiset(b);
    var j :| 0 <= j < |b| && b[j] == a[0];
    assert key(b[0]) <= key(b[j]);
    assert i == 0;
  }

  /** No two elements share a key. */
  predicate DistinctBy<T>(s: seq<T>, key: T -> int) {
    forall i, j :: 0 <= i < j < |s| ==> key(s[i]) != key(s[j])
  }

  /** Sorting elements of distinct keys makes the keys strictly ascend. */
  lemma SortDistinct<T>(s: seq<T>, key: T -> int)
    requires DistinctBy(s, key)
    ensures StrictlySortedBy(SortBy(s, key), key)
  {
    var r := SortBy(s, key);
    SortSortsAndPermutes(s, key);
    forall i, j | 0 <= i < j < |r| ensures key(r[i]) < key(r[j]) {
      DistinctSlots(s, r, key, i, j);
    }
  }

  /** Two slots of a permutation of distinct-key elements never share a key. */
  lemma DistinctSlots<T>(s: seq<T>, r: seq<T>, key: T -> int, i: nat, j: nat)
    requires DistinctBy(s, key) && multiset(r) == multiset(s)
    requires i < j < |r|
    ensures key(r[i]) != key(r[j])
  {
    if key(r[i]) == key(r[j]) {
      assert r[i] in multiset(s);
      var a :| 0 <= a < |s| && s[a] == r[i];
      assert r[j] in multiset(s);
      var b :| 0 <= b < |s| && s[b] == r[j];
      assert a == b;
      TwoSlotsTwice(r, i, j);
      OnceInDistinct(s, key, a);
      assert false;
    }
  }

  /** An element at two positions occurs at least twice. */
  lemma TwoSlotsTwice<T>(s: seq<T>, i: nat, j: nat)
    requires i < j < |s| && s[i] == s[j]
    ensures multiset(s)[s[i]] >= 2
  {
    assert s == s[..i] + [s[i]] + s[i + 1..j] + [s[j]] + s[j + 1..];
  }

  /** Among elements of distinct keys each occurs once. */
  lemma {:induction false} OnceInDistinct<T>(s: seq<T>, key: T -> int, a: nat)
    requires DistinctBy(s, key) && a < |s|
    ensures multiset(s)[s[a]] == 1
    decreases |s|
  {
    assert s == [s[0]] + s[1..];
    if a == 0 {
      forall k | 0 <= k < |s[1..]| ensures s[1..][k] != s[0] {
        assert key(s[0]) != key(s[k + 1]);
      }
      assert s[0] !in s[1..];
    } else {
      OnceInDistinct(s[1..], key, a - 1);
      assert key(s[0]) != key(s[a]);
    }
  }
}
