/**
 * Descending sort by an integer key, as done by MongoDB's `sort({field: -1})`
 * and by JavaScript's `Array.prototype.sort` with a `b - a` comparator, and the
 * 1-based rank numbering that both the server and the client attach to a
 * sorted list.
 */
module Ordering {

  /** Keys never increase from left to right. */
  ghost predicate NonIncreasing<T>(s: seq<T>, key: T -> int) {
    forall i, j :: 0 <= i < j < |s| ==> key(s[i]) >= key(s[j])
  }

  /** Keys strictly decrease from left to right. */
  ghost predicate StrictlyDecreasing<T>(s: seq<T>, key: T -> int) {
    forall i, j :: 0 <= i < j < |s| ==> key(s[i]) > key(s[j])
  }

  /** Keys strictly increase from left to right. */
  ghost predicate StrictlyIncreasing<T>(s: seq<T>, key: T -> int) {
    forall i, j :: 0 <= i < j < |s| ==> key(s[i]) < key(s[j])
  }

  /** Inserts `x` into `t` in front of the first element whose key is not larger. */
  function Insert<T>(x: T, t: seq<T>, key: T -> int): (r: seq<T>)
    ensures multiset(r) == multiset(t) + multiset{x}
    ensures |r| == |t| + 1
    decreases |t|
  {
    if t == [] || key(t[0]) <= key(x) then
      [x] + t
    else
      assert t == [t[0]] + t[1..];
      [t[0]] + Insert(x, t[1..], key)
  }

  /** An element whose key is no smaller than any key of `s` may go in front of it. */
  lemma PrependKeepsNonIncreasing<T>(y: T, s: seq<T>, key: T -> int)
    requires NonIncreasing(s, key)
    requires forall i :: 0 <= i < |s| ==> key(y) >= key(s[i])
    ensures NonIncreasing([y] + s, key)
  {
    var r := [y] + s;
    forall i, j | 0 <= i < j < |r| ensures key(r[i]) >= key(r[j]) {
      assert r[j] == s[j - 1];
      if i > 0 { assert r[i] == s[i - 1]; }
    }
  }

  /** An element whose key is below every key of `s` may go in front of it. */
  lemma PrependKeepsIncreasing<T>(y: T, s: seq<T>, key: T -> int)
    requires StrictlyIncreasing(s, key)
    requires forall i :: 0 <= i < |s| ==> key(y) < key(s[i])
    ensures StrictlyIncreasing([y] + s, key)
  {
    var r := [y] + s;
    forall i, j | 0 <= i < j < |r| ensures key(r[i]) < key(r[j]) {
      assert r[j] == s[j - 1];
      if i > 0 { assert r[i] == s[i - 1]; }
    }
  }

  /** An element whose key exceeds every key of `s` may go after it. */
  lemma AppendKeepsIncreasing<T>(s: seq<T>, y: T, key: T -> int)
    requires StrictlyIncreasing(s, key)
    requires forall i :: 0 <= i < |s| ==> key(s[i]) < key(y)
    ensures StrictlyIncreasing(s + [y], key)
  {
    var r := s + [y];
    forall i, j | 0 <= i < j < |r| ensures key(r[i]) < key(r[j]) {
      assert r[i] == s[i];
      if j < |s| { assert r[j] == s[j]; }
    }
  }

  lemma {:induction false} InsertKeepsOrder<T>(x: T, t: seq<T>, key: T -> int)
    requires NonIncreasing(t, key)
    ensures NonIncreasing(Insert(x, t, key), key)
    decreases |t|
  {
    if !(t == [] || key(t[0]) <= key(x)) {
      var rest := Insert(x, t[1..], key);
      InsertKeepsOrder(x, t[1..], key);
      forall i | 0 <= i < |rest| ensures key(t[0]) >= key(rest[i]) {
        assert rest[i] in multiset(rest);
        if rest[i] != x {
          assert rest[i] in multiset(t[1..]);
          var j :| 0 <= j < |t[1..]| && t[1..][j] == rest[i];
          assert t[1 + j] == rest[i];
        }
      }
      PrependKeepsNonIncreasing(t[0], rest, key);
    }
  }

  /** Insertion sort into non-increasing key order. */
  function SortDesc<T>(s: seq<T>, key: T -> int): (r: seq<T>)
    ensures multiset(r) == multiset(s)
    ensures |r| == |s|
    ensures NonIncreasing(r, key)
  {
    if s == [] then []
    else
      assert s == [s[0]] + s[1..];
      var sorted := SortDesc(s[1..], key);
      InsertKeepsOrder(s[0], sorted, key);
      Insert(s[0], sorted, key)
  }

  /** `s` back to front. */
  function Reverse<T>(s: seq<T>): (r: seq<T>)
    ensures |r| == |s|
    ensures forall i :: 0 <= i < |s| ==> r[i] == s[|s| - 1 - i]
  {
    if s == [] then [] else Reverse(s[1..]) + [s[0]]
  }

  lemma {:induction false} ReversePermutes<T>(s: seq<T>)
    ensures multiset(Reverse(s)) == multiset(s)
  {
    if s != [] {
      ReversePermutes(s[1..]);
      assert s == [s[0]] + s[1..];
    }
  }

  /** Reversing a strictly increasing sequence gives a strictly decreasing one. */
  lemma ReverseOfIncreasing<T>(s: seq<T>, key: T -> int)
    requires StrictlyIncreasing(s, key)
    ensures StrictlyDecreasing(Reverse(s), key)
  {
    var r := Reverse(s);
    forall i, j | 0 <= i < j < |r| ensures key(r[i]) > key(r[j]) {
      assert r[i] == s[|s| - 1 - i] && r[j] == s[|s| - 1 - j];
    }
  }

  /**
   * Two non-increasing orderings of the same elements, however they order
   * ties, start with the same key.
   */
  lemma HeadKeysAgree<T>(a: seq<T>, b: seq<T>, key: T -> int)
    requires multiset(a) == multiset(b) && a != []
    requires NonIncreasing(a, key) && NonIncreasing(b, key)
    ensures b != [] && key(a[0]) == key(b[0])
  {
    assert a[0] in multiset(b);
    var j :| 0 <= j < |b| && b[j] == a[0];
    assert b[0] in multiset(a);
    var k :| 0 <= k < |a| && a[k] == b[0];
    assert key(a[0]) >= key(a[k]);
    assert key(b[0]) >= key(b[j]);
  }

  /** Both sequences start with the element of largest key. */
  lemma HeadsAgree<T>(a: seq<T>, b: seq<T>, key: T -> int)
    requires multiset(a) == multiset(b) && a != []
    requires NonIncreasing(a, key)
    requires StrictlyDecreasing(b, key)
    ensures b != [] && a[0] == b[0]
  {
    assert a[0] in multiset(b);
    var j :| 0 <= j < |b| && b[j] == a[0];
    assert b[0] in multiset(a);
    var k :| 0 <= k < |a| && a[k] == b[0];
    assert key(a[0]) >= key(a[k]);
    if j != 0 {
      // b[0] would then outrank a[0], the largest element of a
      assert false;
    }
  }

  /**
   * A non-increasing permutation of a strictly decreasing sequence is that
   * sequence: when keys are distinct, sorting leaves no freedom.
   */
  lemma {:induction false} SortedPermutationUnique<T>(a: seq<T>, b: seq<T>, key: T -> int)
    requires multiset(a) == multiset(b)
    requires NonIncreasing(a, key)
    requires StrictlyDecreasing(b, key)
    ensures a == b
    decreases |a|
  {
    if a == [] {
      assert |b| == |multiset(b)| == 0;
    } else {
      HeadsAgree(a, b, key);
      assert a == [a[0]] + a[1..];
      assert b == [b[0]] + b[1..];
      assert multiset(a) == multiset{a[0]} + multiset(a[1..]);
      assert multiset(b) == multiset{b[0]} + multiset(b[1..]);
      assert multiset(a[1..]) == multiset(a) - multiset{a[0]};
      assert multiset(b[1..]) == multiset(b) - multiset{b[0]};
      SortedPermutationUnique(a[1..], b[1..], key);
    }
  }

  /**
   * Sorting a sequence whose keys strictly increase yields its reversal: a
   * descending sort of an append-only log with increasing timestamps is the
   * log read newest first.
   */
  lemma SortOfIncreasingIsReverse<T>(s: seq<T>, key: T -> int)
    requires StrictlyIncreasing(s, key)
    ensures SortDesc(s, key) == Reverse(s)
  {
    ReverseOfIncreasing(s, key);
    ReversePermutes(s);
    SortedPermutationUnique(SortDesc(s, key), Reverse(s), key);
  }

  /** An element paired with its position-derived rank. */
  datatype Ranked<T> = Ranked(item: T, rank: int)

  /** Numbers the elements of `s` consecutively from `first`, as `map((x, index) => index + first)`. */
  function WithRanks<T>(s: seq<T>, first: int): (r: seq<Ranked<T>>)
    ensures |r| == |s|
    ensures forall i :: 0 <= i < |s| ==> r[i].item == s[i] && r[i].rank == first + i
  {
    seq(|s|, i requires 0 <= i < |s| => Ranked(s[i], first + i))
  }

  /** The first `n` elements, or all of them when there are fewer, as `.limit(n)` and `slice(0, n)`. */
  function Take<T>(s: seq<T>, n: nat): (r: seq<T>)
    ensures |r| == if |s| < n then |s| else n
    ensures r == s[..|r|]
  {
    if |s| < n then s else s[..n]
  }
}
