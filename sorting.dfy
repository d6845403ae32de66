/** Ordering by a key, standing for Go's `sort.Slice` with a `less` that
    compares keys. `sort.Slice` is not stable; the model sorts by insertion,
    which is one of the orders `sort.Slice` may produce, and callers rely only
    on "ordered by key and a permutation of the input". */
module Sorting {

  /** `s` is ordered by `key`, ascending. */
  ghost predicate SortedBy<T>(s: seq<T>, key: T -> int) {
    forall i, j :: 0 <= i < j < |s| ==> key(s[i]) <= key(s[j])
  }

  /** Inserts `x` into the key-ordered `s` in front of the first element whose
      key is not smaller. */
  function InsertBy<T>(x: T, s: seq<T>, key: T -> int): (r: seq<T>)
    requires SortedBy(s, key)
    ensures SortedBy(r, key)
    ensures multiset(r) == multiset(s) + multiset{x}
    ensures |r| == |s| + 1
    ensures r[0] == x || (s != [] && r[0] == s[0])
  {
    if s == [] then [x]
    else if key(x) <= key(s[0]) then
      PrependSorted(x, s, key);
      [x] + s
    else
      var rest := InsertBy(x, s[1..], key);
      InsertBehindHead(x, s, rest, key);
      [s[0]] + rest
  }

  /** The step of `InsertBy` that keeps the head: `rest` is `x` inserted into
      the tail. */
  lemma InsertBehindHead<T>(x: T, s: seq<T>, rest: seq<T>, key: T -> int)
    requires SortedBy(s, key) && s != [] && key(s[0]) < key(x)
    requires SortedBy(rest, key) && multiset(rest) == multiset(s[1..]) + multiset{x}
    requires rest != [] && (rest[0] == x || (|s| > 1 && rest[0] == s[1]))
    ensures SortedBy([s[0]] + rest, key)
    ensures multiset([s[0]] + rest) == multiset(s) + multiset{x}
  {
    PrependSorted(s[0], rest, key);
    assert s == [s[0]] + s[1..];
  }

  /** An element no larger than the head of a key-ordered sequence may be put
      in front of it. */
  lemma PrependSorted<T>(y: T, t: seq<T>, key: T -> int)
    requires SortedBy(t, key) && (t != [] ==> key(y) <= key(t[0]))
    ensures SortedBy([y] + t, key)
  {
    var u := [y] + t;
    forall i, j | 0 <= i < j < |u| ensures key(u[i]) <= key(u[j]) {
      if i == 0 {
        assert u[j] == t[j - 1] && key(t[0]) <= key(t[j - 1]);
      } else {
        assert u[i] == t[i - 1] && u[j] == t[j - 1];
      }
    }
  }

  /** Sorts `s` by `key`: the result is ordered and is a permutation of `s`. */
  method SortBy<T>(s: seq<T>, key: T -> int) returns (r: seq<T>)
    ensures SortedBy(r, key)
    ensures multiset(r) == multiset(s)
  {
    r := [];
    for i := 0 to |s|
      invariant SortedBy(r, key)
      invariant multiset(r) == multiset(s[..i])
    {
      assert s[..i + 1] == s[..i] + [s[i]];
      r := InsertBy(s[i], r, key);
    }
    assert s[..|s|] == s;
  }
}
