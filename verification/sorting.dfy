/** Python's `sorted(items, key=...)` for the keys the statistics API sorts by:
    port numbers and flow ids. Both are compared as sequences of integers in
    lexicographic order, which is how Python compares strings (by code point)
    and how a one-element key compares numbers. */
module Sorting {

  /** `a <= b` in lexicographic order; a proper prefix comes first. */
  predicate LexLe(a: seq<int>, b: seq<int>)
    decreases |a|
  {
    |a| == 0 || (|b| > 0 && (a[0] < b[0] || (a[0] == b[0] && LexLe(a[1..], b[1..]))))
  }

  lemma {:induction false} LexTotal(a: seq<int>, b: seq<int>)
    ensures LexLe(a, b) || LexLe(b, a)
    decreases |a|
  {
    if |a| > 0 && |b| > 0 && a[0] == b[0] {
      LexTotal(a[1..], b[1..]);
    }
  }

  lemma {:induction false} LexTrans(a: seq<int>, b: seq<int>, c: seq<int>)
    requires LexLe(a, b) && LexLe(b, c)
    ensures LexLe(a, c)
    decreases |a|
  {
    if |a| > 0 && a[0] == b[0] && b[0] == c[0] {
      LexTrans(a[1..], b[1..], c[1..]);
    }
  }

  /** One-element keys compare as their numbers. */
  lemma LexSingle(x: int, y: int)
    ensures LexLe([x], [y]) <==> x <= y
  {
    assert [x][1..] == [];
  }

  /** The key of a string: its code points. */
  function CodePoints(s: string): (key: seq<int>)
    ensures |key| == |s| && forall i :: 0 <= i < |s| ==> key[i] == s[i] as int
  {
    seq(|s|, i requires 0 <= i < |s| => s[i] as int)
  }

  predicate SortedBy<T>(s: seq<T>, key: T -> seq<int>) {
    forall i, j :: 0 <= i < j < |s| ==> LexLe(key(s[i]), key(s[j]))
  }

  /** Insert `x` after every element whose key is not greater, so equal keys
      keep their order of arrival. */
  function Insert<T(==)>(sorted: seq<T>, x: T, key: T -> seq<int>): (r: seq<T>)
    requires SortedBy(sorted, key)
    ensures SortedBy(r, key)
    ensures multiset(r) == multiset(sorted) + multiset{x}
    ensures |r| == |sorted| + 1
    decreases |sorted|
  {
    if sorted == [] then [x]
    else
      var last := sorted[|sorted| - 1];
      var init := sorted[..|sorted| - 1];
      assert sorted == init + [last];
      if LexLe(key(last), key(x)) then
        assert SortedBy(sorted + [x], key) by {
          forall i | 0 <= i < |sorted| ensures LexLe(key(sorted[i]), key(x)) {
            if i < |sorted| - 1 {
              LexTrans(key(sorted[i]), key(last), key(x));
            }
          }
        }
        sorted + [x]
      else
        var r := Insert(init, x, key) + [last];
        assert SortedBy(r, key) by {
          var r' := Insert(init, x, key);
          forall i | 0 <= i < |r'| ensures LexLe(key(r'[i]), key(last)) {
            assert r'[i] in multiset(r');
            if r'[i] == x {
              LexTotal(key(last), key(x));
            } else {
              assert r'[i] in multiset(init);
              var k :| 0 <= k < |init| && init[k] == r'[i];
              assert sorted[k] == init[k];
            }
          }
        }
        r
  }

  /** `sorted(s, key=key)`: ordered by key, a permutation of `s`. */
  function SortBy<T(==)>(s: seq<T>, key: T -> seq<int>): (r: seq<T>)
    ensures SortedBy(r, key)
    ensures multiset(r) == multiset(s)
    ensures |r| == |s|
    decreases |s|
  {
    if s == [] then []
    else
      assert s == s[..|s| - 1] + [s[|s| - 1]];
      Insert(SortBy(s[..|s| - 1], key), s[|s| - 1], key)
  }

  /** An element is in the sorted list exactly when it is in the input. */
  lemma SortByMembers<T>(s: seq<T>, key: T -> seq<int>, x: T)
    ensures x in SortBy(s, key) <==> x in s
  {
    assert x in SortBy(s, key) <==> x in multiset(SortBy(s, key));
    assert x in s <==> x in multiset(s);
  }
}
