/** Generic sequence vocabulary shared by every module of the model: an
    order-preserving filter, the subsequence relation that states "keeps
    input order", duplicate freedom and first-occurrence deduplication. */
module Seqs {

  datatype Option<+T> = None | Some(value: T)

  /** The elements of `s` that satisfy `f`, in their original order
      (JavaScript's `Array.prototype.filter`). */
  function Filter<T>(f: T -> bool, s: seq<T>): (r: seq<T>)
    ensures |r| <= |s|
    ensures forall i :: 0 <= i < |r| ==> r[i] in s && f(r[i])
    ensures forall i :: 0 <= i < |s| && f(s[i]) ==> s[i] in r
    decreases |s|
  {
    if |s| == 0 then []
    else (if f(s[0]) then [s[0]] else []) + Filter(f, s[1..])
  }

  /** `a` can be obtained from `b` by deleting elements; the relative order
      of the kept elements is unchanged. */
  predicate Subseq<T(==)>(a: seq<T>, b: seq<T>)
    decreases |b|
  {
    |a| == 0 ||
    (|b| > 0 && ((a[0] == b[0] && Subseq(a[1..], b[1..])) || Subseq(a, b[1..])))
  }

  predicate NoDuplicates<T(==)>(s: seq<T>) {
    forall i, j :: 0 <= i < j < |s| ==> s[i] != s[j]
  }

  /** `y => y !== x`. */
  function Differs<T(==)>(x: T): T -> bool {
    y => y != x
  }

  /** `s.filter(y => y !== x)`: `s` with every occurrence of `x` removed. */
  function Without<T(==)>(s: seq<T>, x: T): (r: seq<T>)
    ensures |r| <= |s|
    ensures x !in r
    ensures forall i :: 0 <= i < |r| ==> r[i] in s
    ensures forall i :: 0 <= i < |s| && s[i] != x ==> s[i] in r
  {
    Filter(Differs(x), s)
  }

  /** Keeps the first occurrence of every element, in first-occurrence order
      (what `Array.from(new Set(s))` produces). */
  function Dedup<T(==)>(s: seq<T>): (r: seq<T>)
    ensures forall i :: 0 <= i < |r| ==> r[i] in s
    ensures forall i :: 0 <= i < |s| ==> s[i] in r
    ensures NoDuplicates(r)
    ensures |s| > 0 ==> |r| > 0 && r[0] == s[0]
    decreases |s|
  {
    if |s| == 0 then []
    else [s[0]] + Dedup(Without(s[1..], s[0]))
  }

  lemma {:induction false} FilterIsSubseq<T>(f: T -> bool, s: seq<T>)
    ensures Subseq(Filter(f, s), s)
    decreases |s|
  {
    if |s| > 0 {
      FilterIsSubseq(f, s[1..]);
      var r := Filter(f, s);
      if f(s[0]) {
        assert r[0] == s[0] && r[1..] == Filter(f, s[1..]);
      } else {
        assert r == Filter(f, s[1..]);
      }
    }
  }

  /** Filtering a sequence extended by one element extends the filtered
      sequence by that element exactly when it passes. */
  lemma {:induction false} FilterSnoc<T>(f: T -> bool, s: seq<T>, x: T)
    ensures Filter(f, s + [x]) == Filter(f, s) + (if f(x) then [x] else [])
    decreases |s|
  {
    if |s| > 0 {
      assert (s + [x])[1..] == s[1..] + [x];
      FilterSnoc(f, s[1..], x);
    }
  }

  /** Two filters in a row keep exactly the elements passing both. */
  lemma FilterTwice<T>(f: T -> bool, g: T -> bool, s: seq<T>)
    ensures var r := Filter(g, Filter(f, s));
      forall i :: 0 <= i < |r| ==> f(r[i]) && g(r[i])
    ensures var r := Filter(g, Filter(f, s));
      forall i :: 0 <= i < |s| && f(s[i]) && g(s[i]) ==> s[i] in r
  {
    var b := Filter(f, s);
    var r := Filter(g, b);
    forall i | 0 <= i < |r| ensures f(r[i]) && g(r[i]) {
      var j :| 0 <= j < |b| && b[j] == r[i];
    }
    forall i | 0 <= i < |s| && f(s[i]) && g(s[i]) ensures s[i] in r {
      var j :| 0 <= j < |b| && b[j] == s[i];
    }
  }

  /** An element in front passing both filters stays in front. */
  lemma FilterTwiceFront<T>(f: T -> bool, g: T -> bool, x: T, s: seq<T>)
    requires f(x) && g(x)
    ensures var r := Filter(g, Filter(f, [x] + s)); |r| > 0 && r[0] == x
  {
    assert ([x] + s)[1..] == s;
    assert Filter(f, [x] + s) == [x] + Filter(f, s);
  }

  /** A filter whose predicate holds everywhere keeps the whole sequence. */
  lemma {:induction false} FilterAll<T>(f: T -> bool, s: seq<T>)
    requires forall i :: 0 <= i < |s| ==> f(s[i])
    ensures Filter(f, s) == s
    decreases |s|
  {
    if |s| > 0 {
      FilterAll(f, s[1..]);
    }
  }

  lemma {:induction false} SubseqRefl<T>(s: seq<T>)
    ensures Subseq(s, s)
    decreases |s|
  {
    if |s| > 0 {
      SubseqRefl(s[1..]);
    }
  }

  lemma {:induction false} SubseqMembers<T>(a: seq<T>, b: seq<T>)
    requires Subseq(a, b)
    ensures |a| <= |b|
    ensures forall i :: 0 <= i < |a| ==> a[i] in b
    decreases |b|
  {
    if |a| > 0 {
      if a[0] == b[0] && Subseq(a[1..], b[1..]) {
        SubseqMembers(a[1..], b[1..]);
        forall i | 0 <= i < |a| ensures a[i] in b {
          if i > 0 {
            assert a[i] == a[1..][i - 1];
          }
        }
      } else {
        SubseqMembers(a, b[1..]);
      }
    }
  }

  lemma {:induction false} SubseqTrans<T>(a: seq<T>, b: seq<T>, c: seq<T>)
    requires Subseq(a, b) && Subseq(b, c)
    ensures Subseq(a, c)
    decreases |c|
  {
    if |a| > 0 {
      if Subseq(b, c[1..]) {
        SubseqTrans(a, b, c[1..]);
      } else if a[0] == b[0] && Subseq(a[1..], b[1..]) {
        SubseqTrans(a[1..], b[1..], c[1..]);
      } else {
        SubseqTrans(a, b[1..], c[1..]);
      }
    }
  }

  lemma WithoutSubseq<T>(s: seq<T>, x: T)
    ensures Subseq(Without(s, x), s)
  {
    FilterIsSubseq(Differs(x), s);
  }

  lemma WithoutAbsent<T>(s: seq<T>, x: T)
    requires x !in s
    ensures Without(s, x) == s
  {
    FilterAll(Differs(x), s);
  }

  /** Removing `x` leaves the count of every other element unchanged. */
  lemma {:induction false} WithoutMultiset<T>(s: seq<T>, x: T)
    ensures multiset(Without(s, x)) == multiset(s)[x := 0]
    decreases |s|
  {
    if |s| > 0 {
      WithoutMultiset(s[1..], x);
      assert s == [s[0]] + s[1..];
      assert Without(s, x) == (if s[0] != x then [s[0]] else []) + Without(s[1..], x);
    }
  }

  /** A subsequence of a duplicate-free sequence is duplicate-free. */
  lemma {:induction false} SubseqDistinct<T>(a: seq<T>, b: seq<T>)
    requires Subseq(a, b) && NoDuplicates(b)
    ensures NoDuplicates(a)
    decreases |b|
  {
    if |a| > 0 {
      if a[0] == b[0] && Subseq(a[1..], b[1..]) {
        SubseqDistinct(a[1..], b[1..]);
        SubseqMembers(a[1..], b[1..]);
        forall i | 0 < i < |a| ensures a[0] != a[i] {
          assert a[i] == a[1..][i - 1];
          var k :| 0 <= k < |b[1..]| && b[1..][k] == a[i];
          assert b[k + 1] == a[i];
        }
        forall i, j | 0 <= i < j < |a| ensures a[i] != a[j] {
          if i > 0 {
            assert a[i] == a[1..][i - 1] && a[j] == a[1..][j - 1];
          }
        }
      } else {
        SubseqDistinct(a, b[1..]);
      }
    }
  }

  /** Dedup only deletes elements. */
  lemma {:induction false} DedupIsSubseq<T>(s: seq<T>)
    ensures Subseq(Dedup(s), s)
    decreases |s|
  {
    if |s| > 0 {
      var rest := Without(s[1..], s[0]);
      DedupIsSubseq(rest);
      WithoutSubseq(s[1..], s[0]);
      SubseqTrans(Dedup(rest), rest, s[1..]);
      var r := Dedup(s);
      assert r[0] == s[0] && r[1..] == Dedup(rest);
    }
  }

  /** A duplicate-free sequence is its own deduplication. */
  lemma {:induction false} DedupOfDistinct<T>(s: seq<T>)
    requires NoDuplicates(s)
    ensures Dedup(s) == s
    decreases |s|
  {
    if |s| > 0 {
      assert forall k :: 0 <= k < |s[1..]| ==> s[1..][k] == s[k + 1];
      WithoutAbsent(s[1..], s[0]);
      DedupOfDistinct(s[1..]);
    }
  }

  /** Repeating the head of a duplicate-free sequence in front of it and
      deduplicating gives the sequence back. */
  lemma DedupRepeatedHead<T>(r: seq<T>)
    requires |r| > 0 && NoDuplicates(r)
    ensures Dedup([r[0]] + r) == r
  {
    var x, t := r[0], r[1..];
    assert r == [x] + t;
    DedupCons(x, r);
    WithoutDistinctHead(r);
    DedupOfDistinct(t);
  }

  /** One step of `Dedup` on a sequence with a known head. */
  lemma DedupCons<T>(x: T, s: seq<T>)
    ensures Dedup([x] + s) == [x] + Dedup(Without(s, x))
  {
    assert ([x] + s)[1..] == s;
  }

  /** Removing the head of a duplicate-free sequence leaves its tail, which
      is duplicate-free too. */
  lemma WithoutDistinctHead<T>(r: seq<T>)
    requires |r| > 0 && NoDuplicates(r)
    ensures Without(r, r[0]) == r[1..] && NoDuplicates(r[1..])
  {
    var x, tail := r[0], r[1..];
    FilterDropHead(Differs(x), r);
    assert NoDuplicates(tail) && x !in tail by {
      assert forall k :: 0 <= k < |tail| ==> tail[k] == r[k + 1];
    }
    WithoutAbsent(tail, x);
  }

  /** The index of the first occurrence of `x` in `s`. */
  function FirstIndex<T(==)>(s: seq<T>, x: T): (i: nat)
    requires x in s
    ensures i < |s| && s[i] == x
    ensures forall k :: 0 <= k < i ==> s[k] != x
    decreases |s|
  {
    if s[0] == x then 0 else 1 + FirstIndex(s[1..], x)
  }

  /** Every element of `r` occurs in `s`, and `r` lists them in the order
      of their first occurrences in `s`. */
  predicate InFirstOrder<T(==)>(r: seq<T>, s: seq<T>) {
    && (forall i :: 0 <= i < |r| ==> r[i] in s)
    && (forall i, j :: 0 <= i < j < |r| ==> FirstIndex(s, r[i]) < FirstIndex(s, r[j]))
  }

  /** Filtering keeps the order of first occurrences of the kept elements. */
  lemma {:induction false} FilterFirstIndex<T>(f: T -> bool, s: seq<T>, x: T, y: T)
    requires x in Filter(f, s) && y in Filter(f, s)
    ensures x in s && y in s
    ensures FirstIndex(Filter(f, s), x) < FirstIndex(Filter(f, s), y) <==> FirstIndex(s, x) < FirstIndex(s, y)
    decreases |s|
  {
    var r := Filter(f, s);
    FilterHead(f, s);
    if s[0] != x && s[0] != y {
      if f(s[0]) {
        assert r == [s[0]] + Filter(f, s[1..]);
        assert x in Filter(f, s[1..]) && y in Filter(f, s[1..]);
      } else {
        assert r == Filter(f, s[1..]);
      }
      FilterFirstIndex(f, s[1..], x, y);
    } else {
      assert f(s[0]) && r[0] == s[0];
    }
  }

  /** `Dedup` lists the elements in the order of their first occurrences. */
  lemma {:induction false} DedupInFirstOrder<T>(s: seq<T>)
    ensures InFirstOrder(Dedup(s), s)
    decreases |s|
  {
    if |s| > 0 {
      var x, t := s[0], s[1..];
      DedupInFirstOrder(Without(t, x));
      DedupCons(x, t);
      assert s == [x] + t;
      FirstOrderCons(x, t, Dedup(Without(t, x)));
    }
  }

  /** One step of `DedupInFirstOrder`: putting the head in front of a list
      in first order of the rest with the head removed. */
  lemma FirstOrderCons<T>(x: T, t: seq<T>, d: seq<T>)
    requires InFirstOrder(d, Without(t, x))
    ensures InFirstOrder([x] + d, [x] + t)
  {
    var s, r, w := [x] + t, [x] + d, Without(t, x);
    assert s[1..] == t;
    forall i | 0 <= i < |r| ensures r[i] in s {
      if i > 0 {
        assert r[i] == d[i - 1] && d[i - 1] in w;
      }
    }
    forall i, j | 0 <= i < j < |r| ensures FirstIndex(s, r[i]) < FirstIndex(s, r[j]) {
      var b := d[j - 1];
      assert r[j] == b && b in w && b != x;
      FirstIndexTail(s, b);
      if i > 0 {
        var a := d[i - 1];
        assert r[i] == a && a in w && a != x;
        assert FirstIndex(w, a) < FirstIndex(w, b);
        FirstIndexTail(s, a);
        FilterFirstIndex(Differs(x), t, a, b);
      }
    }
  }

  /** Past a different head, the first index is one more than in the tail. */
  lemma FirstIndexTail<T>(s: seq<T>, y: T)
    requires y in s && y != s[0]
    ensures y in s[1..] && FirstIndex(s, y) == 1 + FirstIndex(s[1..], y)
  {
  }

  /** Filtering keeps every copy of a passing element and no copy of any
      other. */
  lemma {:induction false} FilterMultiset<T>(f: T -> bool, s: seq<T>, x: T)
    ensures multiset(Filter(f, s))[x] == if f(x) then multiset(s)[x] else 0
    decreases |s|
  {
    if |s| > 0 {
      FilterMultiset(f, s[1..], x);
      FilterHead(f, s);
      assert s == [s[0]] + s[1..];
    }
  }

  /** One step of `Filter`. */
  lemma FilterHead<T>(f: T -> bool, s: seq<T>)
    requires |s| > 0
    ensures Filter(f, s) == (if f(s[0]) then [s[0]] else []) + Filter(f, s[1..])
  {
  }

  lemma FilterDropHead<T>(f: T -> bool, s: seq<T>)
    requires |s| > 0 && !f(s[0])
    ensures Filter(f, s) == Filter(f, s[1..])
  {
  }

  /** The elements whose key is `k`, in order. */
  function WithKey<T, K(==)>(key: T -> K, s: seq<T>, k: K): seq<T> {
    Filter(KeyIs(key, k), s)
  }

  function KeyIs<T, K(==)>(key: T -> K, k: K): T -> bool {
    (x: T) => key(x) == k
  }

  /** `map.get(k) || []`. */
  function Bucket<T, K>(groups: map<K, seq<T>>, k: K): seq<T> {
    if k in groups then groups[k] else []
  }

  /** Appends every element, in order, to the group of its key; only keys
      that occur get a group. */
  function GroupBy<T, K(==,!new)>(key: T -> K, s: seq<T>): (m: map<K, seq<T>>)
    ensures forall k :: Bucket(m, k) == WithKey(key, s, k)
    ensures forall k :: k in m ==> |m[k]| > 0
    decreases |s|
  {
    if |s| == 0 then map[]
    else
      var front := s[..|s| - 1];
      var x := s[|s| - 1];
      var m0 := GroupBy(key, front);
      var m := m0[key(x) := Bucket(m0, key(x)) + [x]];
      assert s == front + [x];
      forall k ensures Bucket(m, k) == WithKey(key, s, k) {
        BucketSnoc(key, m0, front, x, k);
      }
      assert forall k :: k in m ==> |m[k]| > 0 by {
        forall k | k in m ensures |m[k]| > 0 {
          if k != key(x) {
            assert m[k] == m0[k];
          }
        }
      }
      m
  }

  /** Adding one element to the group of its key, as `GroupBy` does,
      keeps every bucket equal to the filtered sequence. */
  lemma BucketSnoc<T, K>(key: T -> K, m0: map<K, seq<T>>, front: seq<T>, x: T, k: K)
    requires Bucket(m0, k) == WithKey(key, front, k)
    ensures Bucket(m0[key(x) := Bucket(m0, key(x)) + [x]], k) == WithKey(key, front + [x], k)
  {
    FilterSnoc(KeyIs(key, k), front, x);
    if k == key(x) {
      assert KeyIs(key, k)(x);
    } else {
      assert !KeyIs(key, k)(x);
    }
  }

  /** A key has a group exactly when some element has that key. */
  lemma GroupByKeys<T, K(!new)>(key: T -> K, s: seq<T>, k: K)
    ensures k in GroupBy(key, s) <==> exists i :: 0 <= i < |s| && key(s[i]) == k
  {
    var m := GroupBy(key, s);
    var b := WithKey(key, s, k);
    assert Bucket(m, k) == b;
    if k in m {
      assert |b| > 0;
      assert b[0] in s && KeyIs(key, k)(b[0]);
      var i :| 0 <= i < |s| && s[i] == b[0];
      assert key(s[i]) == k;
    }
    if exists i :: 0 <= i < |s| && key(s[i]) == k {
      var i :| 0 <= i < |s| && key(s[i]) == k;
      assert KeyIs(key, k)(s[i]);
      assert s[i] in b;
    }
  }

  /** The total size of the groups of `keys`. */
  function GroupSizes<T, K>(groups: map<K, seq<T>>, keys: seq<K>): nat {
    if |keys| == 0 then 0 else |Bucket(groups, keys[0])| + GroupSizes(groups, keys[1..])
  }

  /** The number of positions of `s` holding `x`. */
  function Occurrences<T(==)>(s: seq<T>, x: T): nat {
    if |s| == 0 then 0 else (if s[0] == x then 1 else 0) + Occurrences(s[1..], x)
  }

  lemma {:induction false} OccursNot<T>(s: seq<T>, x: T)
    requires x !in s
    ensures Occurrences(s, x) == 0
    decreases |s|
  {
    if |s| > 0 {
      OccursNot(s[1..], x);
    }
  }

  lemma {:induction false} OccursOnce<T>(s: seq<T>, x: T)
    requires NoDuplicates(s) && x in s
    ensures Occurrences(s, x) == 1
    decreases |s|
  {
    if s[0] == x {
      OccursNot(s[1..], x);
    } else {
      OccursOnce(s[1..], x);
    }
  }

  lemma {:induction false} GroupSizesEmpty<T, K(!new)>(key: T -> K, keys: seq<K>)
    ensures GroupSizes(GroupBy(key, []), keys) == 0
    decreases |keys|
  {
    if |keys| > 0 {
      GroupSizesEmpty(key, keys[1..]);
    }
  }

  /** An element added in front adds one to the group of its key only. */
  lemma {:induction false} GroupSizesCons<T, K(!new)>(key: T -> K, x: T, rest: seq<T>, keys: seq<K>)
    ensures GroupSizes(GroupBy(key, [x] + rest), keys)
            == Occurrences(keys, key(x)) + GroupSizes(GroupBy(key, rest), keys)
    decreases |keys|
  {
    if |keys| > 0 {
      assert ([x] + rest)[1..] == rest;
      GroupSizesCons(key, x, rest, keys[1..]);
    }
  }

  /** Over duplicate-free keys covering every element, the group sizes add
      up to the number of elements. */
  lemma {:induction false} GroupSizesCover<T, K(!new)>(key: T -> K, s: seq<T>, keys: seq<K>)
    requires NoDuplicates(keys)
    requires forall i :: 0 <= i < |s| ==> key(s[i]) in keys
    ensures GroupSizes(GroupBy(key, s), keys) == |s|
    decreases |s|
  {
    if |s| == 0 {
      GroupSizesEmpty(key, keys);
    } else {
      var x, rest := s[0], s[1..];
      assert s == [x] + rest;
      forall i | 0 <= i < |rest| ensures key(rest[i]) in keys {
        assert rest[i] == s[i + 1];
      }
      GroupSizesCover(key, rest, keys);
      GroupSizesCons(key, x, rest, keys);
      OccursOnce(keys, key(x));
    }
  }
}
