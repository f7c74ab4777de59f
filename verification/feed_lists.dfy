/** The small list transitions of the campus feed's in-memory state: the
    viewing history kept by `openPostDetail`, the love/save/follow toggles
    and the `cn` class-name joiner. Ids are any comparable values. */
module FeedLists {
  import opened Seqs
  import opened Text

  /** The most entries the viewing history keeps. */
  const HistoryLimit: nat := 50

  function Min(a: int, b: int): int {
    if a < b then a else b
  }

  /** `s.slice(0, n)`. */
  function Take<T>(s: seq<T>, n: nat): (r: seq<T>)
    ensures |r| == (if |s| < n then |s| else n)
    ensures r == s[..|r|]
  {
    if |s| <= n then s else s[..n]
  }

  lemma {:induction false} PrefixSubseq<T>(s: seq<T>, n: nat)
    requires n <= |s|
    ensures Subseq(s[..n], s)
    decreases |s|
  {
    if n > 0 {
      assert s[..n][1..] == s[1..][..n - 1];
      PrefixSubseq(s[1..], n - 1);
    }
  }

  // ---------------------------------------------------------------------
  // Viewing history

  /** `openPostDetail(id)`: the history with `id` moved (or added) to the
      front, cut to the first `HistoryLimit` entries. */
  function OpenPostDetail<T(==)>(history: seq<T>, id: T): (r: seq<T>)
    ensures 0 < |r| <= HistoryLimit && r[0] == id
    ensures id !in r[1..]
    ensures Subseq(r[1..], history)
    ensures forall i :: 0 <= i < |r| ==> r[i] == id || r[i] in history
    ensures |history| < HistoryLimit ==> forall i :: 0 <= i < |history| ==> history[i] in r
    ensures |r| - 1 == Min(|Without(history, id)|, HistoryLimit - 1)
    ensures r[1..] == Without(history, id)[..|r| - 1]
  {
    var rest := Without(history, id);
    var kept := Take(rest, HistoryLimit - 1);
    var r := Take([id] + rest, HistoryLimit);
    assert r == [id] + kept;
    assert r[1..] == kept;
    WithoutSubseq(history, id);
    PrefixSubseq(rest, |kept|);
    SubseqTrans(kept, rest, history);
    r
  }

  /** Opening the same post twice in a row changes nothing the second time. */
  lemma OpenPostDetailIdempotent<T>(history: seq<T>, id: T)
    ensures OpenPostDetail(OpenPostDetail(history, id), id) == OpenPostDetail(history, id)
  {
    var r := OpenPostDetail(history, id);
    assert r == [id] + r[1..];
    WithoutAbsent(r[1..], id);
    assert Without(r, id) == Without(r[1..], id);
  }

  /** A history without repeats stays without repeats. */
  lemma OpenPostDetailDistinct<T>(history: seq<T>, id: T)
    requires NoDuplicates(history)
    ensures NoDuplicates(OpenPostDetail(history, id))
  {
    var r := OpenPostDetail(history, id);
    SubseqDistinct(r[1..], history);
    forall i, j | 0 <= i < j < |r| ensures r[i] != r[j] {
      assert r[j] == r[1..][j - 1];
      if i > 0 {
        assert r[i] == r[1..][i - 1];
      }
    }
  }

  // ---------------------------------------------------------------------
  // Love, save and follow toggles

  /** `toggleLove`, `toggleSave` and `toggleFollow`: a present id is removed
      with all its copies, an absent id is put in front. */
  function Toggle<T(==)>(ids: seq<T>, x: T): (r: seq<T>)
    ensures x in r <==> x !in ids
    ensures forall i :: 0 <= i < |ids| && ids[i] != x ==> ids[i] in r
    ensures forall i :: 0 <= i < |r| && r[i] != x ==> r[i] in ids
    ensures x !in ids ==> r == [x] + ids
    ensures x in ids ==> r == Without(ids, x)
  {
    if x in ids then Without(ids, x) else [x] + ids
  }

  /** Toggling twice restores the list exactly when the id was absent, and
      restores its contents when the list had no repeats. */
  lemma ToggleTwice<T>(ids: seq<T>, x: T)
    ensures x !in ids ==> Toggle(Toggle(ids, x), x) == ids
    ensures NoDuplicates(ids) ==> multiset(Toggle(Toggle(ids, x), x)) == multiset(ids)
  {
    if x !in ids {
      assert Toggle(ids, x) == [x] + ids;
      WithoutAbsent(ids, x);
      assert Without([x] + ids, x) == Without(ids, x);
    } else if NoDuplicates(ids) {
      WithoutMultiset(ids, x);
      OccursOnceMultiset(ids, x);
      assert multiset([x] + Without(ids, x)) == multiset(ids);
    }
  }

  lemma OccursOnceMultiset<T>(s: seq<T>, x: T)
    requires NoDuplicates(s) && x in s
    ensures multiset(s)[x] == 1
  {
    var i :| 0 <= i < |s| && s[i] == x;
    assert s == s[..i] + [x] + s[i + 1..];
    assert x !in s[..i] by {
      assert forall k :: 0 <= k < i ==> s[..i][k] == s[k];
    }
    assert x !in s[i + 1..] by {
      assert forall k :: i + 1 <= k < |s| ==> s[i + 1..][k - i - 1] == s[k];
    }
  }

  /** A toggle keeps a repeat-free list repeat-free. */
  lemma ToggleDistinct<T>(ids: seq<T>, x: T)
    requires NoDuplicates(ids)
    ensures NoDuplicates(Toggle(ids, x))
  {
    if x in ids {
      WithoutSubseq(ids, x);
      SubseqDistinct(Without(ids, x), ids);
    } else {
      var r := [x] + ids;
      forall i, j | 0 <= i < j < |r| ensures r[i] != r[j] {
        assert r[j] == ids[j - 1];
        if i > 0 {
          assert r[i] == ids[i - 1];
        }
      }
    }
  }

  // ---------------------------------------------------------------------
  // Class names

  /** An argument of `cn`: a class name, or `false`, `null` or `undefined`. */
  datatype ClassArg = Name(name: string) | Off

  /** `Boolean(arg)`: a non-empty class name. */
  predicate Kept(a: ClassArg) {
    a.Name? && a.name != ""
  }

  /** The truthy arguments: the non-empty names, in order. */
  function Classes(args: seq<ClassArg>): (r: seq<string>)
    ensures forall i :: 0 <= i < |r| ==> |r[i]| > 0
    ensures forall i :: 0 <= i < |args| && args[i].Name? && args[i].name != "" ==> args[i].name in r
    ensures forall i :: 0 <= i < |r| ==> Name(r[i]) in args
  {
    if |args| == 0 then []
    else
      var rest := Classes(args[1..]);
      assert forall i :: 0 < i < |args| ==> args[i] == args[1..][i - 1];
      if Kept(args[0]) then [args[0].name] + rest else rest
  }

  /** The kept names are exactly the truthy arguments, in argument order and
      with their repetitions: the filter `classes.filter(Boolean)` applies. */
  lemma {:induction false} ClassesInOrder(args: seq<ClassArg>)
    ensures |Classes(args)| == |Filter(Kept, args)|
    ensures forall i :: 0 <= i < |Classes(args)| ==> Filter(Kept, args)[i] == Name(Classes(args)[i])
    decreases |args|
  {
    if |args| > 0 {
      ClassesInOrder(args[1..]);
      FilterHead(Kept, args);
      var r, rest := Classes(args), Classes(args[1..]);
      var k, kt := Filter(Kept, args), Filter(Kept, args[1..]);
      if Kept(args[0]) {
        assert r == [args[0].name] + rest && k == [args[0]] + kt;
        assert forall i :: 0 < i < |r| ==> r[i] == rest[i - 1] && k[i] == kt[i - 1];
      } else {
        assert r == rest && k == kt;
      }
    }
  }

  /** `cn(...classes)`: the truthy arguments joined by single spaces. */
  function Cn(args: seq<ClassArg>): string {
    Join(Classes(args), " ")
  }

  /** When no class name contains a space, splitting the joined text on
      spaces recovers exactly the truthy arguments. */
  lemma CnSplits(args: seq<ClassArg>)
    requires forall i :: 0 <= i < |args| && args[i].Name? ==> ' ' !in args[i].name
    requires Classes(args) != []
    ensures Split(Cn(args), ' ') == Classes(args)
  {
    var cs := Classes(args);
    forall i | 0 <= i < |cs| ensures ' ' !in cs[i] {
      var k :| 0 <= k < |args| && args[k] == Name(cs[i]);
    }
    SplitJoin(cs, ' ');
  }
}
