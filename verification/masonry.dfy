/** The round-robin split behind the feed's masonry layout: item `i` goes
    to column `i % columns`, and every column keeps input order. */
module Masonry {
  import opened Seqs

  /** The reference column: the items whose position leaves remainder `c`
      when divided by `columns`, in order. */
  function ColumnOf<T>(items: seq<T>, columns: nat, c: nat): seq<T>
    requires columns > 0
    decreases |items|
  {
    if |items| == 0 then []
    else
      var n := |items| - 1;
      ColumnOf(items[..n], columns, c) + (if n % columns == c then [items[n]] else [])
  }

  /** `useMasonry(items, columns)`: pushes every item, in order, onto the
      column its position selects. */
  method Split<T>(items: seq<T>, columns: nat) returns (cols: seq<seq<T>>)
    requires columns > 0
    ensures |cols| == columns
    ensures forall c :: 0 <= c < columns ==> cols[c] == ColumnOf(items, columns, c)
  {
    cols := seq(columns, _ => []);
    var i := 0;
    while i < |items|
      invariant 0 <= i <= |items|
      invariant |cols| == columns
      invariant forall c :: 0 <= c < columns ==> cols[c] == ColumnOf(items[..i], columns, c)
    {
      var c := i % columns;
      assert items[..i + 1][..i] == items[..i];
      cols := cols[c := cols[c] + [items[i]]];
      i := i + 1;
    }
    assert items[..i] == items;
  }

  /** The total number of items over all columns. */
  function Total<T>(cols: seq<seq<T>>): nat {
    if |cols| == 0 then 0 else |cols[0]| + Total(cols[1..])
  }

  lemma {:induction false} MulAtLeast(k: int, m: int)
    requires k >= 1 && m >= 0
    ensures k * m >= m
    decreases k
  {
    if k > 1 {
      MulAtLeast(k - 1, m);
      assert k * m == (k - 1) * m + m;
    }
  }

  /** Quotient and remainder are determined by any decomposition with a
      remainder in range. */
  lemma DivModUnique(a: int, m: int, q: int, r: int)
    requires m > 0 && 0 <= r < m && a == q * m + r
    ensures a / m == q && a % m == r
  {
    var q', r' := a / m, a % m;
    assert a == q' * m + r';
    assert (q' - q) * m == r - r' by {
      assert (q' - q) * m == q' * m - q * m;
    }
    if q' > q {
      MulAtLeast(q' - q, m);
    } else if q' < q {
      MulAtLeast(q - q', m);
    }
  }

  /** The size formula of `ColumnSize`, as a function of the item count. */
  function SizeOf(n: nat, columns: nat, c: nat): nat
    requires columns > 0
  {
    n / columns + (if c < n % columns then 1 else 0)
  }

  /** One more item grows the formula exactly for the column it lands in. */
  lemma SizeStep(m: nat, columns: nat, c: nat)
    requires columns > 0 && c < columns
    ensures SizeOf(m + 1, columns, c) == SizeOf(m, columns, c) + (if m % columns == c then 1 else 0)
  {
    var q, r := m / columns, m % columns;
    if r + 1 < columns {
      DivModUnique(m + 1, columns, q, r + 1);
    } else {
      DivModUnique(m + 1, columns, q + 1, 0);
    }
  }

  /** Column `c` holds `|items| / columns` items, one more when `c` is below
      the remainder: the columns differ in size by at most one, and the
      leftmost columns are the longer ones. */
  lemma {:induction false} ColumnSize<T>(items: seq<T>, columns: nat, c: nat)
    requires columns > 0 && c < columns
    ensures |ColumnOf(items, columns, c)| == SizeOf(|items|, columns, c)
    decreases |items|
  {
    if |items| > 0 {
      var m := |items| - 1;
      ColumnSize(items[..m], columns, c);
      SizeStep(m, columns, c);
    }
  }

  /** Any two columns differ in size by at most one. */
  lemma ColumnsBalanced<T>(items: seq<T>, columns: nat, c: nat, d: nat)
    requires columns > 0 && c < d < columns
    ensures var a, b := |ColumnOf(items, columns, c)|, |ColumnOf(items, columns, d)|;
      a == b || a == b + 1
  {
    ColumnSize(items, columns, c);
    ColumnSize(items, columns, d);
  }

  /** Every column is an order-preserving selection of the items. */
  lemma {:induction false} ColumnSubseq<T>(items: seq<T>, columns: nat, c: nat)
    requires columns > 0
    ensures Subseq(ColumnOf(items, columns, c), items)
    decreases |items|
  {
    if |items| > 0 {
      var n := |items| - 1;
      ColumnSubseq(items[..n], columns, c);
      SubseqSnoc(ColumnOf(items[..n], columns, c), items[..n], items[n], n % columns == c);
      assert items[..n] + [items[n]] == items;
    }
  }

  lemma {:induction false} SubseqSnoc<T>(a: seq<T>, b: seq<T>, x: T, keep: bool)
    requires Subseq(a, b)
    ensures Subseq(a + (if keep then [x] else []), b + [x])
    decreases |b|
  {
    var a' := a + (if keep then [x] else []);
    if |a| == 0 {
      if keep {
        assert a' == [x];
        SubseqLast(b, x);
      }
    } else if a[0] == b[0] && Subseq(a[1..], b[1..]) {
      SubseqSnoc(a[1..], b[1..], x, keep);
      assert a'[1..] == a[1..] + (if keep then [x] else []);
      assert (b + [x])[1..] == b[1..] + [x];
    } else {
      SubseqSnoc(a, b[1..], x, keep);
      assert (b + [x])[1..] == b[1..] + [x];
    }
  }

  lemma {:induction false} SubseqLast<T>(b: seq<T>, x: T)
    ensures Subseq([x], b + [x])
    decreases |b|
  {
    if |b| > 0 {
      SubseqLast(b[1..], x);
      assert (b + [x])[1..] == b[1..] + [x];
    } else {
      assert ([x] + [])[1..] == [];
    }
  }

  /** Item `i` lands in column `i % columns`. */
  lemma {:induction false} ItemInColumn<T>(items: seq<T>, columns: nat, i: nat)
    requires columns > 0 && i < |items|
    ensures items[i] in ColumnOf(items, columns, i % columns)
    decreases |items|
  {
    var n := |items| - 1;
    if i < n {
      ItemInColumn(items[..n], columns, i);
    }
  }

  /** The columns hold exactly as many items as there are items. */
  lemma {:induction false} TotalCount<T>(items: seq<T>, cols: seq<seq<T>>)
    requires |cols| > 0
    requires forall c :: 0 <= c < |cols| ==> cols[c] == ColumnOf(items, |cols|, c)
    ensures Total(cols) == |items|
    decreases |items|
  {
    var columns := |cols|;
    if |items| == 0 {
      TotalEmpty(cols);
    } else {
      var n := |items| - 1;
      var prev := seq(columns, c requires 0 <= c < columns => ColumnOf(items[..n], columns, c));
      TotalCount(items[..n], prev);
      TotalBump(prev, cols, n % columns, items[n]);
    }
  }

  lemma {:induction false} TotalEmpty<T>(cols: seq<seq<T>>)
    requires forall c :: 0 <= c < |cols| ==> cols[c] == []
    ensures Total(cols) == 0
    decreases |cols|
  {
    if |cols| > 0 {
      TotalEmpty(cols[1..]);
    }
  }

  /** Appending one item to one column adds one to the total. */
  lemma {:induction false} TotalBump<T>(prev: seq<seq<T>>, cols: seq<seq<T>>, k: nat, x: T)
    requires |prev| == |cols| && k < |cols|
    requires forall c :: 0 <= c < |cols| ==> cols[c] == prev[c] + (if c == k then [x] else [])
    ensures Total(cols) == Total(prev) + 1
    decreases |cols|
  {
    if k == 0 {
      assert forall c :: 0 < c < |cols| ==> cols[c] == prev[c];
      assert cols[1..] == prev[1..];
    } else {
      forall c | 0 <= c < |cols| - 1
        ensures cols[1..][c] == prev[1..][c] + (if c == k - 1 then [x] else [])
      {
        assert cols[1..][c] == cols[c + 1] && prev[1..][c] == prev[c + 1];
      }
      TotalBump(prev[1..], cols[1..], k - 1, x);
    }
  }
}
