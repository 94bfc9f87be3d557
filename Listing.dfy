/**
 * The three stages every list endpoint runs on a table: keep the rows a
 * predicate accepts, order them by one column, and cut one page out of the
 * result (Laravel's `paginate($perPage)`).
 */
module Listing {
  import Text

  /** A query-string parameter: absent, or given with its text. */
  datatype Param = Absent | Given(text: string)

  /** `$request->has($key) && $request->input($key)`: present and not PHP-falsy ('' and "0" are falsy). */
  predicate Truthy(p: Param)
  {
    p.Given? && p.text != "" && p.text != "0"
  }

  /** `$request->has($key) && $request->input($key) !== ''`. */
  predicate NonEmpty(p: Param)
  {
    p.Given? && p.text != ""
  }

  /** The value of the column a list is ordered by. */
  datatype SortValue = TextValue(s: string) | NumberValue(n: int)

  datatype Direction = Asc | Desc

  /** A total preorder on column values; mixed kinds never meet in one sort. */
  predicate ValueLe(a: SortValue, b: SortValue)
  {
    match (a, b)
    case (TextValue(x), TextValue(y)) => Text.StrLe(x, y)
    case (NumberValue(x), NumberValue(y)) => x <= y
    case (NumberValue(_), TextValue(_)) => true
    case (TextValue(_), NumberValue(_)) => false
  }

  /** `orderBy($column, $direction)`: may `a` come before `b`? */
  predicate InOrder(a: SortValue, b: SortValue, dir: Direction)
  {
    if dir == Asc then ValueLe(a, b) else ValueLe(b, a)
  }

  lemma InOrderTotal(a: SortValue, b: SortValue, dir: Direction)
    ensures InOrder(a, b, dir) || InOrder(b, a, dir)
  {
    if a.TextValue? && b.TextValue? {
      Text.StrLeTotal(a.s, b.s);
    }
  }

  lemma InOrderTransitive(a: SortValue, b: SortValue, c: SortValue, dir: Direction)
    requires InOrder(a, b, dir) && InOrder(b, c, dir)
    ensures InOrder(a, c, dir)
  {
    if a.TextValue? && b.TextValue? && c.TextValue? {
      if dir == Asc {
        Text.StrLeTransitive(a.s, b.s, c.s);
      } else {
        Text.StrLeTransitive(c.s, b.s, a.s);
      }
    }
  }

  /** Each row may come before the next one. */
  ghost predicate Sorted<T>(xs: seq<T>, key: T -> SortValue, dir: Direction)
  {
    forall i :: 0 <= i < |xs| - 1 ==> InOrder(key(xs[i]), key(xs[i + 1]), dir)
  }

  /** In a sorted list every earlier row may come before every later one. */
  lemma {:induction false} SortedPairs<T>(xs: seq<T>, key: T -> SortValue, dir: Direction, i: nat, j: nat)
    requires Sorted(xs, key, dir) && i < j < |xs|
    ensures InOrder(key(xs[i]), key(xs[j]), dir)
    decreases j - i
  {
    if i + 1 < j {
      SortedPairs(xs, key, dir, i + 1, j);
      InOrderTransitive(key(xs[i]), key(xs[i + 1]), key(xs[j]), dir);
    }
  }

  function Insert<T>(x: T, xs: seq<T>, key: T -> SortValue, dir: Direction): (r: seq<T>)
    requires Sorted(xs, key, dir)
    ensures multiset(r) == multiset(xs) + multiset{x}
    ensures |r| == |xs| + 1 && (r[0] == x || (xs != [] && r[0] == xs[0]))
    ensures Sorted(r, key, dir)
    decreases |xs|
  {
    if xs == [] then [x]
    else if InOrder(key(x), key(xs[0]), dir) then [x] + xs
    else
      InOrderTotal(key(x), key(xs[0]), dir);
      assert xs == [xs[0]] + xs[1..];
      [xs[0]] + Insert(x, xs[1..], key, dir)
  }

  /** Insertion sort: a sorted permutation of `xs`. */
  function Sort<T>(xs: seq<T>, key: T -> SortValue, dir: Direction): (r: seq<T>)
    ensures multiset(r) == multiset(xs)
    ensures Sorted(r, key, dir)
    decreases |xs|
  {
    if xs == [] then []
    else
      assert xs == [xs[0]] + xs[1..];
      Insert(xs[0], Sort(xs[1..], key, dir), key, dir)
  }

  /** Sorting neither adds nor drops a row. */
  lemma SortSameElements<T>(xs: seq<T>, key: T -> SortValue, dir: Direction)
    ensures forall x :: x in Sort(xs, key, dir) <==> x in xs
  {
    var r := Sort(xs, key, dir);
    forall x
      ensures x in r <==> x in xs
    {
      assert x in r <==> x in multiset(r);
      assert x in xs <==> x in multiset(xs);
    }
  }

  /** `where(...)`: the rows `keep` accepts, each as often as in the table, in table order. */
  function Filter<T>(xs: seq<T>, keep: T -> bool): (r: seq<T>)
    ensures forall i :: 0 <= i < |r| ==> r[i] in xs && keep(r[i])
    ensures forall i :: 0 <= i < |xs| && keep(xs[i]) ==> xs[i] in r
    ensures |r| <= |xs|
    ensures forall i :: 0 <= i < |xs| && keep(xs[i]) ==> multiset(r)[xs[i]] == multiset(xs)[xs[i]]
    decreases |xs|
  {
    if xs == [] then []
    else
      assert xs == [xs[0]] + xs[1..];
      if keep(xs[0]) then [xs[0]] + Filter(xs[1..], keep)
      else Filter(xs[1..], keep)
  }

  /** Filtering rows whose keys differ pairwise keeps their keys pairwise different. */
  lemma FilterKeepsKeysDistinct<T>(xs: seq<T>, keep: T -> bool, key: T -> nat, r: seq<T>)
    requires forall i, j :: 0 <= i < j < |xs| ==> key(xs[i]) != key(xs[j])
    requires r == Filter(xs, keep)
    ensures forall i, j :: 0 <= i < j < |r| ==> key(r[i]) != key(r[j])
  {
    forall i | 0 <= i < |r|
      ensures multiset(r)[r[i]] <= multiset(xs)[r[i]]
    {
      var k :| 0 <= k < |xs| && xs[k] == r[i];
    }
    CountedWithinKeepsKeysDistinct(r, xs, key);
  }

  /** A filter that accepts every row keeps the list as it is. */
  lemma {:induction false} FilterKeepsAll<T>(xs: seq<T>, keep: T -> bool)
    requires forall i :: 0 <= i < |xs| ==> keep(xs[i])
    ensures Filter(xs, keep) == xs
    decreases |xs|
  {
    if xs != [] {
      FilterKeepsAll(xs[1..], keep);
    }
  }

  /** `r` is `xs` with some entries dropped and the rest in their order. */
  ghost predicate Subsequence<T>(r: seq<T>, xs: seq<T>)
    decreases |xs|
  {
    r == [] || (xs != [] && ((r[0] == xs[0] && Subsequence(r[1..], xs[1..])) || Subsequence(r, xs[1..])))
  }

  /** Filtering keeps the table order of the rows it keeps. */
  lemma {:induction false} FilterKeepsOrder<T>(xs: seq<T>, keep: T -> bool)
    ensures Subsequence(Filter(xs, keep), xs)
    decreases |xs|
  {
    if xs != [] {
      FilterKeepsOrder(xs[1..], keep);
    }
  }

  /** What `paginate()` serialises: one slice plus the metadata. */
  datatype Page<T> = Page(data: seq<T>, currentPage: nat, lastPage: nat, perPage: nat, total: nat)

  /** Laravel treats a page number below 1 as page 1. */
  function ResolvePage(page: int): (r: nat)
    ensures r >= 1 && (page >= 1 ==> r == page)
    ensures page < 1 ==> r == 1
  {
    if page >= 1 then page else 1
  }

  /** `max((int) ceil($total / $perPage), 1)`. */
  function LastPage(total: nat, perPage: nat): (r: nat)
    requires perPage > 0
    ensures r >= 1
    ensures total == 0 ==> r == 1
    ensures total > 0 ==> (r - 1) * perPage < total <= r * perPage
  {
    if total == 0 then 1
    else
      var q := (total + perPage - 1) / perPage;
      assert q * perPage <= total + perPage - 1 < q * perPage + perPage;
      q
  }

  /** The offset of the first row of page `page`. */
  function Offset(page: nat, perPage: nat): nat
    requires page >= 1
  {
    (page - 1) * perPage
  }

  /** Up to `n` rows of `items` from offset `start` on (`skip($start)->take($n)`). */
  function Window<T>(items: seq<T>, start: nat, n: nat): (r: seq<T>)
    ensures |r| <= n
    ensures start >= |items| ==> r == []
    ensures start < |items| ==> start + |r| <= |items| && r == items[start..start + |r|]
    ensures start + n <= |items| ==> |r| == n
    ensures start < |items| < start + n ==> |r| == |items| - start
  {
    if start >= |items| then []
    else if start + n <= |items| then items[start..start + n]
    else items[start..]
  }

  function Paginate<T>(items: seq<T>, page: int, perPage: nat): (r: Page<T>)
    requires perPage > 0
    ensures r.total == |items| && r.perPage == perPage
    ensures r.currentPage == ResolvePage(page) && r.lastPage == LastPage(|items|, perPage)
    ensures r.data == Window(items, Offset(r.currentPage, perPage), perPage)
  {
    var p := ResolvePage(page);
    Page(Window(items, Offset(p, perPage), perPage), p, LastPage(|items|, perPage), perPage, |items|)
  }

  /** A page holds only rows of the list it is cut from. */
  lemma PageWithin<T>(items: seq<T>, page: int, perPage: nat)
    requires perPage > 0
    ensures var d := Paginate(items, page, perPage).data;
            forall i :: 0 <= i < |d| ==> d[i] in items
  {
    var d := Paginate(items, page, perPage).data;
    var start := Offset(ResolvePage(page), perPage);
    assert forall i :: 0 <= i < |d| ==> d[i] == items[start + i];
  }

  /** Twenty rows at fifteen a page: a full first page, five rows on the second, and two pages. */
  lemma TwentyRowsTwoPages<T>(items: seq<T>, page: int)
    requires |items| == 20
    ensures |Paginate(items, 1, 15).data| == 15 && |Paginate(items, 2, 15).data| == 5
    ensures Paginate(items, page, 15).lastPage == 2
  {
    assert LastPage(20, 15) == 2 by {
      assert (20 + 15 - 1) / 15 == 2;
    }
    assert Offset(1, 15) == 0 && Offset(2, 15) == 15;
  }

  /** The rows of pages `from` .. `lastPage`, in order. */
  function PagesFrom<T>(items: seq<T>, from: nat, perPage: nat): seq<T>
    requires perPage > 0 && from >= 1
    decreases LastPage(|items|, perPage) + 1 - from
  {
    if from > LastPage(|items|, perPage) then []
    else Window(items, Offset(from, perPage), perPage) + PagesFrom(items, from + 1, perPage)
  }

  /** Pages 1 .. lastPage, put back together, are the whole list. */
  lemma {:induction false} PagesCoverList<T>(items: seq<T>, perPage: nat)
    requires perPage > 0
    ensures PagesFrom(items, 1, perPage) == items
  {
    PagesFromIsSuffix(items, 1, perPage);
  }

  lemma {:induction false} PagesFromIsSuffix<T>(items: seq<T>, from: nat, perPage: nat)
    requires perPage > 0 && from >= 1
    ensures Offset(from, perPage) <= |items| ==> PagesFrom(items, from, perPage) == items[Offset(from, perPage)..]
    decreases LastPage(|items|, perPage) + 1 - from
  {
    var last := LastPage(|items|, perPage);
    var start := Offset(from, perPage);
    if from > last {
      PastLastPage(|items|, from, perPage);
    } else {
      OffsetStep(from, perPage);
      PagesFromIsSuffix(items, from + 1, perPage);
      if start + perPage <= |items| {
        SuffixSplit(items, start, start + perPage);
      } else {
        OnLastPage(|items|, from, perPage);
        PastLastPage(|items|, from + 1, perPage);
      }
    }
  }

  lemma SuffixSplit<T>(items: seq<T>, i: nat, j: nat)
    requires i <= j <= |items|
    ensures items[i..] == items[i..j] + items[j..]
  {
  }

  /** A page that reaches past the end of the list is the last page. */
  lemma OnLastPage(total: nat, from: nat, perPage: nat)
    requires perPage > 0 && 1 <= from <= LastPage(total, perPage)
    requires Offset(from, perPage) + perPage > total
    ensures from == LastPage(total, perPage)
  {
    var last := LastPage(total, perPage);
    if from < last {
      OffsetStep(from, perPage);
      MulMonotone(from, last - 1, perPage);
    }
  }

  /** A page past the last one starts at or past the end of the list. */
  lemma PastLastPage(total: nat, from: nat, perPage: nat)
    requires perPage > 0 && from > LastPage(total, perPage)
    ensures Offset(from, perPage) >= total
  {
    if total > 0 {
      MulMonotone(LastPage(total, perPage), from - 1, perPage);
    }
  }

  lemma OffsetStep(page: nat, perPage: nat)
    requires page >= 1
    ensures Offset(page + 1, perPage) == Offset(page, perPage) + perPage
  {
  }

  lemma MulMonotone(a: nat, b: nat, c: nat)
    requires a <= b
    ensures a * c <= b * c
  {
  }

  /** A strictly increasing sequence of ids. */
  predicate Increasing(ids: seq<nat>)
  {
    forall i, j :: 0 <= i < j < |ids| ==> ids[i] < ids[j]
  }

  /** `m` is the least element of `s`. */
  predicate IsLeast(m: nat, s: set<nat>)
  {
    m in s && forall y :: y in s ==> m <= y
  }

  lemma {:induction false} MinExists(s: set<nat>)
    requires s != {}
    ensures exists m :: IsLeast(m, s)
    decreases |s|
  {
    var x :| x in s;
    if s == {x} {
      assert IsLeast(x, s);
    } else {
      var rest := s - {x};
      assert |rest| < |s|;
      MinExists(rest);
      var m :| IsLeast(m, rest);
      var least := if x < m then x else m;
      LeastOfAdded(x, m, rest, s);
      assert IsLeast(least, s);
    }
  }

  lemma LeastOfAdded(x: nat, m: nat, rest: set<nat>, s: set<nat>)
    requires IsLeast(m, rest) && s == rest + {x}
    ensures IsLeast(if x < m then x else m, s)
  {
  }

  function Min(s: set<nat>): (m: nat)
    requires s != {}
    ensures m in s && forall y :: y in s ==> m <= y
  {
    MinExists(s);
    var m :| IsLeast(m, s);
    m
  }

  /** A sequence without repeats holds each value at most once. */
  lemma {:induction false} CountedAtMostOnce<T>(b: seq<T>, x: T)
    requires forall i, j :: 0 <= i < j < |b| ==> b[i] != b[j]
    ensures multiset(b)[x] <= 1
  {
    if b != [] {
      assert b == [b[0]] + b[1..];
      CountedAtMostOnce(b[1..], x);
      if b[0] == x {
        assert forall k :: 0 <= k < |b[1..]| ==> b[1..][k] == b[k + 1] != b[0];
        assert x !in b[1..];
      }
    }
  }

  /** A value at two positions is counted at least twice. */
  lemma CountedTwice<T>(a: seq<T>, i: nat, j: nat)
    requires i < j < |a| && a[i] == a[j]
    ensures multiset(a)[a[i]] >= 2
  {
    assert a == a[..j] + a[j..];
    assert a[i] in a[..j];
    assert a[j] in a[j..];
  }

  /**
   * Rows each held no more often than in a list whose keys differ pairwise
   * have keys that differ pairwise.
   */
  lemma CountedWithinKeepsKeysDistinct<T>(a: seq<T>, b: seq<T>, key: T -> nat)
    requires forall i :: 0 <= i < |a| ==> multiset(a)[a[i]] <= multiset(b)[a[i]]
    requires forall i, j :: 0 <= i < j < |b| ==> key(b[i]) != key(b[j])
    ensures forall i, j :: 0 <= i < j < |a| ==> key(a[i]) != key(a[j])
  {
    forall i, j | 0 <= i < j < |a|
      ensures key(a[i]) != key(a[j])
    {
      if key(a[i]) == key(a[j]) {
        assert a[i] in multiset(a) && a[j] in multiset(a);
        assert a[i] in multiset(b) && a[j] in multiset(b);
        var p :| 0 <= p < |b| && b[p] == a[i];
        var q :| 0 <= q < |b| && b[q] == a[j];
        if p == q {
          assert forall m, n :: 0 <= m < n < |b| ==> b[m] != b[n];
          CountedTwice(a, i, j);
          CountedAtMostOnce(b, a[i]);
        }
        assert false;
      }
    }
  }

  /** A permutation of a sequence whose keys differ pairwise has keys that differ pairwise. */
  lemma PermutationKeepsKeysDistinct<T>(a: seq<T>, b: seq<T>, key: T -> nat)
    requires multiset(a) == multiset(b)
    requires forall i, j :: 0 <= i < j < |b| ==> key(b[i]) != key(b[j])
    ensures forall i, j :: 0 <= i < j < |a| ==> key(a[i]) != key(a[j])
  {
    CountedWithinKeepsKeysDistinct(a, b, key);
  }

  /** The primary keys of a table in ascending order, the order rows come back in before any `orderBy`. */
  function SortedIds(s: set<nat>): (r: seq<nat>)
    ensures forall x :: x in r <==> x in s
    ensures Increasing(r)
    ensures |r| == |s|
    decreases |s|
  {
    if s == {} then []
    else
      var m := Min(s);
      var rest := SortedIds(s - {m});
      var r := [m] + rest;
      PrependLeast(s, m, rest, r);
      r
  }

  /** Putting the least key before the other keys in ascending order gives all keys in ascending order. */
  lemma PrependLeast(s: set<nat>, m: nat, rest: seq<nat>, r: seq<nat>)
    requires m in s && forall y :: y in s ==> m <= y
    requires forall x :: x in rest <==> x in s - {m}
    requires Increasing(rest) && |rest| == |s - {m}|
    requires r == [m] + rest
    ensures forall x :: x in r <==> x in s
    ensures Increasing(r)
    ensures |r| == |s|
  {
    assert |s - {m}| == |s| - 1;
    forall i, j | 0 <= i < j < |r|
      ensures r[i] < r[j]
    {
      assert r[j] == rest[j - 1] && rest[j - 1] in rest;
      if i > 0 {
        assert r[i] == rest[i - 1];
      }
    }
    forall x
      ensures x in r <==> x in s
    {
      assert x in r <==> x == m || x in rest;
    }
  }
}
