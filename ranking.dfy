/** Ordering and rank-based selection the scripts take from pandas:
    `sort_values` (missing values last in either direction), `head`, `tail`,
    `iloc[k:]`, `nlargest`, `median`, and Python's `int()` on a float. */
module Ranking {
  import opened Tables

  /** The order `sort_values` puts two cells in: by value, ascending or
      descending, with a missing value (NaN) after every present one. */
  predicate Le(a: Option<real>, b: Option<real>, ascending: bool) {
    match (a, b)
    case (None, None) => true
    case (None, Some(_)) => false
    case (Some(_), None) => true
    case (Some(x), Some(y)) => if ascending then x <= y else x >= y
  }

  lemma LeTotal(a: Option<real>, b: Option<real>, ascending: bool)
    ensures Le(a, b, ascending) || Le(b, a, ascending)
  {
  }

  lemma LeTrans(a: Option<real>, b: Option<real>, c: Option<real>, ascending: bool)
    requires Le(a, b, ascending) && Le(b, c, ascending)
    ensures Le(a, c, ascending)
  {
  }

  predicate SortedBy<T>(s: seq<T>, key: T -> Option<real>, ascending: bool) {
    forall i, j :: 0 <= i < j < |s| ==> Le(key(s[i]), key(s[j]), ascending)
  }

  /** Places x after every element that does not come after it (so equal keys
      keep their input order). */
  function Insert<T>(x: T, s: seq<T>, key: T -> Option<real>, ascending: bool): (r: seq<T>)
    requires SortedBy(s, key, ascending)
    ensures SortedBy(r, key, ascending)
    ensures multiset(r) == multiset(s) + multiset{x} && |r| == |s| + 1
    decreases |s|
  {
    if |s| == 0 then [x]
    else
      var last := s[|s| - 1];
      var init := s[..|s| - 1];
      if Le(key(last), key(x), ascending) then
        AppendSorted(s, x, key, ascending);
        s + [x]
      else
        var r := Insert(x, init, key, ascending);
        LeTotal(key(last), key(x), ascending);
        InsertBeforeLast(s, x, r, key, ascending);
        r + [last]
  }

  /** Appending an element that no element precedes keeps a sequence sorted. */
  lemma AppendSorted<T>(s: seq<T>, x: T, key: T -> Option<real>, ascending: bool)
    requires SortedBy(s, key, ascending) && |s| > 0 && Le(key(s[|s| - 1]), key(x), ascending)
    ensures SortedBy(s + [x], key, ascending)
  {
    forall i | 0 <= i < |s| ensures Le(key(s[i]), key(x), ascending) {
      if i < |s| - 1 {
        LeTrans(key(s[i]), key(s[|s| - 1]), key(x), ascending);
      }
    }
  }

  lemma InsertBeforeLast<T>(s: seq<T>, x: T, r: seq<T>, key: T -> Option<real>, ascending: bool)
    requires |s| > 0 && SortedBy(s, key, ascending) && SortedBy(r, key, ascending)
    requires Le(key(x), key(s[|s| - 1]), ascending)
    requires multiset(r) == multiset(s[..|s| - 1]) + multiset{x} && |r| == |s|
    ensures SortedBy(r + [s[|s| - 1]], key, ascending)
    ensures multiset(r + [s[|s| - 1]]) == multiset(s) + multiset{x}
  {
    var last := s[|s| - 1];
    var init := s[..|s| - 1];
    assert s == init + [last];
    forall i | 0 <= i < |r| ensures Le(key(r[i]), key(last), ascending) {
      assert r[i] in multiset(r);
      if r[i] != x {
        assert r[i] in multiset(init);
        var k :| 0 <= k < |init| && init[k] == r[i];
        assert s[k] == r[i];
      }
    }
  }

  /** A stable sort by key: sorted, and a rearrangement of the input. */
  function Sort<T>(s: seq<T>, key: T -> Option<real>, ascending: bool): (r: seq<T>)
    ensures SortedBy(r, key, ascending)
    ensures multiset(r) == multiset(s) && |r| == |s|
    decreases |s|
  {
    if |s| == 0 then []
    else
      assert s == s[..|s| - 1] + [s[|s| - 1]];
      Insert(s[|s| - 1], Sort(s[..|s| - 1], key, ascending), key, ascending)
  }

  /** In a sorted sequence everything before a cut comes no later than
      everything after it. */
  lemma SortedCut<T>(s: seq<T>, key: T -> Option<real>, ascending: bool, k: int)
    requires SortedBy(s, key, ascending) && 0 <= k <= |s|
    ensures forall x, y :: x in s[..k] && y in s[k..] ==> Le(key(x), key(y), ascending)
  {
    forall x, y | x in s[..k] && y in s[k..] ensures Le(key(x), key(y), ascending) {
      var i :| 0 <= i < k && s[..k][i] == x;
      var j :| 0 <= j < |s| - k && s[k..][j] == y;
      assert s[i] == x && s[k + j] == y;
    }
  }

  /** Cutting a sorted sequence at k gives two sorted pieces that together
      hold its elements, the first coming no later than the second. */
  lemma SortedSplit<T>(s: seq<T>, key: T -> Option<real>, ascending: bool, k: int)
    requires SortedBy(s, key, ascending) && 0 <= k <= |s|
    ensures multiset(s[..k]) + multiset(s[k..]) == multiset(s)
    ensures SortedBy(s[..k], key, ascending) && SortedBy(s[k..], key, ascending)
    ensures forall x, y :: x in s[..k] && y in s[k..] ==> Le(key(x), key(y), ascending)
  {
    assert s == s[..k] + s[k..];
    SortedCut(s, key, ascending, k);
    assert forall i :: 0 <= i < |s| - k ==> s[k..][i] == s[k + i];
  }

  /** Python's int() on a float: truncation toward zero. */
  function Trunc(x: real): (r: int)
    ensures x >= 0.0 ==> r as real <= x < r as real + 1.0
    ensures x < 0.0 ==> r as real - 1.0 < x <= r as real
  {
    if x >= 0.0 then x.Floor else -((-x).Floor)
  }

  /** Python's int(n * 0.5) is n // 2. */
  lemma TruncHalf(n: nat)
    ensures Trunc(n as real * 0.5) == n / 2
  {
    var h := n / 2;
    assert n == 2 * h || n == 2 * h + 1;
  }

  /** Where a Python slice `s[k:]` of a sequence of length n starts. */
  function SliceStart(k: int, n: nat): (r: nat)
    ensures r <= n
    ensures 0 <= k <= n ==> r == k
  {
    if k < 0 then (if n + k < 0 then 0 else n + k)
    else if k > n then n
    else k
  }

  /** The rows whose key is present (not NaN), in their input order. */
  function PresentRows<T(==,!new)>(s: seq<T>, key: T -> Option<real>): (r: seq<T>)
    ensures forall x :: x in r <==> x in s && key(x).Some?
    ensures |r| <= |s|
  {
    Filter(s, x => key(x).Some?)
  }

  /** pandas `nlargest(n, column)`: rows with a missing value are dropped, the
      rest ordered by descending value (earlier rows first among equals), and
      the first n kept; nothing for n <= 0. Returns the kept rows and the
      present rows left behind. */
  function NLargestSplit<T(==,!new)>(s: seq<T>, n: int, key: T -> Option<real>): (r: (seq<T>, seq<T>))
    ensures multiset(r.0) + multiset(r.1) == multiset(PresentRows(s, key))
    ensures |r.0| == if n <= 0 then 0 else if n <= |PresentRows(s, key)| then n else |PresentRows(s, key)|
    ensures forall x :: x in r.0 ==> x in s && key(x).Some?
    ensures forall x, y :: x in r.0 && y in r.1 ==> key(x).Some? && key(y).Some? && key(x).value >= key(y).value
    ensures SortedBy(r.0, key, false)
  {
    var present := PresentRows(s, key);
    var sorted := Sort(present, key, false);
    var m := if n <= 0 then 0 else if n <= |sorted| then n else |sorted|;
    PresentSplit(sorted, present, key, m);
    (sorted[..m], sorted[m..])
  }

  lemma PresentSplit<T>(sorted: seq<T>, present: seq<T>, key: T -> Option<real>, m: int)
    requires SortedBy(sorted, key, false) && multiset(sorted) == multiset(present)
    requires forall x :: x in present ==> key(x).Some?
    requires 0 <= m <= |sorted|
    ensures multiset(sorted[..m]) + multiset(sorted[m..]) == multiset(present)
    ensures forall x :: x in sorted[..m] ==> x in present
    ensures forall x, y :: x in sorted[..m] && y in sorted[m..] ==> key(x).Some? && key(y).Some? && key(x).value >= key(y).value
  {
    assert sorted == sorted[..m] + sorted[m..];
    forall x | x in sorted ensures x in present {
      assert x in multiset(sorted);
    }
    SortedCut(sorted, key, false, m);
  }

  /** pandas `median()` of a column without missing values: the middle value,
      or the mean of the two middle values; NaN (None) for an empty column. */
  function Median(values: seq<real>): (m: Option<real>)
    ensures |values| == 0 <==> m.None?
    ensures m.Some? ==> exists i, j :: 0 <= i < |values| && 0 <= j < |values| && (values[i] + values[j]) / 2.0 == m.value
  {
    if |values| == 0 then None
    else
      var s := Sort(values, x => Some(x), true);
      var n := |s|;
      var lo := if n % 2 == 1 then n / 2 else n / 2 - 1;
      var hi := n / 2;
      assert s[lo] in multiset(values) && s[hi] in multiset(values);
      Some((s[lo] + s[hi]) / 2.0)
  }

  /** The rows strictly above v, and the rows at or above v (missing values
      are never counted). */
  function Above<T>(key: T -> Option<real>, v: real): T -> bool {
    y => key(y).Some? && key(y).value > v
  }

  function AtLeast<T>(key: T -> Option<real>, v: real): T -> bool {
    y => key(y).Some? && key(y).value >= v
  }

  lemma {:induction false} CountIfAtMost<T>(s: seq<T>, p: T -> bool)
    ensures CountIf(s, p) <= |s|
  {
    if |s| > 0 {
      CountIfAtMost(s[..|s| - 1], p);
    }
  }

  /** Counting a predicate that implies q over s or over the rows of s that
      satisfy q gives the same number. */
  lemma {:induction false} CountIfWithin<T(!new)>(s: seq<T>, q: T -> bool, p: T -> bool)
    requires forall x :: p(x) ==> q(x)
    ensures CountIf(s, p) == CountIf(Filter(s, q), p)
  {
    if |s| > 0 {
      CountIfWithin(s[..|s| - 1], q, p);
      var init := Filter(s[..|s| - 1], q);
      if q(s[|s| - 1]) {
        assert Filter(s, q) == init + [s[|s| - 1]];
        assert (init + [s[|s| - 1]])[..|init|] == init;
      }
    }
  }

  /** The kept rows and the rest of nlargest together count like the present rows. */
  lemma NLargestCount<T(!new)>(s: seq<T>, n: int, key: T -> Option<real>, p: T -> bool)
    requires forall x :: p(x) ==> key(x).Some?
    ensures var r := NLargestSplit(s, n, key);
      CountIf(s, p) == CountIf(r.0, p) + CountIf(r.1, p)
  {
    var r := NLargestSplit(s, n, key);
    CountIfWithin(s, x => key(x).Some?, p);
    assert multiset(r.0 + r.1) == multiset(PresentRows(s, key));
    CountIfPerm(PresentRows(s, key), r.0 + r.1, p);
    CountIfConcat(r.0, r.1, p);
  }

  /** A row nlargest keeps has fewer rows strictly above it than were kept
      (so fewer than n). */
  lemma NLargestAbove<T(!new)>(s: seq<T>, n: int, key: T -> Option<real>, x: T)
    requires x in NLargestSplit(s, n, key).0
    ensures CountIf(s, Above(key, key(x).value)) < |NLargestSplit(s, n, key).0|
  {
    var r := NLargestSplit(s, n, key);
    var above := Above(key, key(x).value);
    NLargestCount(s, n, key, above);
    forall i | 0 <= i < |r.1| ensures !above(r.1[i]) {
      assert r.1[i] in r.1;
    }
    CountIfNone(r.1, above);
    var i :| 0 <= i < |r.0| && r.0[i] == x;
    CountIfRemove(r.0, i, above);
    CountIfAtMost(r.0[..i] + r.0[i + 1..], above);
  }

  /** A present row nlargest leaves out has every kept row and itself at or
      above it. */
  lemma NLargestBelow<T(!new)>(s: seq<T>, n: int, key: T -> Option<real>, y: T)
    requires y in s && key(y).Some? && y !in NLargestSplit(s, n, key).0
    ensures CountIf(s, AtLeast(key, key(y).value)) >= |NLargestSplit(s, n, key).0| + 1
  {
    var r := NLargestSplit(s, n, key);
    var atLeast := AtLeast(key, key(y).value);
    NLargestCount(s, n, key, atLeast);
    assert y in PresentRows(s, key);
    assert y in multiset(PresentRows(s, key));
    assert y in r.1;
    forall i | 0 <= i < |r.0| ensures atLeast(r.0[i]) {
      assert r.0[i] in r.0;
    }
    CountIfAll(r.0, atLeast);
    var j :| 0 <= j < |r.1| && r.1[j] == y;
    CountIfRemove(r.1, j, atLeast);
  }

  function GeReal(v: real): real -> bool {
    x => x >= v
  }

  function LeReal(v: real): real -> bool {
    x => x <= v
  }

  /** In an ascending sequence of reals everything from position k on is at
      or above anything at or below s[k]. */
  lemma SortedFrom(s: seq<real>, k: int, v: real)
    requires SortedBy(s, x => Some(x), true) && 0 <= k < |s| && v <= s[k]
    ensures CountIf(s, GeReal(v)) >= |s| - k
  {
    assert s == s[..k] + s[k..];
    CountIfConcat(s[..k], s[k..], GeReal(v));
    forall i | 0 <= i < |s| - k ensures GeReal(v)(s[k..][i]) {
      assert s[k..][i] == s[k + i];
      if i > 0 {
        assert Le(Some(s[k]), Some(s[k + i]), true);
      }
    }
    CountIfAll(s[k..], GeReal(v));
  }

  lemma SortedUpTo(s: seq<real>, k: int, v: real)
    requires SortedBy(s, x => Some(x), true) && 0 <= k < |s| && s[k] <= v
    ensures CountIf(s, LeReal(v)) >= k + 1
  {
    var pre := s[..k + 1];
    assert s == pre + s[k + 1..];
    CountIfConcat(pre, s[k + 1..], LeReal(v));
    forall i | 0 <= i < |pre| ensures LeReal(v)(pre[i]) {
      assert pre[i] == s[i];
      if i < k {
        assert Le(Some(s[i]), Some(s[k]), true);
      }
    }
    CountIfAll(pre, LeReal(v));
  }

  /** At least half the values (rounded up) are at or above the median, and
      at least half are at or below it. */
  lemma MedianBound(values: seq<real>)
    requires |values| > 0
    ensures CountIf(values, GeReal(Median(values).value)) >= |values| - |values| / 2
    ensures CountIf(values, LeReal(Median(values).value)) >= |values| - |values| / 2
  {
    var s := Sort(values, x => Some(x), true);
    var n := |s|;
    var lo := if n % 2 == 1 then n / 2 else n / 2 - 1;
    var hi := n / 2;
    var m := Median(values).value;
    assert m == (s[lo] + s[hi]) / 2.0;
    assert s[lo] <= s[hi] by {
      if lo < hi {
        assert Le(Some(s[lo]), Some(s[hi]), true);
      }
    }
    CountIfPerm(values, s, GeReal(m));
    CountIfPerm(values, s, LeReal(m));
    SortedFrom(s, hi, m);
    SortedUpTo(s, lo, m);
  }

  function LtReal(v: real): real -> bool {
    x => x < v
  }

  /** v is the k-th smallest of the values (0-based): at most k values lie
      below it and more than k at or below it. */
  predicate OrderStat(values: seq<real>, k: int, v: real) {
    CountIf(values, LtReal(v)) <= k < CountIf(values, LeReal(v))
  }

  /** The median is the mean of the ((n - 1) // 2)-th and (n // 2)-th
      smallest values, which for odd n are one and the same. */
  lemma MedianOrder(values: seq<real>, a: real, b: real)
    requires |values| > 0
    requires OrderStat(values, (|values| - 1) / 2, a) && OrderStat(values, |values| / 2, b)
    ensures Median(values).value == (a + b) / 2.0
  {
    var s := Sort(values, x => Some(x), true);
    var n := |s|;
    var lo := if n % 2 == 1 then n / 2 else n / 2 - 1;
    var hi := n / 2;
    assert lo == (n - 1) / 2;
    assert Median(values).value == (s[lo] + s[hi]) / 2.0;
    SortedOrderStat(s, lo);
    SortedOrderStat(s, hi);
    OrderStatPerm(values, s, lo, s[lo]);
    OrderStatPerm(values, s, hi, s[hi]);
    OrderStatUnique(values, lo, a, s[lo]);
    OrderStatUnique(values, hi, b, s[hi]);
  }

  /** The median of two values is their mean, whichever of them is smaller. */
  lemma MedianOfTwo(x: real, y: real)
    requires x <= y
    ensures Median([x, y]) == Some((x + y) / 2.0)
  {
    var v := [x, y];
    CountIfPair(x, y, LtReal(x));
    CountIfPair(x, y, LeReal(x));
    CountIfPair(x, y, LtReal(y));
    CountIfPair(x, y, LeReal(y));
    assert OrderStat(v, 0, x) && OrderStat(v, 1, y);
    MedianOrder(v, x, y);
  }

  lemma CountIfPair<T>(x: T, y: T, p: T -> bool)
    ensures CountIf([x, y], p) == (if p(x) then 1 else 0) + (if p(y) then 1 else 0)
  {
    assert [x, y][..1] == [x] && [x][..0] == [];
    assert CountIf([x], p) == CountIf([], p) + (if p(x) then 1 else 0);
    assert CountIf([x, y], p) == CountIf([x], p) + (if p(y) then 1 else 0);
  }

  /** Every position of a non-empty sequence has its order statistic. */
  lemma OrderStatExists(values: seq<real>, k: int)
    requires 0 <= k < |values|
    ensures exists v :: OrderStat(values, k, v)
  {
    var s := Sort(values, x => Some(x), true);
    SortedOrderStat(s, k);
    OrderStatPerm(values, s, k, s[k]);
  }

  /** Only one value is the k-th smallest. */
  lemma OrderStatUnique(values: seq<real>, k: int, a: real, b: real)
    requires OrderStat(values, k, a) && OrderStat(values, k, b)
    ensures a == b
  {
    if a < b {
      CountIfMono(values, LeReal(a), LtReal(b));
    } else if b < a {
      CountIfMono(values, LeReal(b), LtReal(a));
    }
  }

  lemma OrderStatPerm(values: seq<real>, s: seq<real>, k: int, v: real)
    requires multiset(values) == multiset(s) && OrderStat(s, k, v)
    ensures OrderStat(values, k, v)
  {
    CountIfPerm(values, s, LtReal(v));
    CountIfPerm(values, s, LeReal(v));
  }

  /** In an ascending sequence s[k] is the k-th smallest value. */
  lemma SortedOrderStat(s: seq<real>, k: int)
    requires SortedBy(s, x => Some(x), true) && 0 <= k < |s|
    ensures OrderStat(s, k, s[k])
  {
    SortedFrom(s, k, s[k]);
    CountIfLtGe(s, s[k]);
    SortedUpTo(s, k, s[k]);
  }

  /** Every value is either below v or at or above it. */
  lemma {:induction false} CountIfLtGe(s: seq<real>, v: real)
    ensures CountIf(s, LtReal(v)) + CountIf(s, GeReal(v)) == |s|
  {
    if |s| > 0 {
      CountIfLtGe(s[..|s| - 1], v);
    }
  }

  /** A weaker predicate counts at least as many elements. */
  lemma {:induction false} CountIfMono<T(!new)>(s: seq<T>, p: T -> bool, q: T -> bool)
    requires forall x :: p(x) ==> q(x)
    ensures CountIf(s, p) <= CountIf(s, q)
  {
    if |s| > 0 {
      CountIfMono(s[..|s| - 1], p, q);
    }
  }

  /** The ids of the rows `nlargest(n, key)` keeps, largest first
      (`nlargest(...)['gid'].tolist()`). */
  function TopIds<T(==,!new)>(s: seq<T>, n: int, key: T -> Option<real>, id: T -> string): (ids: seq<string>)
    ensures |ids| == |NLargestSplit(s, n, key).0|
    ensures forall k :: 0 <= k < |ids| ==> ids[k] == id(NLargestSplit(s, n, key).0[k])
  {
    IdsOf(NLargestSplit(s, n, key).0, id)
  }

  /** The ids of the given rows, in order. */
  function IdsOf<T>(rows: seq<T>, id: T -> string): (ids: seq<string>)
    ensures |ids| == |rows| && forall k :: 0 <= k < |ids| ==> ids[k] == id(rows[k])
  {
    seq(|rows|, k requires 0 <= k < |rows| => id(rows[k]))
  }

  /** A colour column: `top` for a row whose id is among TopIds, `other`
      for every other row. */
  function ColorTop<T(==,!new)>(s: seq<T>, n: int, key: T -> Option<real>, id: T -> string, top: string, other: string): (colors: seq<string>)
    requires top != other
    ensures |colors| == |s|
    ensures forall i :: 0 <= i < |s| ==>
      (colors[i] == top <==> id(s[i]) in TopIds(s, n, key, id))
      && (colors[i] == other <==> id(s[i]) !in TopIds(s, n, key, id))
  {
    var ids := TopIds(s, n, key, id);
    seq(|s|, i requires 0 <= i < |s| => if id(s[i]) in ids then top else other)
  }

  /** A row coloured `other` that has a value is one nlargest leaves. */
  lemma OtherLeft<T(!new)>(s: seq<T>, n: int, key: T -> Option<real>, id: T -> string, top: string, other: string, j: int)
    requires top != other && 0 <= j < |s| && key(s[j]).Some?
    requires ColorTop(s, n, key, id, top, other)[j] == other
    ensures s[j] in NLargestSplit(s, n, key).1
  {
    var r := NLargestSplit(s, n, key);
    forall q | 0 <= q < |r.0| ensures r.0[q] != s[j] {
      assert TopIds(s, n, key, id)[q] == id(r.0[q]);
    }
    assert s[j] in PresentRows(s, key);
    assert s[j] in multiset(PresentRows(s, key));
  }

  /** Rows that share an id share a value: the case of one gid handed to
      several cells by a nearest-point join, each cell carrying its count. */
  predicate IdFixesKey<T(==)>(s: seq<T>, id: T -> string, key: T -> Option<real>) {
    forall a, b :: a in s && b in s && id(a) == id(b) ==> key(a) == key(b)
  }

  /** Distinct ids trivially fix the value. */
  lemma UniqueFixesKey<T>(s: seq<T>, id: T -> string, key: T -> Option<real>)
    requires UniqueKeys(s, id)
    ensures IdFixesKey(s, id, key)
  {
    forall a, b | a in s && b in s && id(a) == id(b) ensures key(a) == key(b) {
      var p :| 0 <= p < |s| && s[p] == a;
      var q :| 0 <= q < |s| && s[q] == b;
    }
  }

  lemma SharedIdSharedKey<T>(s: seq<T>, id: T -> string, key: T -> Option<real>, a: T, b: T)
    requires IdFixesKey(s, id, key) && a in s && b in s && id(a) == id(b)
    ensures key(a) == key(b)
  {
  }

  /** A row coloured `top` shares its id with some row nlargest keeps. */
  lemma ColoredSharesKept<T(!new)>(s: seq<T>, n: int, key: T -> Option<real>, id: T -> string, top: string, other: string, i: int)
      returns (x: T)
    requires top != other && 0 <= i < |s|
    requires ColorTop(s, n, key, id, top, other)[i] == top
    ensures x in NLargestSplit(s, n, key).0 && id(x) == id(s[i])
  {
    var kept := NLargestSplit(s, n, key).0;
    var ids := TopIds(s, n, key, id);
    assert id(s[i]) in ids;
    var k :| 0 <= k < |ids| && ids[k] == id(s[i]);
    x := kept[k];
  }

  /** When rows sharing an id share a value (distinct ids being one such
      case), a row coloured `top` has a value, fewer than n rows have a larger
      one, and no row coloured `other` has a larger one. More than n rows may
      be coloured `top` when ids repeat; each still satisfies this. */
  lemma ColoredTopAreLargest<T(!new)>(s: seq<T>, n: int, key: T -> Option<real>, id: T -> string, top: string, other: string, i: int, j: int)
    requires top != other && IdFixesKey(s, id, key) && 0 <= i < |s| && 0 <= j < |s|
    requires ColorTop(s, n, key, id, top, other)[i] == top
    ensures key(s[i]).Some?
    ensures CountIf(s, Above(key, key(s[i]).value)) < n
    ensures ColorTop(s, n, key, id, top, other)[j] == other && key(s[j]).Some?
            ==> key(s[j]).value <= key(s[i]).value
  {
    var x := ColoredSharesKept(s, n, key, id, top, other, i);
    SharedIdSharedKey(s, id, key, x, s[i]);
    KeptBound(s, n, key, x, s[i]);
    if ColorTop(s, n, key, id, top, other)[j] == other && key(s[j]).Some? {
      OtherLeft(s, n, key, id, top, other, j);
    }
  }

  /** A row with the value of a row nlargest keeps has fewer than n rows
      above it. */
  lemma KeptBound<T(!new)>(s: seq<T>, n: int, key: T -> Option<real>, x: T, y: T)
    requires x in NLargestSplit(s, n, key).0 && key(y) == key(x)
    ensures key(y).Some? && CountIf(s, Above(key, key(y).value)) < n
  {
    NLargestAbove(s, n, key, x);
  }

  /** The first element of a sorted sequence comes no later than any element,
      and the last no earlier. */
  lemma SortedEnds<T>(s: seq<T>, key: T -> Option<real>, ascending: bool, x: T)
    requires SortedBy(s, key, ascending) && x in s
    ensures Le(key(s[0]), key(x), ascending) && Le(key(x), key(s[|s| - 1]), ascending)
  {
    var k :| 0 <= k < |s| && s[k] == x;
  }

  /** The smallest and the largest of a non-empty sequence of reals (`min()`, `max()`). */
  function MinOf(xs: seq<real>): (m: real)
    requires |xs| > 0
    ensures m in xs && forall i :: 0 <= i < |xs| ==> m <= xs[i]
  {
    if |xs| == 1 then xs[0]
    else
      var m := MinOf(xs[..|xs| - 1]);
      assert forall i :: 0 <= i < |xs| - 1 ==> xs[..|xs| - 1][i] == xs[i];
      if xs[|xs| - 1] < m then xs[|xs| - 1] else m
  }

  function MaxOf(xs: seq<real>): (m: real)
    requires |xs| > 0
    ensures m in xs && forall i :: 0 <= i < |xs| ==> xs[i] <= m
  {
    if |xs| == 1 then xs[0]
    else
      var m := MaxOf(xs[..|xs| - 1]);
      assert forall i :: 0 <= i < |xs| - 1 ==> xs[..|xs| - 1][i] == xs[i];
      if xs[|xs| - 1] > m then xs[|xs| - 1] else m
  }
}
