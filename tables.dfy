/** Table operations the scripts take from pandas, on tables modelled as
    sequences of rows: `unique()`, `drop_duplicates`, boolean-mask filtering,
    left and inner `merge`, and the shape `to_csv(index=False)` writes. */
module Tables {

  datatype Option<+T> = None | Some(value: T)

  datatype Result<+T> = Ok(value: T) | Err(error: string)

  predicate NoDups<T(==)>(s: seq<T>) {
    forall i, j :: 0 <= i < j < |s| ==> s[i] != s[j]
  }

  /** Position of the first occurrence of x in s. */
  function IndexOf<T(==)>(s: seq<T>, x: T): (k: nat)
    requires x in s
    ensures k < |s| && s[k] == x && x !in s[..k]
  {
    if s[0] == x then 0 else 1 + IndexOf(s[1..], x)
  }

  lemma {:induction false} IndexOfPrefix<T>(s: seq<T>, n: nat, x: T)
    requires n <= |s| && x in s[..n]
    ensures IndexOf(s, x) == IndexOf(s[..n], x)
  {
    if s[0] != x {
      assert s[1..][..n - 1] == s[..n][1..];
      IndexOfPrefix(s[1..], n - 1, x);
    }
  }

  /** pandas `Series.unique()`: each value once, in order of first appearance. */
  function Distinct<T(==,!new)>(s: seq<T>): (r: seq<T>)
    ensures NoDups(r)
    ensures forall x :: x in r <==> x in s
    ensures forall i, j :: 0 <= i < j < |r| ==> IndexOf(s, r[i]) < IndexOf(s, r[j])
    decreases |s|
  {
    if |s| == 0 then []
    else
      var init := s[..|s| - 1];
      var d := Distinct(init);
      var x := s[|s| - 1];
      assert s == init + [x];
      forall y | y in d ensures IndexOf(s, y) == IndexOf(init, y) < |s| - 1 {
        IndexOfPrefix(s, |s| - 1, y);
      }
      if x in d then d
      else
        assert IndexOf(s, x) == |s| - 1;
        d + [x]
  }

  /** pandas `drop_duplicates(subset=key)`: the first row of each key, in input order. */
  function DistinctBy<T(==), K(==)>(s: seq<T>, key: T -> K): (r: seq<T>)
    ensures forall i, j :: 0 <= i < j < |r| ==> key(r[i]) != key(r[j])
    ensures forall x :: x in s ==> HasKey(r, key, key(x))
    ensures forall y :: y in r ==> FirstOfKey(s, key, y)
    ensures InAppearanceOrder(r, s)
    decreases |s|
  {
    if |s| == 0 then []
    else
      var init := s[..|s| - 1];
      var d := DistinctBy(init, key);
      var x := s[|s| - 1];
      assert s == init + [x];
      if HasKey(d, key, key(x)) then
        FirstOfKeyPrefix(init, x, key, d);
        AppearanceOrderSnoc(s, d, false);
        d
      else
        DistinctByAdd(init, x, key, d);
        assert x !in init;
        AppearanceOrderSnoc(s, d, true);
        d + [x]
  }

  /** The rows of d all occur in s, and in the order of their first
      appearance there. */
  predicate InAppearanceOrder<T(==)>(d: seq<T>, s: seq<T>) {
    (forall y :: y in d ==> y in s)
    && forall i, j :: 0 <= i < j < |d| ==> d[i] in s && d[j] in s && IndexOf(s, d[i]) < IndexOf(s, d[j])
  }

  /** Rows ordered by first appearance in s without its last row stay so in
      s, and so does appending that last row when it is new. */
  lemma AppearanceOrderSnoc<T>(s: seq<T>, d: seq<T>, add: bool)
    requires |s| > 0 && InAppearanceOrder(d, s[..|s| - 1])
    requires add ==> s[|s| - 1] !in s[..|s| - 1]
    ensures InAppearanceOrder(if add then d + [s[|s| - 1]] else d, s)
  {
    var init := s[..|s| - 1];
    var x := s[|s| - 1];
    assert s == init + [x];
    forall y | y in d ensures IndexOf(s, y) == IndexOf(init, y) < |s| - 1 {
      IndexOfPrefix(s, |s| - 1, y);
    }
    if add {
      assert IndexOf(s, x) == |s| - 1;
      var r := d + [x];
      forall i, j | 0 <= i < j < |r| ensures r[i] in s && r[j] in s && IndexOf(s, r[i]) < IndexOf(s, r[j]) {
        assert r[i] == d[i] && d[i] in d;
      }
    }
  }

  /** Some row of d has key k. */
  predicate HasKey<T, K(==)>(d: seq<T>, key: T -> K, k: K) {
    |d| > 0 && (key(d[|d| - 1]) == k || HasKey(d[..|d| - 1], key, k))
  }

  lemma {:induction false} HasKeyIff<T, K>(d: seq<T>, key: T -> K, k: K)
    ensures HasKey(d, key, k) <==> exists y :: y in d && key(y) == k
  {
    if |d| > 0 {
      HasKeyIff(d[..|d| - 1], key, k);
      assert d == d[..|d| - 1] + [d[|d| - 1]];
    }
  }

  /** Appending a row with a new key: the keys stay pairwise distinct, every
      key keeps a representative, and every kept row stays the first of its key. */
  lemma DistinctByAdd<T, K>(init: seq<T>, x: T, key: T -> K, d: seq<T>)
    requires forall i, j :: 0 <= i < j < |d| ==> key(d[i]) != key(d[j])
    requires forall z :: z in init ==> HasKey(d, key, key(z))
    requires forall y :: y in d ==> FirstOfKey(init, key, y)
    requires !HasKey(d, key, key(x))
    ensures forall i, j :: 0 <= i < j < |d + [x]| ==> key((d + [x])[i]) != key((d + [x])[j])
    ensures forall z :: z in init + [x] ==> HasKey(d + [x], key, key(z))
    ensures forall y :: y in d + [x] ==> FirstOfKey(init + [x], key, y)
  {
    FirstOfKeyPrefix(init, x, key, d);
    FirstOfKeyNew(init, x, key, d);
    HasKeyIff(d, key, key(x));
    DistinctKeysSnoc(d, x, key);
  }

  /** Appending a row with a new key keeps the keys pairwise distinct. */
  lemma DistinctKeysSnoc<T, K>(d: seq<T>, x: T, key: T -> K)
    requires forall i, j :: 0 <= i < j < |d| ==> key(d[i]) != key(d[j])
    requires !exists y :: y in d && key(y) == key(x)
    ensures forall i, j :: 0 <= i < j < |d + [x]| ==> key((d + [x])[i]) != key((d + [x])[j])
  {
    var r := d + [x];
    forall i, j | 0 <= i < j < |r| ensures key(r[i]) != key(r[j]) {
      assert r[i] == d[i] && r[i] in d;
    }
  }

  /** The earliest row of a key stays the earliest when a row is appended. */
  lemma FirstOfKeyPrefix<T, K>(init: seq<T>, x: T, key: T -> K, d: seq<T>)
    requires forall y :: y in d ==> FirstOfKey(init, key, y)
    ensures forall y :: y in d ==> FirstOfKey(init + [x], key, y)
  {
    var s := init + [x];
    forall y | y in d ensures FirstOfKey(s, key, y) {
      var i :| 0 <= i < |init| && init[i] == y && forall j :: 0 <= j < i ==> key(init[j]) != key(y);
      assert s[i] == y;
    }
  }

  /** A row whose key no earlier row has is the earliest of its key. */
  lemma FirstOfKeyNew<T, K>(init: seq<T>, x: T, key: T -> K, d: seq<T>)
    requires forall z :: z in init ==> HasKey(d, key, key(z))
    requires !HasKey(d, key, key(x))
    ensures FirstOfKey(init + [x], key, x)
  {
    var s := init + [x];
    assert s[|s| - 1] == x;
    forall j | 0 <= j < |s| - 1 ensures key(s[j]) != key(x) {
      assert s[j] in init;
    }
  }

  /** y is the earliest row of s with y's key. */
  ghost predicate FirstOfKey<T, K>(s: seq<T>, key: T -> K, y: T) {
    exists i :: 0 <= i < |s| && s[i] == y && forall j :: 0 <= j < i ==> key(s[j]) != key(y)
  }

  /** One column of a frame as a list, `df[col].tolist()`: the field f of
      every row, in order. */
  function Column<T, V>(s: seq<T>, f: T -> V): (r: seq<V>)
    ensures |r| == |s| && forall i :: 0 <= i < |r| ==> r[i] == f(s[i])
  {
    seq(|s|, i requires 0 <= i < |s| => f(s[i]))
  }

  /** A boolean-mask selection `df[mask]`: the rows that satisfy p, in order. */
  function Filter<T(==,!new)>(s: seq<T>, p: T -> bool): (r: seq<T>)
    ensures |r| <= |s|
    ensures forall x :: x in r <==> x in s && p(x)
    ensures Subseq(r, s)
    decreases |s|
  {
    if |s| == 0 then []
    else
      var init := Filter(s[..|s| - 1], p);
      var x := s[|s| - 1];
      assert s == s[..|s| - 1] + [x];
      if p(x) then
        assert (init + [x])[..|init|] == init;
        init + [x]
      else
        init
  }

  /** r can be obtained from s by deleting elements (order is preserved). */
  predicate Subseq<T(==)>(r: seq<T>, s: seq<T>)
    decreases |s|
  {
    |r| == 0 || (|s| > 0 && (if r[|r| - 1] == s[|s| - 1] then Subseq(r[..|r| - 1], s[..|s| - 1]) else Subseq(r, s[..|s| - 1])))
  }

  /** No two rows share a key. */
  predicate UniqueKeys<R>(right: seq<R>, rkey: R -> string) {
    forall i, j :: 0 <= i < j < |right| ==> rkey(right[i]) != rkey(right[j])
  }

  /** Number of elements that satisfy p. */
  function CountIf<T>(s: seq<T>, p: T -> bool): nat {
    if |s| == 0 then 0 else CountIf(s[..|s| - 1], p) + (if p(s[|s| - 1]) then 1 else 0)
  }

  lemma {:induction false} CountIfFilter<T(!new)>(s: seq<T>, p: T -> bool)
    ensures CountIf(s, p) == |Filter(s, p)|
  {
    if |s| > 0 {
      CountIfFilter(s[..|s| - 1], p);
    }
  }

  lemma {:induction false} CountIfConcat<T>(a: seq<T>, b: seq<T>, p: T -> bool)
    ensures CountIf(a + b, p) == CountIf(a, p) + CountIf(b, p)
    decreases |b|
  {
    if |b| == 0 {
      assert a + b == a;
    } else {
      var ab := a + b;
      assert ab[..|ab| - 1] == a + b[..|b| - 1];
      assert ab[|ab| - 1] == b[|b| - 1];
      CountIfConcat(a, b[..|b| - 1], p);
    }
  }

  /** Taking out the element at position i takes its contribution out of the count. */
  lemma {:induction false} CountIfRemove<T>(t: seq<T>, i: int, p: T -> bool)
    requires 0 <= i < |t|
    ensures CountIf(t, p) == CountIf(t[..i] + t[i + 1..], p) + (if p(t[i]) then 1 else 0)
  {
    var n := |t| - 1;
    var rest := t[..i] + t[i + 1..];
    if i == n {
      assert rest == t[..n];
    } else {
      var u := t[..n];
      var v := u[..i] + u[i + 1..];
      CountIfRemove(u, i, p);
      assert u[..i] == t[..i];
      assert t[i + 1..] == u[i + 1..] + [t[n]];
      AppendAssoc(t[..i], u[i + 1..], [t[n]]);
      CountIfSnoc(v, t[n], p);
    }
  }

  lemma AppendAssoc<T>(a: seq<T>, b: seq<T>, c: seq<T>)
    ensures (a + b) + c == a + (b + c)
  {
  }

  lemma CountIfSnoc<T>(v: seq<T>, x: T, p: T -> bool)
    ensures CountIf(v + [x], p) == CountIf(v, p) + (if p(x) then 1 else 0)
  {
    assert (v + [x])[..|v|] == v;
  }

  lemma MultisetRemove<T>(t: seq<T>, i: int)
    requires 0 <= i < |t|
    ensures multiset(t[..i] + t[i + 1..]) == multiset(t) - multiset{t[i]}
  {
    assert t == t[..i] + [t[i]] + t[i + 1..];
  }

  /** Counting is blind to order: permutations have the same counts. */
  lemma {:induction false} CountIfPerm<T>(s: seq<T>, t: seq<T>, p: T -> bool)
    requires multiset(s) == multiset(t)
    ensures CountIf(s, p) == CountIf(t, p)
    decreases |s|
  {
    if |s| == 0 {
      assert |t| == |multiset(t)| == 0;
    } else {
      var n := |s| - 1;
      var x := s[n];
      assert s == s[..n] + [x];
      assert x in multiset(t);
      var i :| 0 <= i < |t| && t[i] == x;
      MultisetRemove(t, i);
      CountIfPerm(s[..n], t[..i] + t[i + 1..], p);
      CountIfRemove(t, i, p);
    }
  }

  /** No element satisfies p: the count is 0; every element does: the count is the length. */
  lemma {:induction false} CountIfNone<T>(s: seq<T>, p: T -> bool)
    requires forall i :: 0 <= i < |s| ==> !p(s[i])
    ensures CountIf(s, p) == 0
  {
    if |s| > 0 {
      CountIfNone(s[..|s| - 1], p);
    }
  }

  lemma {:induction false} CountIfAll<T>(s: seq<T>, p: T -> bool)
    requires forall i :: 0 <= i < |s| ==> p(s[i])
    ensures CountIf(s, p) == |s|
  {
    if |s| > 0 {
      CountIfAll(s[..|s| - 1], p);
    }
  }

  /** A position that satisfies p makes the count at least 1. */
  lemma {:induction false} CountIfOne<T>(s: seq<T>, p: T -> bool, i: int)
    requires 0 <= i < |s| && p(s[i])
    ensures CountIf(s, p) >= 1
  {
    if i < |s| - 1 {
      CountIfOne(s[..|s| - 1], p, i);
    }
  }

  /** Two distinct positions that satisfy p make the count at least 2. */
  lemma {:induction false} CountIfTwo<T>(s: seq<T>, p: T -> bool, i: int, j: int)
    requires 0 <= i < j < |s| && p(s[i]) && p(s[j])
    ensures CountIf(s, p) >= 2
  {
    if j < |s| - 1 {
      CountIfTwo(s[..|s| - 1], p, i, j);
    } else {
      CountIfOne(s[..|s| - 1], p, i);
    }
  }

  /** Unique keys survive any permutation of the rows. */
  lemma {:induction false} UniqueKeysPerm<T>(s: seq<T>, t: seq<T>, key: T -> string)
    requires multiset(s) == multiset(t) && UniqueKeys(s, key)
    ensures UniqueKeys(t, key)
  {
    forall i, j | 0 <= i < j < |t| ensures key(t[i]) != key(t[j]) {
      if key(t[i]) == key(t[j]) {
        var k := key(t[i]);
        var p := (y: T) => key(y) == k;
        CountIfTwo(t, p, i, j);
        CountIfPerm(s, t, p);
        CountIfUnique(s, key, k);
      }
    }
  }

  lemma {:induction false} CountIfUnique<T>(s: seq<T>, key: T -> string, k: string)
    requires UniqueKeys(s, key)
    ensures CountIf(s, y => key(y) == k) <= 1
  {
    if |s| > 0 {
      var init := s[..|s| - 1];
      assert UniqueKeys(init, key);
      CountIfUnique(init, key, k);
      if key(s[|s| - 1]) == k {
        CountIfNone(init, y => key(y) == k);
      }
    }
  }

  /** Rows of `right` whose key equals k, in order. */
  function MatchesOf<R(==,!new)>(right: seq<R>, rkey: R -> string, k: string): seq<R> {
    Filter(right, y => rkey(y) == k)
  }

  /** When every right row has key k, all of them match. */
  lemma {:induction false} MatchesAll<R(!new)>(right: seq<R>, rkey: R -> string, k: string)
    requires forall i :: 0 <= i < |right| ==> rkey(right[i]) == k
    ensures MatchesOf(right, rkey, k) == right
  {
    if |right| > 0 {
      MatchesAll(right[..|right| - 1], rkey, k);
      assert right == right[..|right| - 1] + [right[|right| - 1]];
    }
  }

  /** pandas `left.merge(right, on=key, how="left")`: every left row, once per
      matching right row, or once with no right row when nothing matches. */
  function LeftJoin<L, R(==,!new)>(left: seq<L>, lkey: L -> string, right: seq<R>, rkey: R -> string): seq<(L, Option<R>)>
    decreases |left|
  {
    if |left| == 0 then []
    else
      var x := left[0];
      var m := MatchesOf(right, rkey, lkey(x));
      (if |m| == 0 then [(x, None)] else seq(|m|, i requires 0 <= i < |m| => (x, Some(m[i]))))
      + LeftJoin(left[1..], lkey, right, rkey)
  }

  /** A left-join output row pairs its left row with a right row of the same
      key, or with nothing when no right row has that key. */
  ghost predicate JoinedRight<L, R>(p: (L, Option<R>), lkey: L -> string, right: seq<R>, rkey: R -> string) {
    match p.1
    case Some(y) => y in right && rkey(y) == lkey(p.0)
    case None => forall y :: y in right ==> rkey(y) != lkey(p.0)
  }

  /** Every output row of a left join comes from a left row and is joined
      correctly. */
  lemma {:induction false} LeftJoinRows<L, R(!new)>(left: seq<L>, lkey: L -> string, right: seq<R>, rkey: R -> string)
    ensures forall p :: p in LeftJoin(left, lkey, right, rkey) ==> p.0 in left && JoinedRight(p, lkey, right, rkey)
    decreases |left|
  {
    if |left| > 0 {
      var x := left[0];
      var m := MatchesOf(right, rkey, lkey(x));
      var here := if |m| == 0 then [(x, None)] else seq(|m|, i requires 0 <= i < |m| => (x, Some(m[i])));
      var rest := LeftJoin(left[1..], lkey, right, rkey);
      LeftJoinRows(left[1..], lkey, right, rkey);
      var out := LeftJoin(left, lkey, right, rkey);
      assert out == here + rest;
      forall k | 0 <= k < |here| ensures JoinedRight(here[k], lkey, right, rkey) {
        if |m| > 0 {
          assert m[k] in m;
        }
      }
      forall p | p in rest ensures p.0 in left {
        assert p.0 in left[1..];
      }
    }
  }

  /** No left row is lost by a left join. */
  lemma {:induction false} LeftJoinKeeps<L, R(!new)>(left: seq<L>, lkey: L -> string, right: seq<R>, rkey: R -> string)
    ensures forall x :: x in left ==> exists o :: o in LeftJoin(left, lkey, right, rkey) && o.0 == x
    decreases |left|
  {
    if |left| > 0 {
      var x := left[0];
      var m := MatchesOf(right, rkey, lkey(x));
      var here := if |m| == 0 then [(x, None)] else seq(|m|, i requires 0 <= i < |m| => (x, Some(m[i])));
      var rest := LeftJoin(left[1..], lkey, right, rkey);
      LeftJoinKeeps(left[1..], lkey, right, rkey);
      var out := LeftJoin(left, lkey, right, rkey);
      assert out == here + rest;
      forall y | y in left ensures exists o :: o in out && o.0 == y {
        if y == x {
          assert out[0] in out;
        } else {
          assert y in left[1..];
          var o :| o in rest && o.0 == y;
          assert o in out;
        }
      }
    }
  }

  /** The right row with key k, if any. */
  function Lookup<R>(right: seq<R>, rkey: R -> string, k: string): (r: Option<R>)
    ensures r.Some? ==> r.value in right && rkey(r.value) == k
    ensures r.None? ==> forall y :: y in right ==> rkey(y) != k
  {
    if |right| == 0 then None
    else if rkey(right[0]) == k then Some(right[0])
    else Lookup(right[1..], rkey, k)
  }

  lemma {:induction false} UniqueMatches<R(!new)>(right: seq<R>, rkey: R -> string, k: string)
    requires UniqueKeys(right, rkey)
    ensures |MatchesOf(right, rkey, k)| <= 1
    ensures Lookup(right, rkey, k).None? <==> |MatchesOf(right, rkey, k)| == 0
    ensures |MatchesOf(right, rkey, k)| == 1 ==> MatchesOf(right, rkey, k)[0] == Lookup(right, rkey, k).value
  {
    var m := MatchesOf(right, rkey, k);
    if |m| >= 2 {
      assert m[0] in right && m[1] in right;
      var i :| 0 <= i < |right| && right[i] == m[0];
      var j :| 0 <= j < |right| && right[j] == m[1];
      SubseqDistinct(m, right, rkey);
      assert false;
    }
    var l := Lookup(right, rkey, k);
    if l.Some? {
      assert l.value in m;
    }
    if |m| == 1 {
      assert m[0] in right && rkey(m[0]) == k;
      assert l.Some?;
      var i :| 0 <= i < |right| && right[i] == m[0];
      var j :| 0 <= j < |right| && right[j] == l.value;
      assert i == j;
    }
  }

  /** A subsequence of a sequence with distinct keys has distinct elements. */
  lemma {:induction false} SubseqDistinct<R>(m: seq<R>, right: seq<R>, rkey: R -> string)
    requires Subseq(m, right) && UniqueKeys(right, rkey)
    ensures UniqueKeys(m, rkey)
    decreases |right|
  {
    if |m| > 0 {
      var init := right[..|right| - 1];
      assert UniqueKeys(init, rkey);
      if m[|m| - 1] == right[|right| - 1] {
        SubseqDistinct(m[..|m| - 1], init, rkey);
        SubseqElems(m[..|m| - 1], init);
        forall i | 0 <= i < |m| - 1 ensures rkey(m[i]) != rkey(m[|m| - 1]) {
          assert m[..|m| - 1][i] in init;
        }
      } else {
        SubseqDistinct(m, init, rkey);
      }
    }
  }

  lemma {:induction false} SubseqElems<T>(r: seq<T>, s: seq<T>)
    requires Subseq(r, s)
    ensures forall x :: x in r ==> x in s
    decreases |s|
  {
    if |r| > 0 {
      var init := s[..|s| - 1];
      if r[|r| - 1] == s[|s| - 1] {
        SubseqElems(r[..|r| - 1], init);
        assert r == r[..|r| - 1] + [r[|r| - 1]];
      } else {
        SubseqElems(r, init);
      }
    }
  }

  /** With unique right keys the left join keeps the left rows one for one and
      attaches the matching right row, or nothing. */
  lemma {:induction false} LeftJoinUnique<L, R(!new)>(left: seq<L>, lkey: L -> string, right: seq<R>, rkey: R -> string)
    requires UniqueKeys(right, rkey)
    ensures |LeftJoin(left, lkey, right, rkey)| == |left|
    ensures forall i :: 0 <= i < |left| ==>
      LeftJoin(left, lkey, right, rkey)[i] == (left[i], Lookup(right, rkey, lkey(left[i])))
  {
    if |left| > 0 {
      UniqueMatches(right, rkey, lkey(left[0]));
      LeftJoinUnique(left[1..], lkey, right, rkey);
      var out := LeftJoin(left, lkey, right, rkey);
      var rest := LeftJoin(left[1..], lkey, right, rkey);
      assert out[1..] == rest;
      forall i | 1 <= i < |left| ensures out[i] == (left[i], Lookup(right, rkey, lkey(left[i]))) {
        assert out[i] == rest[i - 1];
        assert left[1..][i - 1] == left[i];
      }
    }
  }

  /** pandas `left.merge(right, on=key, how="inner")`: for each left row in order,
      one output row per matching right row. */
  function InnerJoin<L(==), R(==,!new)>(left: seq<L>, lkey: L -> string, right: seq<R>, rkey: R -> string): (out: seq<(L, R)>)
    ensures forall p :: p in out ==> p.0 in left && p.1 in right && lkey(p.0) == rkey(p.1)
    ensures forall x, y :: x in left && y in right && lkey(x) == rkey(y) ==> (x, y) in out
    decreases |left|
  {
    if |left| == 0 then []
    else
      var x := left[0];
      var m := MatchesOf(right, rkey, lkey(x));
      var here := seq(|m|, i requires 0 <= i < |m| => (x, m[i]));
      var rest := InnerJoin(left[1..], lkey, right, rkey);
      forall i | 0 <= i < |m| ensures m[i] in right && rkey(m[i]) == lkey(x) {
        assert m[i] in m;
      }
      assert forall y :: y in right && lkey(x) == rkey(y) ==> (x, y) in here by {
        forall y | y in right && lkey(x) == rkey(y) ensures (x, y) in here {
          var i :| 0 <= i < |m| && m[i] == y;
          assert here[i] == (x, y);
        }
      }
      assert forall z :: z in left ==> z == x || z in left[1..];
      here + rest
  }

  /** The matched rows of a left-join output, unwrapped, in order: a row
      with no right row is dropped. */
  function MatchedPairs<L, R>(s: seq<(L, Option<R>)>): (r: seq<(L, R)>)
    ensures |r| <= |s|
    decreases |s|
  {
    if |s| == 0 then []
    else (if s[0].1.Some? then [(s[0].0, s[0].1.value)] else []) + MatchedPairs(s[1..])
  }

  lemma {:induction false} MatchedPairsConcat<L, R>(a: seq<(L, Option<R>)>, b: seq<(L, Option<R>)>)
    ensures MatchedPairs(a + b) == MatchedPairs(a) + MatchedPairs(b)
    decreases |a|
  {
    if |a| == 0 {
      assert a + b == b;
    } else {
      var h := if a[0].1.Some? then [(a[0].0, a[0].1.value)] else [];
      assert (a + b)[0] == a[0] && (a + b)[1..] == a[1..] + b;
      MatchedPairsConcat(a[1..], b);
      assert MatchedPairs(a + b) == h + (MatchedPairs(a[1..]) + MatchedPairs(b));
      AppendAssoc(h, MatchedPairs(a[1..]), MatchedPairs(b));
    }
  }

  lemma {:induction false} MatchedPairsAll<L, R>(x: L, m: seq<R>)
    ensures MatchedPairs(seq(|m|, i requires 0 <= i < |m| => (x, Some(m[i]))))
         == seq(|m|, i requires 0 <= i < |m| => (x, m[i]))
    decreases |m|
  {
    if |m| > 0 {
      var s := seq(|m|, i requires 0 <= i < |m| => (x, Some(m[i])));
      assert s[1..] == seq(|m| - 1, i requires 0 <= i < |m| - 1 => (x, Some(m[1..][i])));
      MatchedPairsAll(x, m[1..]);
    }
  }

  /** The inner merge is the left merge without its unmatched rows: one row
      per matching (left, right) pair, in left-row order and, within one left
      row, in right-row order. */
  lemma {:induction false} InnerJoinMatchedLeftJoin<L, R(!new)>(left: seq<L>, lkey: L -> string, right: seq<R>, rkey: R -> string)
    ensures InnerJoin(left, lkey, right, rkey) == MatchedPairs(LeftJoin(left, lkey, right, rkey))
    decreases |left|
  {
    if |left| > 0 {
      var x := left[0];
      var m := MatchesOf(right, rkey, lkey(x));
      var here := if |m| == 0 then [(x, None)] else seq(|m|, i requires 0 <= i < |m| => (x, Some(m[i])));
      InnerJoinMatchedLeftJoin(left[1..], lkey, right, rkey);
      MatchedPairsConcat(here, LeftJoin(left[1..], lkey, right, rkey));
      if |m| > 0 {
        MatchedPairsAll(x, m);
      } else {
        assert MatchedPairs(here) == [];
      }
    }
  }

  /** With unique right keys the inner merge holds, in left-row order, exactly
      the left rows that have a match, each once with its `Lookup`. */
  lemma InnerJoinUnique<L, R(!new)>(left: seq<L>, lkey: L -> string, right: seq<R>, rkey: R -> string)
    ensures UniqueKeys(right, rkey) ==>
      InnerJoin(left, lkey, right, rkey) == MatchedPairs(WithLookup(left, lkey, right, rkey))
  {
    if UniqueKeys(right, rkey) {
      InnerJoinMatchedLeftJoin(left, lkey, right, rkey);
      LeftJoinUnique(left, lkey, right, rkey);
      assert LeftJoin(left, lkey, right, rkey) == WithLookup(left, lkey, right, rkey);
    }
  }

  /** Each left row with the right row its key looks up, if any. */
  function WithLookup<L, R>(left: seq<L>, lkey: L -> string, right: seq<R>, rkey: R -> string): (r: seq<(L, Option<R>)>)
    ensures |r| == |left| && forall i :: 0 <= i < |left| ==> r[i] == (left[i], Lookup(right, rkey, lkey(left[i])))
  {
    seq(|left|, i requires 0 <= i < |left| => (left[i], Lookup(right, rkey, lkey(left[i]))))
  }

  /** Counts agree over two sequences that agree position by position. */
  lemma {:induction false} CountIfPointwise<S, T>(s: seq<S>, p: S -> bool, t: seq<T>, q: T -> bool)
    requires |s| == |t| && forall i :: 0 <= i < |s| ==> p(s[i]) == q(t[i])
    ensures CountIf(s, p) == CountIf(t, q)
  {
    if |s| > 0 {
      CountIfPointwise(s[..|s| - 1], p, t[..|t| - 1], q);
    }
  }
}
