/** Python string operations the scripts rely on: str.strip, str.split with a
    one-character separator, ", ".join, the `in` substring test, str.find,
    str(int), and the code-point ordering that sorting by a string column uses. */
module Text {

  /** Python's str.isspace, which str.strip() without arguments removes. */
  predicate IsSpace(c: char) {
    c == ' ' || ('\U{9}' <= c <= '\U{d}') || ('\U{1c}' <= c <= '\U{1f}')
    || c == '\U{85}' || c == '\U{a0}' || c == '\U{1680}' || ('\U{2000}' <= c <= '\U{200a}')
    || c == '\U{2028}' || c == '\U{2029}' || c == '\U{202f}' || c == '\U{205f}' || c == '\U{3000}'
  }

  /** The number of whitespace characters at the start of `s`. */
  function LeadingSpaces(s: string): (n: nat)
    ensures n <= |s|
    ensures forall k :: 0 <= k < n ==> IsSpace(s[k])
    ensures n == |s| || !IsSpace(s[n])
  {
    if |s| > 0 && IsSpace(s[0]) then
      var n := LeadingSpaces(s[1..]);
      assert forall k :: 1 <= k < |s| ==> s[1..][k - 1] == s[k];
      1 + n
    else
      0
  }

  /** The end of the text once the whitespace after position `lo` is dropped. */
  function ContentEnd(s: string, lo: nat): (n: nat)
    requires lo <= |s|
    ensures lo <= n <= |s|
    ensures forall k :: n <= k < |s| ==> IsSpace(s[k])
    ensures n == lo || !IsSpace(s[n - 1])
  {
    if |s| > lo && IsSpace(s[|s| - 1]) then
      var n := ContentEnd(s[..|s| - 1], lo);
      assert forall k :: 0 <= k < |s| - 1 ==> s[..|s| - 1][k] == s[k];
      n
    else
      |s|
  }

  /** Python's str.strip(): the text between the leading and the trailing whitespace. */
  function Strip(s: string): (r: string)
    ensures exists i, j ::
              && 0 <= i <= j <= |s| && r == s[i..j]
              && (forall k :: 0 <= k < i ==> IsSpace(s[k]))
              && (forall k :: j <= k < |s| ==> IsSpace(s[k]))
    ensures r == [] || (!IsSpace(r[0]) && !IsSpace(r[|r| - 1]))
  {
    var i := LeadingSpaces(s);
    var j := ContentEnd(s, i);
    s[i..j]
  }

  /** A stripped text is its own strip. */
  lemma {:induction false} StripIdempotent(s: string)
    ensures Strip(Strip(s)) == Strip(s)
  {
    var r := Strip(s);
    assert LeadingSpaces(r) == 0;
    assert ContentEnd(r, 0) == |r|;
  }

  /** Python's str.split(sep) for a one-character separator: the pieces between
      consecutive separators, always at least one (possibly empty) piece. */
  function Split(s: string, sep: char): (r: seq<string>)
    ensures |r| >= 1
    ensures forall k :: 0 <= k < |r| ==> sep !in r[k]
  {
    if |s| == 0 then [""]
    else
      var rest := Split(s[1..], sep);
      if s[0] == sep then [""] + rest
      else [[s[0]] + rest[0]] + rest[1..]
  }

  /** The pieces joined with the separator give back the text. */
  function JoinWith(parts: seq<string>, sep: string): string {
    if |parts| == 0 then ""
    else if |parts| == 1 then parts[0]
    else parts[0] + sep + JoinWith(parts[1..], sep)
  }

  lemma {:induction false} SplitJoin(s: string, sep: char)
    ensures JoinWith(Split(s, sep), [sep]) == s
  {
    if |s| > 0 {
      var rest := Split(s[1..], sep);
      SplitJoin(s[1..], sep);
      if s[0] == sep {
        assert Split(s, sep) == [""] + rest;
        assert ([""] + rest)[1..] == rest;
      } else {
        var r := Split(s, sep);
        assert r == [[s[0]] + rest[0]] + rest[1..];
        if |rest| == 1 {
          assert r == [[s[0]] + rest[0]];
        } else {
          assert r[1..] == rest[1..];
          assert JoinWith(rest, [sep]) == rest[0] + [sep] + JoinWith(rest[1..], [sep]);
        }
      }
    }
  }

  /** More than one piece exactly when the separator occurs. */
  lemma {:induction false} SplitMany(s: string, sep: char)
    ensures |Split(s, sep)| > 1 <==> sep in s
  {
    if |s| > 0 {
      SplitMany(s[1..], sep);
      assert sep in s <==> s[0] == sep || sep in s[1..];
    }
  }

  /** `needle` occurs in `hay` starting at position i. */
  predicate OccursAt(hay: string, needle: string, i: int) {
    0 <= i && i + |needle| <= |hay| && hay[i..i + |needle|] == needle
  }

  /** Python's `needle in hay` for strings (the empty needle is in every string). */
  function Contains(hay: string, needle: string): bool {
    if |needle| <= |hay| && hay[..|needle|] == needle then true
    else if |hay| == 0 then false
    else Contains(hay[1..], needle)
  }

  lemma {:induction false} ContainsIff(hay: string, needle: string)
    ensures Contains(hay, needle) <==> exists i :: OccursAt(hay, needle, i)
  {
    if |needle| <= |hay| && hay[..|needle|] == needle {
      assert OccursAt(hay, needle, 0);
    } else if |hay| == 0 {
    } else {
      ContainsIff(hay[1..], needle);
      if exists i :: OccursAt(hay, needle, i) {
        var i :| OccursAt(hay, needle, i);
        assert i != 0;
        assert hay[1..][i - 1..i - 1 + |needle|] == hay[i..i + |needle|];
        assert OccursAt(hay[1..], needle, i - 1);
      }
      if exists i :: OccursAt(hay[1..], needle, i) {
        var i :| OccursAt(hay[1..], needle, i);
        assert hay[1..][i..i + |needle|] == hay[i + 1..i + 1 + |needle|];
        assert OccursAt(hay, needle, i + 1);
      }
    }
  }

  /** A string contains each of its slices, and every piece of a joined list. */
  lemma SliceContained(hay: string, i: int, j: int)
    requires 0 <= i <= j <= |hay|
    ensures Contains(hay, hay[i..j])
  {
    assert OccursAt(hay, hay[i..j], i);
    ContainsIff(hay, hay[i..j]);
  }

  /** Containment is transitive: a needle inside a part is inside the whole. */
  lemma {:induction false} ContainsTrans(hay: string, mid: string, needle: string)
    requires Contains(hay, mid) && Contains(mid, needle)
    ensures Contains(hay, needle)
  {
    ContainsIff(hay, mid);
    ContainsIff(mid, needle);
    var i :| OccursAt(hay, mid, i);
    var k :| OccursAt(mid, needle, k);
    assert forall t :: 0 <= t < |needle| ==> needle[t] == mid[k + t] == hay[i + k + t];
    assert hay[i + k..i + k + |needle|] == needle;
    assert OccursAt(hay, needle, i + k);
    ContainsIff(hay, needle);
  }

  /** Python's str.find: the first position of `needle`, or -1. */
  function Find(hay: string, needle: string): (r: int)
    ensures -1 <= r
    ensures r >= 0 ==> OccursAt(hay, needle, r)
    ensures forall i :: 0 <= i < r || (r == -1 && 0 <= i) ==> !OccursAt(hay, needle, i)
    decreases |hay|
  {
    if |needle| <= |hay| && hay[..|needle|] == needle then 0
    else if |hay| == 0 then -1
    else
      var k := Find(hay[1..], needle);
      OccursAtTail(hay, needle);
      if k == -1 then -1 else k + 1
  }

  /** An occurrence at i >= 1 is an occurrence at i - 1 in the text without its first character. */
  lemma OccursAtTail(hay: string, needle: string)
    requires |hay| > 0
    ensures forall i :: 1 <= i ==> (OccursAt(hay, needle, i) <==> OccursAt(hay[1..], needle, i - 1))
  {
    forall i | 1 <= i ensures OccursAt(hay, needle, i) <==> OccursAt(hay[1..], needle, i - 1) {
      if i + |needle| <= |hay| {
        assert hay[1..][i - 1..i - 1 + |needle|] == hay[i..i + |needle|];
      }
    }
  }


  /** Find says -1 exactly when the needle does not occur. */
  lemma FindMissing(hay: string, needle: string)
    ensures Find(hay, needle) == -1 <==> !Contains(hay, needle)
  {
    ContainsIff(hay, needle);
  }

  /** Python's str(n) for a natural number: decimal digits without leading zeros. */
  function NatToString(n: nat): (r: string)
    ensures |r| >= 1
    ensures forall k :: 0 <= k < |r| ==> '0' <= r[k] <= '9'
    ensures |r| > 1 ==> r[0] != '0'
  {
    if n < 10 then [DigitChar(n)]
    else NatToString(n / 10) + [DigitChar(n % 10)]
  }

  function DigitChar(d: nat): (c: char)
    requires d < 10
    ensures '0' <= c <= '9' && DigitValue(c) == d
  {
    (48 + d) as char
  }

  function DigitValue(c: char): int {
    c as int - 48
  }

  /** The value of a string of decimal digits. */
  function DigitsValue(s: string): int {
    if |s| == 0 then 0 else 10 * DigitsValue(s[..|s| - 1]) + DigitValue(s[|s| - 1])
  }

  lemma {:induction false} NatToStringValue(n: nat)
    ensures DigitsValue(NatToString(n)) == n
  {
    if n >= 10 {
      NatToStringValue(n / 10);
      var r := NatToString(n);
      assert r[..|r| - 1] == NatToString(n / 10);
    }
  }

  /** Python's str(i) for any int. */
  function IntToString(i: int): (r: string)
    ensures |r| >= 1
    ensures i < 0 <==> r[0] == '-'
  {
    if i < 0 then "-" + NatToString(-i) else NatToString(i)
  }

  /** Python's `<` on str: lexicographic by code point. */
  predicate StrLess(a: string, b: string) {
    if |a| == 0 then |b| > 0
    else if |b| == 0 then false
    else a[0] < b[0] || (a[0] == b[0] && StrLess(a[1..], b[1..]))
  }

  lemma {:induction false} StrLessIrreflexive(a: string)
    ensures !StrLess(a, a)
  {
    if |a| > 0 {
      StrLessIrreflexive(a[1..]);
    }
  }

  lemma {:induction false} StrLessTransitive(a: string, b: string, c: string)
    requires StrLess(a, b) && StrLess(b, c)
    ensures StrLess(a, c)
  {
    if |a| > 0 && |b| > 0 && |c| > 0 && a[0] == b[0] && b[0] == c[0] {
      StrLessTransitive(a[1..], b[1..], c[1..]);
    }
  }

  lemma {:induction false} StrLessTotal(a: string, b: string)
    ensures a == b || StrLess(a, b) || StrLess(b, a)
  {
    if |a| > 0 && |b| > 0 && a[0] == b[0] {
      StrLessTotal(a[1..], b[1..]);
      if a[1..] == b[1..] {
        assert a == [a[0]] + a[1..] && b == [b[0]] + b[1..];
      }
    }
  }

  /** Ascending in Python's string order. */
  predicate StrSorted(s: seq<string>) {
    forall i, j :: 0 <= i < j < |s| ==> !StrLess(s[j], s[i])
  }

  function StrInsert(x: string, s: seq<string>): (r: seq<string>)
    requires StrSorted(s)
    ensures StrSorted(r) && multiset(r) == multiset(s) + multiset{x} && |r| == |s| + 1
    decreases |s|
  {
    if |s| == 0 then [x]
    else
      var last := s[|s| - 1];
      var init := s[..|s| - 1];
      assert s == init + [last];
      if !StrLess(x, last) then
        StrAppendSorted(s, x);
        s + [x]
      else
        var r := StrInsert(x, init);
        StrInsertBeforeLast(s, x, r);
        r + [last]
  }

  lemma StrAppendSorted(s: seq<string>, x: string)
    requires StrSorted(s) && |s| > 0 && !StrLess(x, s[|s| - 1])
    ensures StrSorted(s + [x])
  {
    forall i | 0 <= i < |s| ensures !StrLess(x, s[i]) {
      StrLessTotal(s[i], s[|s| - 1]);
      if StrLess(x, s[i]) && StrLess(s[i], s[|s| - 1]) {
        StrLessTransitive(x, s[i], s[|s| - 1]);
      }
    }
  }

  lemma StrInsertBeforeLast(s: seq<string>, x: string, r: seq<string>)
    requires |s| > 0 && StrSorted(s) && StrSorted(r) && StrLess(x, s[|s| - 1])
    requires multiset(r) == multiset(s[..|s| - 1]) + multiset{x} && |r| == |s|
    ensures StrSorted(r + [s[|s| - 1]])
    ensures multiset(r + [s[|s| - 1]]) == multiset(s) + multiset{x}
  {
    var last := s[|s| - 1];
    var init := s[..|s| - 1];
    assert s == init + [last];
    forall i | 0 <= i < |r| ensures !StrLess(last, r[i]) {
      assert r[i] in multiset(r);
      if r[i] == x {
        StrLessAsym(x, last);
      } else {
        assert r[i] in multiset(init);
        var k :| 0 <= k < |init| && init[k] == r[i];
        assert s[k] == r[i];
      }
    }
  }

  lemma StrLessAsym(a: string, b: string)
    requires StrLess(a, b)
    ensures !StrLess(b, a)
  {
    if StrLess(b, a) {
      StrLessTransitive(a, b, a);
      StrLessIrreflexive(a);
    }
  }

  /** Sorting strings ascending, as `sort_values` on a text column does. */
  function StrSort(s: seq<string>): (r: seq<string>)
    ensures StrSorted(r) && multiset(r) == multiset(s) && |r| == |s|
  {
    if |s| == 0 then []
    else
      assert s == s[..|s| - 1] + [s[|s| - 1]];
      StrInsert(s[|s| - 1], StrSort(s[..|s| - 1]))
  }
}
