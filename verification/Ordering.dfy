/** Python's `sorted`: a stable sort under a total preorder, and the order of `str` values. */
module Ordering {
  import opened Basics

  ghost predicate TotalPreorder<T(!new)>(leq: (T, T) -> bool) {
    && (forall x, y :: leq(x, y) || leq(y, x))
    && (forall x, y, z :: leq(x, y) && leq(y, z) ==> leq(x, z))
  }

  ghost predicate Sorted<T>(s: seq<T>, leq: (T, T) -> bool) {
    forall i, j :: 0 <= i < j < |s| ==> leq(s[i], s[j])
  }

  function Insert<T>(x: T, s: seq<T>, leq: (T, T) -> bool): seq<T> {
    if s == [] || leq(x, s[0]) then [x] + s else [s[0]] + Insert(x, s[1..], leq)
  }

  function Sort<T>(s: seq<T>, leq: (T, T) -> bool): seq<T> {
    if s == [] then [] else Insert(s[0], Sort(s[1..], leq), leq)
  }

  lemma {:induction false} InsertPermutes<T>(x: T, s: seq<T>, leq: (T, T) -> bool)
    ensures multiset(Insert(x, s, leq)) == multiset{x} + multiset(s)
  {
    if s != [] && !leq(x, s[0]) {
      InsertPermutes(x, s[1..], leq);
      assert s == [s[0]] + s[1..];
    }
  }

  lemma {:induction false} SortPermutes<T>(s: seq<T>, leq: (T, T) -> bool)
    ensures multiset(Sort(s, leq)) == multiset(s)
    ensures |Sort(s, leq)| == |s|
  {
    if s != [] {
      SortPermutes(s[1..], leq);
      InsertPermutes(s[0], Sort(s[1..], leq), leq);
      assert s == [s[0]] + s[1..];
    }
    assert |multiset(Sort(s, leq))| == |Sort(s, leq)|;
  }

  lemma {:induction false} InsertSorts<T(!new)>(x: T, s: seq<T>, leq: (T, T) -> bool)
    requires TotalPreorder(leq) && Sorted(s, leq)
    ensures Sorted(Insert(x, s, leq), leq)
  {
    if s != [] && !leq(x, s[0]) {
      InsertSorts(x, s[1..], leq);
      InsertPermutes(x, s[1..], leq);
      var r := Insert(x, s[1..], leq);
      forall j | 0 <= j < |r|
        ensures leq(s[0], r[j])
      {
        assert r[j] in multiset(r);
      }
    }
  }

  lemma {:induction false} SortSorts<T(!new)>(s: seq<T>, leq: (T, T) -> bool)
    requires TotalPreorder(leq)
    ensures Sorted(Sort(s, leq), leq)
  {
    if s != [] {
      SortSorts(s[1..], leq);
      InsertSorts(s[0], Sort(s[1..], leq), leq);
    }
  }

  /** No two different elements tie. */
  ghost predicate TieFree<T>(s: seq<T>, leq: (T, T) -> bool) {
    forall i, j :: 0 <= i < j < |s| && leq(s[j], s[i]) ==> s[i] == s[j]
  }

  lemma TailMultiset<T>(s: seq<T>)
    requires s != []
    ensures multiset(s[1..]) == multiset(s) - multiset{s[0]}
  {
    assert s == [s[0]] + s[1..];
  }

  lemma SameHead<T>(a: seq<T>, b: seq<T>, leq: (T, T) -> bool)
    requires a != [] && b != []
    requires Sorted(a, leq) && Sorted(b, leq) && TieFree(a, leq) && multiset(a) == multiset(b)
    ensures a[0] == b[0]
  {
    assert a[0] in multiset(b) && b[0] in multiset(a);
    var i :| 0 <= i < |b| && b[i] == a[0];
    var j :| 0 <= j < |a| && a[j] == b[0];
  }

  lemma SameLength<T>(a: seq<T>, b: seq<T>)
    requires multiset(a) == multiset(b)
    ensures |a| == |b|
  {
    assert |multiset(a)| == |a| && |multiset(b)| == |b|;
  }

  lemma TailSorted<T>(s: seq<T>, leq: (T, T) -> bool)
    requires s != [] && Sorted(s, leq)
    ensures Sorted(s[1..], leq) && (TieFree(s, leq) ==> TieFree(s[1..], leq))
  {
  }

  /** Two sorted arrangements of the same elements are equal when no two different elements tie. */
  lemma {:induction false} SortedUnique<T>(a: seq<T>, b: seq<T>, leq: (T, T) -> bool)
    requires Sorted(a, leq) && Sorted(b, leq) && TieFree(a, leq) && multiset(a) == multiset(b)
    ensures a == b
    decreases |a|
  {
    hide Sorted, TieFree;
    SameLength(a, b);
    if a != [] {
      SameHead(a, b, leq);
      TailMultiset(a);
      TailMultiset(b);
      TailSorted(a, leq);
      TailSorted(b, leq);
      SortedUnique(a[1..], b[1..], leq);
      HeadAndTail(a, b);
    }
  }

  lemma HeadAndTail<T>(a: seq<T>, b: seq<T>)
    requires a != [] && b != [] && a[0] == b[0] && a[1..] == b[1..]
    ensures a == b
  {
    assert a == [a[0]] + a[1..] && b == [b[0]] + b[1..];
  }

  // ---- the order of str values: lexicographic by code point ----

  predicate LexLeq(a: text, b: text) {
    a == [] || (b != [] && (a[0] < b[0] || (a[0] == b[0] && LexLeq(a[1..], b[1..]))))
  }

  lemma {:induction false} LexTotal(a: text, b: text)
    ensures LexLeq(a, b) || LexLeq(b, a)
    ensures LexLeq(a, b) && LexLeq(b, a) ==> a == b
  {
    if a != [] && b != [] {
      LexTotal(a[1..], b[1..]);
      assert a == [a[0]] + a[1..] && b == [b[0]] + b[1..];
    }
  }

  lemma {:induction false} LexTransitive(a: text, b: text, c: text)
    requires LexLeq(a, b) && LexLeq(b, c)
    ensures LexLeq(a, c)
  {
    if a != [] && a[0] == c[0] {
      LexTransitive(a[1..], b[1..], c[1..]);
    }
  }

  lemma LexIsTotalPreorder()
    ensures TotalPreorder(LexLeq)
    ensures forall a, b :: LexLeq(a, b) && LexLeq(b, a) ==> a == b
  {
    forall a, b
      ensures LexLeq(a, b) || LexLeq(b, a)
      ensures LexLeq(a, b) && LexLeq(b, a) ==> a == b
    {
      LexTotal(a, b);
    }
    forall a, b, c | LexLeq(a, b) && LexLeq(b, c)
      ensures LexLeq(a, c)
    {
      LexTransitive(a, b, c);
    }
  }

  /** `sorted(ts)` on a list of strings. */
  function SortTexts(ts: seq<text>): seq<text> {
    Sort(ts, LexLeq)
  }

  /** Sorting forgets the order of the list and nothing else. */
  lemma SortTextsCanonical(a: seq<text>, b: seq<text>)
    ensures SortTexts(a) == SortTexts(b) <==> multiset(a) == multiset(b)
  {
    LexIsTotalPreorder();
    SortPermutes(a, LexLeq);
    SortPermutes(b, LexLeq);
    SortSorts(a, LexLeq);
    SortSorts(b, LexLeq);
    if multiset(a) == multiset(b) {
      SortedUnique(SortTexts(a), SortTexts(b), LexLeq);
    }
  }

  /** a is less than b at place i and equal to it before. */
  ghost predicate DiffersAt(a: text, b: text, i: nat) {
    i < |a| && i < |b| && a[..i] == b[..i] && a[i] < b[i]
  }

  /** Python's order of strings: a prefix comes first, otherwise the first code points that differ decide. */
  lemma {:induction false} LexExact(a: text, b: text)
    ensures LexLeq(a, b) <==> a <= b || exists i: nat :: DiffersAt(a, b, i)
  {
    if a != [] && b != [] && a[0] == b[0] {
      LexExact(a[1..], b[1..]);
      assert a <= b <==> a[1..] <= b[1..];
      if i: nat :| DiffersAt(a, b, i) {
        DiffersShifts(a, b, i);
      }
      if i: nat :| DiffersAt(a[1..], b[1..], i) {
        DiffersShifts(a, b, i + 1);
      }
    } else if a != [] && b != [] {
      DiffersAtHead(a, b);
    }
  }

  lemma DiffersShifts(a: text, b: text, i: nat)
    requires a != [] && b != [] && a[0] == b[0]
    ensures i > 0 ==> (DiffersAt(a, b, i) <==> DiffersAt(a[1..], b[1..], i - 1))
    ensures i == 0 ==> !DiffersAt(a, b, i)
  {
    if i > 0 && i < |a| && i < |b| {
      assert a[..i] == [a[0]] + a[1..][..i - 1] && b[..i] == [b[0]] + b[1..][..i - 1];
      assert a[..i][1..] == a[1..][..i - 1] && b[..i][1..] == b[1..][..i - 1];
    }
  }

  lemma DiffersAtHead(a: text, b: text)
    requires a != [] && b != [] && a[0] != b[0]
    ensures (exists i: nat :: DiffersAt(a, b, i)) <==> a[0] < b[0]
  {
    assert a[..0] == b[..0];
    assert a[0] < b[0] ==> DiffersAt(a, b, 0);
    forall i: nat | 0 < i < |a| && i < |b|
      ensures a[..i] != b[..i]
    {
      assert a[..i][0] == a[0] && b[..i][0] == b[0];
    }
  }

  /** `sorted` sorts upwards, and there is one ascending arrangement only. */
  lemma SortTextsAscending(ts: seq<text>)
    ensures Sorted(SortTexts(ts), LexLeq) && multiset(SortTexts(ts)) == multiset(ts)
    ensures forall r: seq<text> :: Sorted(r, LexLeq) && multiset(r) == multiset(ts) ==> r == SortTexts(ts)
  {
    LexIsTotalPreorder();
    SortSorts(ts, LexLeq);
    SortPermutes(ts, LexLeq);
    var s := SortTexts(ts);
    forall r: seq<text> | Sorted(r, LexLeq) && multiset(r) == multiset(ts)
      ensures r == s
    {
      SortedUnique(s, r, LexLeq);
    }
  }

  // ---- the keys of a dict in sorted order ----

  predicate IsLeast(k: text, ks: set<text>) {
    k in ks && forall j :: j in ks ==> LexLeq(k, j)
  }

  lemma {:induction false} LeastKey(ks: set<text>)
    requires ks != {}
    ensures exists k :: IsLeast(k, ks)
    ensures forall j, k :: IsLeast(j, ks) && IsLeast(k, ks) ==> j == k
  {
    LexIsTotalPreorder();
    var k :| k in ks;
    if ks - {k} != {} {
      LeastKey(ks - {k});
      var m :| IsLeast(m, ks - {k});
      var least := if LexLeq(k, m) then k else m;
      assert forall j :: j in ks ==> j == k || j in ks - {k};
      assert IsLeast(least, ks);
    } else {
      assert ks == {k};
      assert IsLeast(k, ks);
    }
  }

  /** `sorted(d)` for a dict with key set ks. */
  function SortedKeys(ks: set<text>): (r: seq<text>)
    ensures forall k :: k in r <==> k in ks
    ensures |r| == |ks|
  {
    if ks == {} then [] else
      LeastKey(ks);
      var k :| IsLeast(k, ks);
      [k] + SortedKeys(ks - {k})
  }

  lemma SortedCons(k: text, rest: seq<text>, ks: set<text>)
    requires Sorted(rest, LexLeq) && IsLeast(k, ks) && forall r :: r in rest ==> r in ks
    ensures Sorted([k] + rest, LexLeq)
  {
    hide LexLeq;
    forall i, j | 0 <= i < j < |[k] + rest|
      ensures LexLeq(([k] + rest)[i], ([k] + rest)[j])
    {
      assert ([k] + rest)[j] == rest[j - 1] && rest[j - 1] in rest;
    }
  }

  lemma {:induction false} SortedKeysSorted(ks: set<text>)
    ensures Sorted(SortedKeys(ks), LexLeq)
  {
    if ks != {} {
      LeastKey(ks);
      var k :| IsLeast(k, ks);
      var rest := SortedKeys(ks - {k});
      assert SortedKeys(ks) == [k] + rest;
      SortedKeysSorted(ks - {k});
      SortedCons(k, rest, ks);
    }
  }

  ghost predicate Distinct(r: seq<text>) {
    forall i, j :: 0 <= i < j < |r| ==> r[i] != r[j]
  }

  lemma DistinctCons(k: text, rest: seq<text>)
    requires k !in rest && Distinct(rest)
    ensures Distinct([k] + rest)
  {
    var r := [k] + rest;
    forall i, j | 0 <= i < j < |r|
      ensures r[i] != r[j]
    {
      assert r[j] == rest[j - 1] && rest[j - 1] in rest;
      assert i > 0 ==> r[i] == rest[i - 1];
    }
  }

  lemma {:induction false} SortedKeysDistinct(ks: set<text>)
    ensures Distinct(SortedKeys(ks))
  {
    if ks != {} {
      hide LexLeq, Distinct;
      LeastKey(ks);
      var k :| IsLeast(k, ks);
      var rest := SortedKeys(ks - {k});
      assert SortedKeys(ks) == [k] + rest && k !in rest;
      SortedKeysDistinct(ks - {k});
      DistinctCons(k, rest);
    }
  }

  lemma SortedKeysIncreasing(ks: set<text>)
    ensures var r := SortedKeys(ks); forall i, j :: 0 <= i < j < |r| ==> LexLeq(r[i], r[j]) && r[i] != r[j]
  {
    SortedKeysSorted(ks);
    SortedKeysDistinct(ks);
  }

  /** Any strictly increasing list of the keys is the sorted list of the keys. */
  lemma {:induction false} SortedKeysUnique(ks: set<text>, r: seq<text>)
    requires forall k :: k in ks <==> k in r
    requires forall i, j :: 0 <= i < j < |r| ==> LexLeq(r[i], r[j]) && r[i] != r[j]
    ensures SortedKeys(ks) == r
  {
    if r == [] {
      assert ks == {};
    } else {
      LexIsTotalPreorder();
      assert r[0] in ks && IsLeast(r[0], ks);
      LeastKey(ks);
      SortedKeysUnique(ks - {r[0]}, r[1..]);
    }
  }
}
