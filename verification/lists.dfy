/**
 * Sequence helpers the scripts lean on: `filter`, `find`, the distinct
 * keys of a `Map` in insertion order, and `Array.prototype.sort`, which is
 * stable. A comparator is a strict "comes before" relation; the default
 * sort compares UTF-16 code units.
 */
module Lists {
  import opened Optional
  import opened Text

  /** `s.filter(p)`. */
  function Filter(s: seq<string>, p: string -> bool): (r: seq<string>)
    ensures |r| <= |s|
    ensures forall x :: x in r <==> x in s && p(x)
    ensures forall k :: 0 <= k < |r| ==> p(r[k])
  {
    if |s| == 0 then []
    else
      var rest := Filter(s[..|s| - 1], p);
      assert s == s[..|s| - 1] + [s[|s| - 1]];
      if p(s[|s| - 1]) then rest + [s[|s| - 1]] else rest
  }

  /** Filtering keeps the listing order: a concatenation filters part by part. */
  lemma {:induction false} FilterAppend(s: seq<string>, t: seq<string>, p: string -> bool)
    ensures Filter(s + t, p) == Filter(s, p) + Filter(t, p)
    decreases |t|
  {
    if |t| == 0 {
      assert s + t == s;
    } else {
      var u := s + t;
      assert u[..|u| - 1] == s + t[..|t| - 1];
      assert u[|u| - 1] == t[|t| - 1];
      FilterAppend(s, t[..|t| - 1], p);
    }
  }

  /** A one-element listing keeps its element exactly when it passes. */
  lemma FilterSingle(x: string, p: string -> bool)
    ensures Filter([x], p) == if p(x) then [x] else []
  {
    assert [x][..0] == [];
  }

  /** `s.findIndex(p)`: the first index whose element satisfies `p`. */
  function Find(s: seq<string>, p: string -> bool): (r: Option<nat>)
    ensures r.Some? ==> r.value < |s| && p(s[r.value]) && forall k :: 0 <= k < r.value ==> !p(s[k])
    ensures r.None? ==> forall k :: 0 <= k < |s| ==> !p(s[k])
  {
    if |s| == 0 then None
    else if p(s[0]) then Some(0)
    else match Find(s[1..], p)
      case Some(i) => Some(i + 1)
      case None => None
  }

  predicate Distinct(s: seq<string>) {
    forall i, j :: 0 <= i < j < |s| ==> s[i] != s[j]
  }

  /** The distinct elements of `s` in order of first appearance, as a `Map` keeps its keys. */
  function Dedup(s: seq<string>): (r: seq<string>)
    ensures Distinct(r)
    ensures forall x :: x in r <==> x in s
    ensures |r| <= |s|
  {
    if |s| == 0 then []
    else
      var rest := Dedup(s[..|s| - 1]);
      assert s == s[..|s| - 1] + [s[|s| - 1]];
      if s[|s| - 1] in rest then rest else rest + [s[|s| - 1]]
  }

  // ---------------------------------------------------------------
  // Grouping by a key
  // ---------------------------------------------------------------

  /** The key of every element, in order. */
  function KeyList(s: seq<string>, key: string -> string): (r: seq<string>)
    ensures |r| == |s|
    ensures forall i :: 0 <= i < |s| ==> r[i] == key(s[i])
  {
    seq(|s|, i requires 0 <= i < |s| => key(s[i]))
  }

  /** The elements with key `k`, in order. */
  function GroupOf(s: seq<string>, key: string -> string, k: string): (g: seq<string>)
    ensures forall x :: x in g <==> x in s && key(x) == k
  {
    if |s| == 0 then []
    else
      var x := s[|s| - 1];
      var rest := GroupOf(s[..|s| - 1], key, k);
      assert s == s[..|s| - 1] + [x];
      if key(x) == k then rest + [x] else rest
  }

  /** The distinct keys in order of first appearance. */
  function GroupKeys(s: seq<string>, key: string -> string): (keys: seq<string>)
    ensures Distinct(keys)
    ensures forall k :: k in keys <==> exists x :: x in s && key(x) == k
  {
    var ks := KeyList(s, key);
    forall k | k in ks
      ensures exists x :: x in s && key(x) == k
    {
      var i :| 0 <= i < |ks| && ks[i] == k;
      assert s[i] in s;
    }
    forall k | exists x :: x in s && key(x) == k
      ensures k in ks
    {
      var x :| x in s && key(x) == k;
      var i :| 0 <= i < |s| && s[i] == x;
      assert ks[i] == k;
    }
    Dedup(ks)
  }

  /** One more element of `s` is the prefix grown by it. */
  lemma TakeOneMore(s: seq<string>, i: nat)
    requires i < |s|
    ensures s[..i + 1] == s[..i] + [s[i]]
  {
  }

  lemma KeyListSnoc(s: seq<string>, key: string -> string, x: string)
    ensures KeyList(s + [x], key) == KeyList(s, key) + [key(x)]
  {
  }

  lemma GroupOfSnoc(s: seq<string>, key: string -> string, x: string)
    ensures forall k :: GroupOf(s + [x], key, k) == GroupOf(s, key, k) + (if key(x) == k then [x] else [])
  {
    assert (s + [x])[..|s|] == s;
  }

  /** A key never seen has no elements. */
  lemma GroupOfAbsent(s: seq<string>, key: string -> string, k: string)
    requires k !in GroupKeys(s, key)
    ensures GroupOf(s, key, k) == []
  {
  }

  /** Each list of `groups` holds exactly the elements of `s` with its key. */
  predicate GroupsOf(groups: map<string, seq<string>>, s: seq<string>, key: string -> string) {
    forall k :: k in groups ==> groups[k] == GroupOf(s, key, k)
  }

  /** `if (!groups.has(k)) groups.set(k, []); groups.get(k).push(x)`. */
  function Push(groups: map<string, seq<string>>, k: string, x: string): map<string, seq<string>> {
    var g := if k in groups then groups else groups[k := []];
    g[k := g[k] + [x]]
  }

  /** Pushing the next element onto its key's list keeps every list exact. */
  lemma PushKeepsGroups(groups: map<string, seq<string>>, s: seq<string>, key: string -> string, x: string)
    requires GroupsOf(groups, s, key)
    requires key(x) !in groups ==> GroupOf(s, key, key(x)) == []
    ensures GroupsOf(Push(groups, key(x), x), s + [x], key)
  {
    GroupOfSnoc(s, key, x);
  }

  /** Every key has at least one element. */
  lemma GroupNonEmpty(s: seq<string>, key: string -> string, k: string)
    requires k in GroupKeys(s, key)
    ensures |GroupOf(s, key, k)| > 0
  {
    var x :| x in s && key(x) == k;
    assert x in GroupOf(s, key, k);
  }

  // ---------------------------------------------------------------
  // Sorting
  // ---------------------------------------------------------------

  /** A comparator that is irreflexive and transitive, as `localeCompare(a, b) < 0` is. */
  ghost predicate StrictOrder(before: (string, string) -> bool) {
    (forall a :: !before(a, a)) &&
    (forall a, b, c :: before(a, b) && before(b, c) ==> before(a, c))
  }

  /** No later element comes before an earlier one. */
  predicate Sorted(s: seq<string>, before: (string, string) -> bool) {
    forall i, j :: 0 <= i < j < |s| ==> !before(s[j], s[i])
  }

  /** Insert `x` after every element it does not come before, which keeps equal elements in order. */
  function Insert(x: string, r: seq<string>, before: (string, string) -> bool): (out: seq<string>)
    ensures |out| == |r| + 1
    ensures multiset(out) == multiset(r) + multiset{x}
  {
    if |r| == 0 then [x]
    else if before(x, r[0]) then [x] + r
    else
      assert r == [r[0]] + r[1..];
      [r[0]] + Insert(x, r[1..], before)
  }

  /** The stable sort of `s` under `before`. */
  function SortBy(s: seq<string>, before: (string, string) -> bool): (r: seq<string>)
    ensures |r| == |s|
    ensures multiset(r) == multiset(s)
  {
    if |s| == 0 then []
    else
      assert s == s[..|s| - 1] + [s[|s| - 1]];
      Insert(s[|s| - 1], SortBy(s[..|s| - 1], before), before)
  }

  /** An element no later element comes before, put in front of a sorted sequence, keeps it sorted. */
  lemma SortedCons(y: string, t: seq<string>, before: (string, string) -> bool)
    requires Sorted(t, before)
    requires forall k :: 0 <= k < |t| ==> !before(t[k], y)
    ensures Sorted([y] + t, before)
  {
    var out := [y] + t;
    forall i, j | 0 <= i < j < |out|
      ensures !before(out[j], out[i])
    {
      assert out[j] == t[j - 1];
      if i > 0 {
        assert out[i] == t[i - 1];
      }
    }
  }

  lemma {:induction false} InsertSorted(x: string, r: seq<string>, before: (string, string) -> bool)
    requires StrictOrder(before)
    requires Sorted(r, before)
    ensures Sorted(Insert(x, r, before), before)
  {
    if |r| > 0 && before(x, r[0]) {
      forall k | 0 <= k < |r|
        ensures !before(r[k], x)
      {
        if k > 0 {
          assert !before(r[k], r[0]);
        }
      }
      SortedCons(x, r, before);
    } else if |r| > 0 {
      InsertSorted(x, r[1..], before);
      var tail := Insert(x, r[1..], before);
      forall k | 0 <= k < |tail|
        ensures !before(tail[k], r[0])
      {
        assert tail[k] in multiset(r[1..]) + multiset{x};
        if tail[k] != x {
          assert tail[k] in r[1..];
        }
      }
      SortedCons(r[0], tail, before);
    }
  }

  /** Under a strict order the result is sorted. */
  lemma {:induction false} SortBySorted(s: seq<string>, before: (string, string) -> bool)
    requires StrictOrder(before)
    ensures Sorted(SortBy(s, before), before)
  {
    if |s| > 0 {
      SortBySorted(s[..|s| - 1], before);
      InsertSorted(s[|s| - 1], SortBy(s[..|s| - 1], before), before);
    }
  }

  lemma SortedUnderStrictOrder(s: seq<string>, before: (string, string) -> bool)
    ensures StrictOrder(before) ==> Sorted(SortBy(s, before), before)
  {
    if StrictOrder(before) {
      SortBySorted(s, before);
    }
  }

  lemma SortByKeepsElements(s: seq<string>, before: (string, string) -> bool)
    ensures forall x :: x in SortBy(s, before) <==> x in s
  {
    var r := SortBy(s, before);
    assert forall x :: x in r <==> x in multiset(r);
    assert forall x :: x in s <==> x in multiset(s);
  }

  lemma DistinctByMultiset(a: seq<string>, b: seq<string>)
    requires multiset(a) == multiset(b)
    requires Distinct(a)
    ensures Distinct(b)
  {
    forall i, j | 0 <= i < j < |b|
      ensures b[i] != b[j]
    {
      if b[i] == b[j] {
        var x := b[i];
        var bi := b[..i] + b[i + 1..];
        assert b == b[..i] + [x] + b[i + 1..];
        assert x in bi by {
          assert bi[j - 1] == b[j];
        }
        assert multiset(b) == multiset(bi) + multiset{x};
        assert multiset(b)[x] >= 2;
        assert multiset(a)[x] >= 2;
        DistinctCount(a, x);
      }
    }
  }

  lemma {:induction false} DistinctCount(a: seq<string>, x: string)
    requires Distinct(a)
    ensures multiset(a)[x] <= 1
  {
    if |a| > 0 {
      var last := a[|a| - 1];
      var init := a[..|a| - 1];
      assert a == init + [last];
      DistinctCount(init, x);
      assert last !in init;
      if x == last {
        assert multiset(init)[x] == 0;
      }
    }
  }

  /** Sorting a sequence without repeats gives one without repeats. */
  lemma SortByKeepsDistinct(s: seq<string>, before: (string, string) -> bool)
    requires Distinct(s)
    ensures Distinct(SortBy(s, before))
  {
    DistinctByMultiset(s, SortBy(s, before));
  }

  // ---------------------------------------------------------------
  // The default sort order: UTF-16 code units, lexicographically
  // ---------------------------------------------------------------

  function LexLess(a: seq<int>, b: seq<int>): bool {
    if |a| == 0 then |b| > 0
    else if |b| == 0 then false
    else if a[0] != b[0] then a[0] < b[0]
    else LexLess(a[1..], b[1..])
  }

  lemma {:induction false} LexLessTransitive(a: seq<int>, b: seq<int>, c: seq<int>)
    requires LexLess(a, b) && LexLess(b, c)
    ensures LexLess(a, c)
  {
    if |a| > 0 && |b| > 0 && |c| > 0 && a[0] == b[0] && b[0] == c[0] {
      LexLessTransitive(a[1..], b[1..], c[1..]);
    }
  }

  lemma {:induction false} LexLessIrreflexive(a: seq<int>)
    ensures !LexLess(a, a)
  {
    if |a| > 0 {
      LexLessIrreflexive(a[1..]);
    }
  }

  /** What `.sort()` without a comparator compares. */
  predicate CodeUnitBefore(x: string, y: string) {
    LexLess(CodeUnits(x), CodeUnits(y))
  }

  /** The default order is a strict order, so `.sort()` sorts. */
  lemma CodeUnitOrderIsStrict()
    ensures StrictOrder(CodeUnitBefore)
  {
    forall a, b, c | CodeUnitBefore(a, b) && CodeUnitBefore(b, c)
      ensures CodeUnitBefore(a, c)
    {
      LexLessTransitive(CodeUnits(a), CodeUnits(b), CodeUnits(c));
    }
    forall x
      ensures !CodeUnitBefore(x, x)
    {
      LexLessIrreflexive(CodeUnits(x));
    }
  }
}
