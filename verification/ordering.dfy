/** Ordering of references by author list (`compareRefs`) and the optional
    stable sort of grabref.go. */
module Ordering {
  import opened Types

  /** `strings.Compare`: -1, 0 or +1 by lexicographic order of the
      characters, a proper prefix ordering first. */
  function Compare(s: string, t: string): (r: int)
    ensures -1 <= r <= 1
    ensures r == 0 <==> s == t
    decreases |s|
  {
    if |s| == 0 && |t| == 0 then 0
    else if |s| == 0 then -1
    else if |t| == 0 then 1
    else if s[0] < t[0] then -1
    else if s[0] > t[0] then 1
    else
      var r := Compare(s[1..], t[1..]);
      assert s == [s[0]] + s[1..] && t == [t[0]] + t[1..];
      r
  }

  lemma {:induction false} CompareAntisymmetric(s: string, t: string)
    ensures Compare(s, t) == -Compare(t, s)
    decreases |s|
  {
    if |s| > 0 && |t| > 0 && s[0] == t[0] {
      CompareAntisymmetric(s[1..], t[1..]);
    }
  }

  lemma {:induction false} CompareTransitive(s: string, t: string, u: string)
    requires Compare(s, t) < 0 && Compare(t, u) < 0
    ensures Compare(s, u) < 0
    decreases |s|
  {
    if |s| > 0 && |t| > 0 && |u| > 0 && s[0] == t[0] && t[0] == u[0] {
      CompareTransitive(s[1..], t[1..], u[1..]);
    }
  }

  /** Lexicographic order on author lists, element by element with
      `Compare`, a strict prefix ordering first: the reference definition
      of `compareRefs`. */
  predicate Less(a: seq<string>, b: seq<string>)
    decreases |a|
  {
    if |b| == 0 then false
    else if |a| == 0 then true
    else Compare(a[0], b[0]) < 0 || (a[0] == b[0] && Less(a[1..], b[1..]))
  }

  /** `compareRefs` as written: scan the common length, decide on the
      first difference, otherwise the shorter list is smaller. */
  method CompareRefs(a: seq<string>, b: seq<string>) returns (less: bool)
    ensures less == Less(a, b)
  {
    var m := if |a| < |b| then |a| else |b|;
    var i := 0;
    while i < m
      invariant 0 <= i <= m
      invariant a[..i] == b[..i]
      invariant Less(a, b) == Less(a[i..], b[i..])
    {
      var comp := Compare(a[i], b[i]);
      if comp < 0 {
        return true;
      }
      if comp > 0 {
        CompareAntisymmetric(a[i], b[i]);
        return false;
      }
      assert a[i..][1..] == a[i + 1..] && b[i..][1..] == b[i + 1..];
      assert a[..i + 1] == a[..i] + [a[i]];
      assert b[..i + 1] == b[..i] + [b[i]];
      i := i + 1;
    }
    less := |a| < |b|;
  }

  lemma {:induction false} LessIrreflexive(a: seq<string>)
    ensures !Less(a, a)
    decreases |a|
  {
    if |a| > 0 {
      LessIrreflexive(a[1..]);
    }
  }

  lemma {:induction false} LessAsymmetric(a: seq<string>, b: seq<string>)
    requires Less(a, b)
    ensures !Less(b, a)
    decreases |a|
  {
    if |a| > 0 && |b| > 0 {
      CompareAntisymmetric(a[0], b[0]);
      if a[0] == b[0] {
        LessAsymmetric(a[1..], b[1..]);
      }
    }
  }

  lemma {:induction false} LessTransitive(a: seq<string>, b: seq<string>, c: seq<string>)
    requires Less(a, b) && Less(b, c)
    ensures Less(a, c)
    decreases |a|
  {
    if |a| > 0 {
      if Compare(a[0], b[0]) < 0 && Compare(b[0], c[0]) < 0 {
        CompareTransitive(a[0], b[0], c[0]);
      } else if a[0] == b[0] && b[0] == c[0] {
        LessTransitive(a[1..], b[1..], c[1..]);
      }
    }
  }

  /** Distinct author lists are always ordered one way or the other. */
  lemma {:induction false} LessTotal(a: seq<string>, b: seq<string>)
    requires a != b
    ensures Less(a, b) || Less(b, a)
    decreases |a|
  {
    if |a| > 0 && |b| > 0 {
      CompareAntisymmetric(a[0], b[0]);
      if a[0] == b[0] {
        assert a == [a[0]] + a[1..] && b == [b[0]] + b[1..];
        LessTotal(a[1..], b[1..]);
      }
    }
  }

  /** A strict prefix sorts before its extension. */
  lemma {:induction false} PrefixIsLess(a: seq<string>, b: seq<string>)
    requires |a| < |b| && a == b[..|a|]
    ensures Less(a, b)
    decreases |a|
  {
    if |a| > 0 {
      assert a[1..] == b[1..][..|a| - 1];
      PrefixIsLess(a[1..], b[1..]);
    }
  }

  // ---------------------------------------------------------------- stable sort

  /** No reference is followed by one whose author list is strictly smaller. */
  predicate Sorted(s: seq<Reference>) {
    forall i, j :: 0 <= i < j < |s| ==> !Less(s[j].authors, s[i].authors)
  }

  /** The references whose author list is `key`, in their order in `s`. */
  function WithAuthors(s: seq<Reference>, key: seq<string>): (r: seq<Reference>)
    ensures |r| <= |s|
    decreases |s|
  {
    if |s| == 0 then []
    else (if s[0].authors == key then [s[0]] else []) + WithAuthors(s[1..], key)
  }

  /** Inserts `x` before the first element that is not smaller than it, so
      that `x` precedes the references with an equal author list. */
  function Insert(x: Reference, s: seq<Reference>): (r: seq<Reference>)
    ensures multiset(r) == multiset(s) + multiset{x}
    decreases |s|
  {
    if |s| == 0 then [x]
    else if Less(s[0].authors, x.authors) then
      var r := [s[0]] + Insert(x, s[1..]);
      assert s == [s[0]] + s[1..];
      r
    else [x] + s
  }

  /** `sort.SliceStable(references, compareRefs)`, specified by an
      insertion sort. */
  function SortStable(s: seq<Reference>): (r: seq<Reference>)
    ensures multiset(r) == multiset(s)
    decreases |s|
  {
    if |s| == 0 then []
    else
      var r := Insert(s[0], SortStable(s[1..]));
      assert s == [s[0]] + s[1..];
      r
  }

  lemma SortedCons(y: Reference, t: seq<Reference>)
    requires Sorted(t)
    requires forall j :: 0 <= j < |t| ==> !Less(t[j].authors, y.authors)
    ensures Sorted([y] + t)
  {
    var r := [y] + t;
    forall i, j | 0 <= i < j < |r|
      ensures !Less(r[j].authors, r[i].authors)
    {
      assert r[j] == t[j - 1];
      if i > 0 {
        assert r[i] == t[i - 1];
      }
    }
  }

  /** Nothing in `s` is smaller than `x` when `x` is not larger than the
      head of sorted `s`. */
  lemma BelowSortedHead(x: Reference, s: seq<Reference>)
    requires Sorted(s) && |s| > 0
    requires !Less(s[0].authors, x.authors)
    ensures forall j :: 0 <= j < |s| ==> !Less(s[j].authors, x.authors)
  {
    forall j | 0 < j < |s|
      ensures !Less(s[j].authors, x.authors)
    {
      if Less(s[j].authors, x.authors) && s[j].authors != s[0].authors {
        LessTotal(s[j].authors, s[0].authors);
        LessTransitive(s[0].authors, s[j].authors, x.authors);
      }
    }
  }

  lemma InsertMembers(x: Reference, s: seq<Reference>, z: Reference)
    requires z in Insert(x, s)
    ensures z == x || z in s
  {
    assert z in multiset(Insert(x, s));
  }

  lemma {:induction false} InsertSorted(x: Reference, s: seq<Reference>)
    requires Sorted(s)
    ensures Sorted(Insert(x, s))
    decreases |s|
  {
    if |s| == 0 {
    } else if Less(s[0].authors, x.authors) {
      assert Sorted(s[1..]);
      InsertSorted(x, s[1..]);
      var tail := Insert(x, s[1..]);
      forall j | 0 <= j < |tail|
        ensures !Less(tail[j].authors, s[0].authors)
      {
        InsertMembers(x, s[1..], tail[j]);
        if tail[j] == x {
          LessAsymmetric(s[0].authors, x.authors);
        } else {
          var k :| 0 <= k < |s[1..]| && s[1..][k] == tail[j];
          assert s[k + 1] == tail[j];
        }
      }
      SortedCons(s[0], tail);
    } else {
      BelowSortedHead(x, s);
      SortedCons(x, s);
    }
  }

  /** The sorted result is ordered by `compareRefs`. */
  lemma {:induction false} SortStableSorted(s: seq<Reference>)
    ensures Sorted(SortStable(s))
    decreases |s|
  {
    if |s| > 0 {
      SortStableSorted(s[1..]);
      InsertSorted(s[0], SortStable(s[1..]));
    }
  }

  lemma WithAuthorsCons(y: Reference, t: seq<Reference>, key: seq<string>)
    ensures WithAuthors([y] + t, key) == (if y.authors == key then [y] else []) + WithAuthors(t, key)
  {
    assert ([y] + t)[1..] == t;
  }

  lemma {:induction false} WithAuthorsInsert(x: Reference, s: seq<Reference>, key: seq<string>)
    ensures WithAuthors(Insert(x, s), key) == WithAuthors([x] + s, key)
    decreases |s|
  {
    if |s| > 0 && Less(s[0].authors, x.authors) {
      var y := s[0];
      var t := s[1..];
      assert s == [y] + t;
      WithAuthorsInsert(x, t, key);
      var hx := if x.authors == key then [x] else [];
      var hy := if y.authors == key then [y] else [];
      var wt := WithAuthors(t, key);
      WithAuthorsCons(y, Insert(x, t), key);
      WithAuthorsCons(x, t, key);
      WithAuthorsCons(x, s, key);
      WithAuthorsCons(y, t, key);
      assert WithAuthors(Insert(x, s), key) == hy + (hx + wt);
      assert WithAuthors([x] + s, key) == hx + (hy + wt);
      if y.authors == key {
        LessIrreflexive(key);
        assert hx == [];
      }
      AppendAssoc(hy, hx, wt);
      AppendAssoc(hx, hy, wt);
      assert hy + hx == hx + hy;
    }
  }

  /** Stability: for every author list, the references carrying it keep
      their original relative order. */
  lemma {:induction false} SortStableIsStable(s: seq<Reference>, key: seq<string>)
    ensures WithAuthors(SortStable(s), key) == WithAuthors(s, key)
    decreases |s|
  {
    if |s| > 0 {
      SortStableIsStable(s[1..], key);
      WithAuthorsInsert(s[0], SortStable(s[1..]), key);
      assert ([s[0]] + SortStable(s[1..]))[1..] == SortStable(s[1..]);
    }
  }

  lemma {:induction false} WithAuthorsMember(s: seq<Reference>, key: seq<string>, z: Reference)
    requires z in WithAuthors(s, key)
    ensures z in s && z.authors == key
    decreases |s|
  {
    if |s| > 0 {
      WithAuthorsCons(s[0], s[1..], key);
      assert s == [s[0]] + s[1..];
      if z != s[0] || s[0].authors != key {
        WithAuthorsMember(s[1..], key, z);
      }
    }
  }

  /** The head's author list is the smallest in a sorted list. */
  lemma SortedHeadSmallest(r: seq<Reference>, z: Reference)
    requires Sorted(r) && |r| > 0 && z in r
    ensures !Less(z.authors, r[0].authors)
  {
    var j :| 0 <= j < |r| && r[j] == z;
    if j == 0 {
      LessIrreflexive(z.authors);
    }
  }

  lemma NonEmptyHasGroup(r: seq<Reference>)
    requires |r| > 0
    ensures WithAuthors(r, r[0].authors) != []
  {
    WithAuthorsCons(r[0], r[1..], r[0].authors);
    assert r == [r[0]] + r[1..];
  }

  /** Two sorted lists that agree on every group start with the same reference. */
  lemma SameHead(r1: seq<Reference>, r2: seq<Reference>)
    requires Sorted(r1) && Sorted(r2) && |r1| > 0 && |r2| > 0
    requires forall key :: WithAuthors(r1, key) == WithAuthors(r2, key)
    ensures r1[0] == r2[0]
  {
    var x1, x2 := r1[0], r2[0];
    assert r1 == [x1] + r1[1..] && r2 == [x2] + r2[1..];
    var k1, k2 := x1.authors, x2.authors;
    WithAuthorsCons(x1, r1[1..], k1);
    WithAuthorsCons(x2, r2[1..], k2);
    assert x1 in WithAuthors(r2, k1);
    WithAuthorsMember(r2, k1, x1);
    SortedHeadSmallest(r2, x1);
    assert x2 in WithAuthors(r1, k2);
    WithAuthorsMember(r1, k2, x2);
    SortedHeadSmallest(r1, x2);
    if k1 != k2 {
      LessTotal(k1, k2);
    }
    WithAuthorsCons(x2, r2[1..], k1);
    assert WithAuthors(r1, k1)[0] == x1 && WithAuthors(r2, k1)[0] == x2;
  }

  lemma SameTailGroup(r1: seq<Reference>, r2: seq<Reference>, key: seq<string>)
    requires |r1| > 0 && |r2| > 0 && r1[0] == r2[0]
    requires WithAuthors(r1, key) == WithAuthors(r2, key)
    ensures WithAuthors(r1[1..], key) == WithAuthors(r2[1..], key)
  {
    assert r1 == [r1[0]] + r1[1..] && r2 == [r2[0]] + r2[1..];
    WithAuthorsCons(r1[0], r1[1..], key);
    WithAuthorsCons(r2[0], r2[1..], key);
    var h := if r1[0].authors == key then [r1[0]] else [];
    var a, b := WithAuthors(r1[1..], key), WithAuthors(r2[1..], key);
    assert h + a == h + b;
    assert a == (h + a)[|h|..] && b == (h + b)[|h|..];
  }

  lemma SameTailGroups(r1: seq<Reference>, r2: seq<Reference>)
    requires |r1| > 0 && |r2| > 0 && r1[0] == r2[0]
    requires forall key :: WithAuthors(r1, key) == WithAuthors(r2, key)
    ensures forall key :: WithAuthors(r1[1..], key) == WithAuthors(r2[1..], key)
  {
    forall key
      ensures WithAuthors(r1[1..], key) == WithAuthors(r2[1..], key)
    {
      SameTailGroup(r1, r2, key);
    }
  }

  /** A sorted list is determined by what it holds for each author list:
      two sorted lists that agree on every `WithAuthors` are equal. */
  lemma {:induction false} SortedDeterminedByGroups(r1: seq<Reference>, r2: seq<Reference>)
    requires Sorted(r1) && Sorted(r2)
    requires forall key :: WithAuthors(r1, key) == WithAuthors(r2, key)
    ensures r1 == r2
    decreases |r1|
  {
    if |r1| > 0 && |r2| == 0 {
      NonEmptyHasGroup(r1);
    } else if |r2| > 0 && |r1| == 0 {
      NonEmptyHasGroup(r2);
    } else if |r1| > 0 {
      SameHead(r1, r2);
      SameTailGroups(r1, r2);
      assert Sorted(r1[1..]) && Sorted(r2[1..]);
      SortedDeterminedByGroups(r1[1..], r2[1..]);
      assert r1 == [r1[0]] + r1[1..] && r2 == [r2[0]] + r2[1..];
    }
  }

  /** Any stable sort of `s` by `compareRefs` (a sorted list that keeps
      every author list's references in their original order) is exactly
      `SortStable(s)`; so the insertion sort stands for `sort.SliceStable`. */
  lemma StableSortIsUnique(s: seq<Reference>, r: seq<Reference>)
    requires Sorted(r)
    requires forall key :: WithAuthors(r, key) == WithAuthors(s, key)
    ensures r == SortStable(s)
  {
    SortStableSorted(s);
    forall key
      ensures WithAuthors(r, key) == WithAuthors(SortStable(s), key)
    {
      SortStableIsStable(s, key);
    }
    SortedDeterminedByGroups(r, SortStable(s));
  }

  /** Whenever one reference's author list is smaller than another's, it
      comes first in a sorted list, whatever the original order. */
  lemma SortedRespectsLess(r: seq<Reference>, i: nat, j: nat)
    requires Sorted(r)
    requires i < |r| && j < |r|
    requires Less(r[i].authors, r[j].authors)
    ensures i < j
  {
    LessIrreflexive(r[i].authors);
  }

  /** `-sorted` decides between the stable sort and document order. */
  function Arrange(refs: seq<Reference>, sorted: bool): (r: seq<Reference>)
    ensures multiset(r) == multiset(refs)
    ensures sorted ==> Sorted(r)
    ensures !sorted ==> r == refs
  {
    if sorted then
      SortStableSorted(refs);
      SortStable(refs)
    else refs
  }
}
