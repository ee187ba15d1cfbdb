/** Shared data model of the citation pipeline: spans into the document,
    the reference record, and the contract every find-all matcher keeps. */
module Types {

  datatype Option<T> = None | Some(value: T)

  /** A half-open range [start, end) of positions in a text. */
  datatype Span = Span(start: nat, end: nat)

  /** One extracted citation: the `Reference` struct of grabref.go. */
  datatype Reference = Reference(year: int, authors: seq<string>, text: string)

  predicate InBounds(s: Span, n: nat) {
    s.start <= s.end <= n
  }

  /** The text a span covers. */
  function Slice(text: string, s: Span): (r: string)
    requires InBounds(s, |text|)
    ensures |r| == s.end - s.start
  {
    text[s.start..s.end]
  }

  /** What a find-all over a pattern that never matches the empty string
      returns: non-empty, in-bounds matches, ordered by position and
      pairwise non-overlapping. */
  predicate WellFormed(spans: seq<Span>, n: nat) {
    && (forall i :: 0 <= i < |spans| ==> spans[i].start < spans[i].end <= n)
    && (forall i, j :: 0 <= i < j < |spans| ==> spans[i].end <= spans[j].start)
  }

  /** Putting a span in front of a well-formed list that starts after it
      keeps the list well formed. */
  lemma ConsWellFormed(x: Span, rest: seq<Span>, n: nat)
    requires x.start < x.end <= n
    requires WellFormed(rest, n)
    requires forall k :: 0 <= k < |rest| ==> x.end <= rest[k].start
    ensures WellFormed([x] + rest, n)
  {
    var r := [x] + rest;
    forall i, j | 0 <= i < j < |r|
      ensures r[i].end <= r[j].start
    {
      if i > 0 {
        assert r[i] == rest[i - 1] && r[j] == rest[j - 1];
      }
    }
  }

  /** The contract of an opaque find-all matcher (`FindAllIndex` with
      limit -1) over a pattern that needs four digits, as `accuRe` and
      `subitemRe` do: whatever the text, its answer is well formed for it. */
  ghost predicate IsFindAll(find: string -> seq<Span>) {
    forall t :: WellFormed(find(t), |t|)
  }

  /** Moves every span right by `offset`. */
  function Shift(spans: seq<Span>, offset: nat): (r: seq<Span>)
    ensures |r| == |spans|
    ensures forall i :: 0 <= i < |r| ==>
              r[i].start == spans[i].start + offset && r[i].end == spans[i].end + offset
  {
    seq(|spans|, i requires 0 <= i < |spans| => Span(spans[i].start + offset, spans[i].end + offset))
  }

  /** The end offsets of a span list, the only coordinate the reconciler looks at. */
  function Ends(spans: seq<Span>): (r: seq<nat>)
    ensures |r| == |spans|
    ensures forall i :: 0 <= i < |r| ==> r[i] == spans[i].end
  {
    seq(|spans|, i requires 0 <= i < |spans| => spans[i].end)
  }

  lemma AppendAssoc<T>(a: seq<T>, b: seq<T>, c: seq<T>)
    ensures a + (b + c) == (a + b) + c
  {
  }

  lemma TakeSnoc<T>(s: seq<T>, i: nat)
    requires i < |s|
    ensures s[..i + 1] == s[..i] + [s[i]]
  {
  }

  lemma SplitLast<T>(s: seq<T>)
    requires |s| > 0
    ensures s == s[..|s| - 1] + [s[|s| - 1]]
  {
  }

  lemma TakeAll<T>(s: seq<T>)
    ensures s[..|s|] == s
  {
  }

  lemma TakeAppend<T>(a: seq<T>, b: seq<T>, i: nat)
    requires i <= |a|
    ensures (a + b)[..i] == a[..i]
  {
  }

  lemma AppendNil<T>(s: seq<T>)
    ensures s + [] == s
  {
  }

  lemma TakeIndex<T>(s: seq<T>, n: nat, i: nat)
    requires i < n <= |s|
    ensures s[..n][i] == s[i]
  {
  }

  lemma MemberAppend<T>(a: seq<T>, b: seq<T>, x: T)
    requires x in a || x in b
    ensures x in a + b
  {
  }

  lemma AppendNilLeft<T>(s: seq<T>)
    ensures [] + s == s
  {
  }

  lemma ConsAppend<T>(a: seq<T>, b: seq<T>)
    requires |a| > 0
    ensures (a + b)[0] == a[0] && (a + b)[1..] == a[1..] + b
  {
  }

  lemma IndexAppend<T>(a: seq<T>, b: seq<T>, i: nat)
    requires i < |a| + |b|
    ensures (a + b)[i] == if i < |a| then a[i] else b[i - |a|]
  {
  }

  lemma EndsSnoc(spans: seq<Span>, x: Span)
    ensures Ends(spans + [x]) == Ends(spans) + [x.end]
  {
  }
}
