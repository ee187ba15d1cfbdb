/** The confidence reconciler of grabref.go: a one-pass merge of the coarse
    matches against the confident matches, synchronised on end offsets. */
module Reconcile {
  import opened Types

  /** How the loop treats one coarse span: it either advances the cursor
      (`Covered`) or is reported as a possible reference (`Possible`). */
  datatype Verdict = Covered | Possible

  /** The loop's state: one verdict per coarse span seen so far, and the
      cursor into the confident matches (`idxConfidentMatches`). */
  datatype Reconciliation = Reconciliation(verdicts: seq<Verdict>, cursor: nat)

  /** The number of `Covered` verdicts. */
  function CountCovered(v: seq<Verdict>): (n: nat)
    ensures n <= |v|
    decreases |v|
  {
    if |v| == 0 then 0
    else CountCovered(v[..|v| - 1]) + (if v[|v| - 1] == Covered then 1 else 0)
  }

  /** The elements of `s` whose verdict is `w`, in their original order. */
  function Pick<T>(s: seq<T>, v: seq<Verdict>, w: Verdict): (r: seq<T>)
    requires |s| == |v|
    ensures |r| <= |s|
    decreases |s|
  {
    if |s| == 0 then []
    else Pick(s[..|s| - 1], v[..|v| - 1], w) + (if v[|v| - 1] == w then [s[|s| - 1]] else [])
  }

  /** One iteration of the loop body. */
  function Step(r: Reconciliation, coarse: Span, confident: seq<Span>): Reconciliation
  {
    if r.cursor >= |confident| || coarse.end != confident[r.cursor].end then
      Reconciliation(r.verdicts + [Possible], r.cursor)
    else
      Reconciliation(r.verdicts + [Covered], r.cursor + 1)
  }

  /** The state after the loop has run over all of `coarse`: one verdict
      per coarse span, and a cursor that counts the covered ones and never
      passes the end of the confident matches. */
  function Run(coarse: seq<Span>, confident: seq<Span>): (r: Reconciliation)
    ensures |r.verdicts| == |coarse|
    ensures r.cursor <= |confident|
    ensures r.cursor == CountCovered(r.verdicts)
    decreases |coarse|
  {
    if |coarse| == 0 then Reconciliation([], 0)
    else
      var n := |coarse| - 1;
      var prev := Run(coarse[..n], confident);
      var r := Step(prev, coarse[n], confident);
      assert r.verdicts[..n] == prev.verdicts;
      r
  }

  lemma RunSnoc(coarse: seq<Span>, x: Span, confident: seq<Span>)
    ensures Run(coarse + [x], confident) == Step(Run(coarse, confident), x, confident)
  {
    assert (coarse + [x])[..|coarse|] == coarse;
  }

  lemma PickSnoc<T>(s: seq<T>, v: seq<Verdict>, x: T, u: Verdict, w: Verdict)
    requires |s| == |v|
    ensures Pick(s + [x], v + [u], w) == Pick(s, v, w) + (if u == w then [x] else [])
  {
    assert (s + [x])[..|s|] == s;
    assert (v + [u])[..|v|] == v;
  }

  lemma CountSnoc(v: seq<Verdict>, u: Verdict)
    ensures CountCovered(v + [u]) == CountCovered(v) + (if u == Covered then 1 else 0)
  {
    assert (v + [u])[..|v|] == v;
  }

  /** A step appends exactly one verdict. */
  lemma StepExtends(r: Reconciliation, x: Span, confident: seq<Span>)
    ensures |Step(r, x, confident).verdicts| == |r.verdicts| + 1
    ensures Step(r, x, confident).verdicts == r.verdicts + [Step(r, x, confident).verdicts[|r.verdicts|]]
  {
  }

  /** Running on a prefix gives the prefix of the verdicts. */
  lemma {:induction false} RunPrefix(coarse: seq<Span>, confident: seq<Span>, i: nat)
    requires i <= |coarse|
    ensures Run(coarse[..i], confident).verdicts == Run(coarse, confident).verdicts[..i]
    decreases |coarse|
  {
    if i == |coarse| {
      TakeAll(coarse);
      TakeAll(Run(coarse, confident).verdicts);
    } else {
      var init, x := coarse[..|coarse| - 1], coarse[|coarse| - 1];
      SplitLast(coarse);
      RunPrefix(init, confident, i);
      var prev := Run(init, confident);
      RunSnoc(init, x, confident);
      StepExtends(prev, x, confident);
      TakeAppend(init, [x], i);
      TakeAppend(prev.verdicts, [Step(prev, x, confident).verdicts[|prev.verdicts|]], i);
    }
  }

  /** The covered coarse spans, in order, end exactly where the first
      `cursor` confident matches end. */
  lemma {:induction false} CoveredEndsMatch(coarse: seq<Span>, confident: seq<Span>)
    ensures Ends(Pick(coarse, Run(coarse, confident).verdicts, Covered))
         == Ends(confident[..Run(coarse, confident).cursor])
    decreases |coarse|
  {
    if |coarse| > 0 {
      var init, x := coarse[..|coarse| - 1], coarse[|coarse| - 1];
      SplitLast(coarse);
      CoveredEndsMatch(init, confident);
      var prev := Run(init, confident);
      RunSnoc(init, x, confident);
      StepExtends(prev, x, confident);
      var u := Step(prev, x, confident).verdicts[|prev.verdicts|];
      PickSnoc(init, prev.verdicts, x, u, Covered);
      var before := Pick(init, prev.verdicts, Covered);
      if u == Covered {
        var c := prev.cursor;
        EndsSnoc(before, x);
        TakeSnoc(confident, c);
        EndsSnoc(confident[..c], confident[c]);
      } else {
        AppendNil(before);
      }
    }
  }

  /** The verdict a step appends says whether the cursor could advance. */
  lemma StepVerdict(r: Reconciliation, x: Span, confident: seq<Span>)
    ensures |Step(r, x, confident).verdicts| == |r.verdicts| + 1
    ensures Step(r, x, confident).verdicts[|r.verdicts|] == Possible
        <==> (r.cursor >= |confident| || x.end != confident[r.cursor].end)
  {
  }

  /** A coarse span is reported exactly when, at its turn, the cursor was
      exhausted or the current confident match ends elsewhere. */
  lemma PossibleIff(coarse: seq<Span>, confident: seq<Span>, k: nat)
    requires k < |coarse|
    ensures var r := Run(coarse, confident);
            var c := CountCovered(r.verdicts[..k]);
            r.verdicts[k] == Possible <==> (c >= |confident| || coarse[k].end != confident[c].end)
  {
    var v := Run(coarse, confident).verdicts;
    var init, x := coarse[..k], coarse[k];
    TakeSnoc(coarse, k);
    RunSnoc(init, x, confident);
    var prev := Run(init, confident);
    StepVerdict(prev, x, confident);
    RunPrefix(coarse, confident, k + 1);
    RunPrefix(coarse, confident, k);
    TakeIndex(v, k + 1, k);
  }

  /** The spans reported as "Possible reference", in document order. */
  function Reports(coarse: seq<Span>, confident: seq<Span>): seq<Span>
  {
    Pick(coarse, Run(coarse, confident).verdicts, Possible)
  }

  lemma {:induction false} PickCounts(s: seq<Span>, v: seq<Verdict>)
    requires |s| == |v|
    ensures |Pick(s, v, Possible)| + CountCovered(v) == |s|
    decreases |s|
  {
    if |s| > 0 {
      PickCounts(s[..|s| - 1], v[..|v| - 1]);
    }
  }

  /** Every coarse span is handled exactly once: the reports plus the final
      cursor account for all of them. */
  lemma ReportCount(coarse: seq<Span>, confident: seq<Span>)
    ensures |Reports(coarse, confident)| + Run(coarse, confident).cursor == |coarse|
  {
    PickCounts(coarse, Run(coarse, confident).verdicts);
  }

  /** With no confident matches every coarse span is reported. */
  lemma {:induction false} NoConfidentReportsAll(coarse: seq<Span>)
    ensures Reports(coarse, []) == coarse
    decreases |coarse|
  {
    if |coarse| > 0 {
      var n := |coarse| - 1;
      NoConfidentReportsAll(coarse[..n]);
      assert Run(coarse, []).verdicts[..n] == Run(coarse[..n], []).verdicts;
      assert coarse[..n] + [coarse[n]] == coarse;
    }
  }

  /** `a` can be obtained from `b` by deleting elements (any choice of
      deletions, not just the greedy one). */
  predicate IsSubsequence<T(==)>(a: seq<T>, b: seq<T>)
    decreases |b|
  {
    if |a| == 0 then true
    else if |b| == 0 then false
    else (a[|a| - 1] == b[|b| - 1] && IsSubsequence(a[..|a| - 1], b[..|b| - 1]))
         || IsSubsequence(a, b[..|b| - 1])
  }

  lemma {:induction false} PickIsSubsequence<T>(s: seq<T>, v: seq<Verdict>, w: Verdict)
    requires |s| == |v|
    ensures IsSubsequence(Pick(s, v, w), s)
    decreases |s|
  {
    if |s| > 0 {
      var n := |s| - 1;
      PickIsSubsequence(s[..n], v[..n], w);
      var p := Pick(s, v, w);
      assert s[..n] + [s[n]] == s;
      if v[n] == w {
        assert p[..|p| - 1] == Pick(s[..n], v[..n], w);
      } else {
        assert p == Pick(s[..n], v[..n], w);
        SubsequenceAppend(Pick(s[..n], v[..n], w), s[..n], s[n]);
      }
    }
  }

  lemma {:induction false} SubsequenceAppend<T>(a: seq<T>, b: seq<T>, x: T)
    requires IsSubsequence(a, b)
    ensures IsSubsequence(a, b + [x])
  {
    if |a| > 0 {
      assert (b + [x])[..|b|] == b;
    }
  }

  /** Whatever is picked comes from the picked-from sequence. */
  lemma {:induction false} PickMembers<T>(s: seq<T>, v: seq<Verdict>, w: Verdict)
    requires |s| == |v|
    ensures forall x :: x in Pick(s, v, w) ==> x in s
    decreases |s|
  {
    if |s| > 0 {
      var n := |s| - 1;
      PickMembers(s[..n], v[..n], w);
      assert forall x :: x in s[..n] ==> x in s;
    }
  }

  /** The reports are the coarse spans in their original order, some dropped. */
  lemma ReportsAreSubsequence(coarse: seq<Span>, confident: seq<Span>)
    ensures IsSubsequence(Reports(coarse, confident), coarse)
  {
    PickIsSubsequence(coarse, Run(coarse, confident).verdicts, Possible);
  }

  /** A step either leaves the cursor where it was or advances it past a
      confident match that ends where the coarse match does. */
  lemma StepMoves(r: Reconciliation, x: Span, confident: seq<Span>)
    ensures var q := Step(r, x, confident).cursor;
      q == r.cursor || (q == r.cursor + 1 && r.cursor < |confident| && confident[r.cursor].end == x.end)
  {
  }

  /** One step of the embedding argument: a prefix of the confident
      matches that embeds in `b` still embeds in `b + [y]`, and so does the
      prefix one longer when its last end offset is `y`. */
  lemma EmbeddedStep(confident: seq<Span>, p: nat, q: nat, b: seq<nat>, y: nat)
    requires p <= |confident|
    requires q == p || (q == p + 1 && p < |confident| && confident[p].end == y)
    requires IsSubsequence(Ends(confident[..p]), b)
    ensures IsSubsequence(Ends(confident[..q]), b + [y])
  {
    if q == p {
      SubsequenceAppend(Ends(confident[..p]), b, y);
    } else {
      var e := Ends(confident[..q]);
      assert e[..p] == Ends(confident[..p]);
      assert (b + [y])[..|b|] == b;
    }
  }

  /** The end offsets of the confident matches the cursor passed occur, in
      order, among the coarse end offsets. */
  lemma {:induction false} CursorEmbedded(coarse: seq<Span>, confident: seq<Span>)
    ensures IsSubsequence(Ends(confident[..Run(coarse, confident).cursor]), Ends(coarse))
    decreases |coarse|
  {
    if |coarse| > 0 {
      var init, x := coarse[..|coarse| - 1], coarse[|coarse| - 1];
      assert coarse == init + [x];
      CursorEmbedded(init, confident);
      RunSnoc(init, x, confident);
      EndsSnoc(init, x);
      var prev := Run(init, confident);
      StepMoves(prev, x, confident);
      EmbeddedStep(confident, prev.cursor, Run(coarse, confident).cursor, Ends(init), x.end);
    }
  }

  /** A step that leaves the cursor at or below `d` started at or below
      `d`, and if it started at `d` the coarse match does not end where the
      confident match `d` does. */
  lemma StepStops(r: Reconciliation, x: Span, confident: seq<Span>, d: nat)
    requires Step(r, x, confident).cursor <= d < |confident|
    ensures r.cursor <= d
    ensures r.cursor < d || confident[d].end != x.end
  {
  }

  /** One step of the maximality argument: the first `d + 1` confident
      matches did not embed in `b`, and their last end offset is not `y`
      unless the first `d` did not embed either; then they do not embed in
      `b + [y]`. */
  lemma MaximalStep(confident: seq<Span>, d: nat, b: seq<nat>, y: nat)
    requires d < |confident|
    requires !IsSubsequence(Ends(confident[..d + 1]), b)
    requires confident[d].end != y || !IsSubsequence(Ends(confident[..d]), b)
    ensures !IsSubsequence(Ends(confident[..d + 1]), b + [y])
  {
    var e := Ends(confident[..d + 1]);
    assert e[..d] == Ends(confident[..d]);
    NotSubsequenceSnoc(e, b, y);
  }

  /** Appending `y` to `b` lets `a` embed only if `a` already embeds, or
      `a` ends in `y` and the rest of `a` embeds. */
  lemma NotSubsequenceSnoc<T>(a: seq<T>, b: seq<T>, y: T)
    requires |a| > 0
    requires !IsSubsequence(a, b)
    requires a[|a| - 1] != y || !IsSubsequence(a[..|a| - 1], b)
    ensures !IsSubsequence(a, b + [y])
  {
    assert (b + [y])[..|b|] == b;
  }

  /** No longer prefix of the confident matches than the cursor's embeds. */
  lemma {:induction false} CursorMaximal(coarse: seq<Span>, confident: seq<Span>)
    ensures forall c :: Run(coarse, confident).cursor < c <= |confident| ==>
              !IsSubsequence(Ends(confident[..c]), Ends(coarse))
    decreases |coarse|
  {
    if |coarse| == 0 {
      forall c | 0 < c <= |confident|
        ensures !IsSubsequence(Ends(confident[..c]), Ends(coarse))
      {
      }
    } else {
      var init, x := coarse[..|coarse| - 1], coarse[|coarse| - 1];
      assert coarse == init + [x];
      CursorMaximal(init, confident);
      RunSnoc(init, x, confident);
      EndsSnoc(init, x);
      forall c | Run(coarse, confident).cursor < c <= |confident|
        ensures !IsSubsequence(Ends(confident[..c]), Ends(coarse))
      {
        var d := c - 1;
        StepStops(Run(init, confident), x, confident, d);
        MaximalStep(confident, d, Ends(init), x.end);
      }
    }
  }

  /** The cursor is exactly the length of the longest prefix of the
      confident matches whose end offsets occur, in order, among the coarse
      matches' end offsets: the greedy merge never misses a match. */
  lemma CursorIsLongestEmbeddedPrefix(coarse: seq<Span>, confident: seq<Span>)
    ensures IsSubsequence(Ends(confident[..Run(coarse, confident).cursor]), Ends(coarse))
    ensures forall c :: Run(coarse, confident).cursor < c <= |confident| ==>
              !IsSubsequence(Ends(confident[..c]), Ends(coarse))
  {
    CursorEmbedded(coarse, confident);
    CursorMaximal(coarse, confident);
  }

  /** Every confident match is corroborated (the cursor reaches the end)
      exactly when the confident end offsets form a subsequence of the
      coarse end offsets. */
  lemma AllCorroboratedIff(coarse: seq<Span>, confident: seq<Span>)
    ensures Run(coarse, confident).cursor == |confident| <==>
            IsSubsequence(Ends(confident), Ends(coarse))
  {
    CursorIsLongestEmbeddedPrefix(coarse, confident);
    assert confident[..|confident|] == confident;
  }

  /** One more coarse match either advances the cursor or adds itself to
      the reports. */
  lemma ReportsSnoc(init: seq<Span>, x: Span, confident: seq<Span>)
    ensures Run(init, confident).cursor < |confident| && x.end == confident[Run(init, confident).cursor].end ==>
              Run(init + [x], confident).cursor == Run(init, confident).cursor + 1
              && Reports(init + [x], confident) == Reports(init, confident)
    ensures !(Run(init, confident).cursor < |confident| && x.end == confident[Run(init, confident).cursor].end) ==>
              Run(init + [x], confident).cursor == Run(init, confident).cursor
              && Reports(init + [x], confident) == Reports(init, confident) + [x]
  {
    var r := Run(init, confident);
    RunSnoc(init, x, confident);
    var u := Step(r, x, confident).verdicts[|init|];
    assert Step(r, x, confident).verdicts == r.verdicts + [u];
    PickSnoc(init, r.verdicts, x, u, Possible);
  }

  /** The loop of grabref.go as written, with an explicit cursor. */
  method ReconcileLoop(coarse: seq<Span>, confident: seq<Span>)
    returns (reports: seq<Span>, idx: nat)
    ensures reports == Reports(coarse, confident)
    ensures idx == Run(coarse, confident).cursor
    ensures idx <= |confident|
    ensures |reports| + idx == |coarse|
  {
    idx := 0;
    reports := [];
    var i := 0;
    ghost var seen: seq<Span> := [];
    while i < |coarse|
      invariant 0 <= i <= |coarse|
      invariant seen == coarse[..i]
      invariant idx == Run(seen, confident).cursor
      invariant reports == Reports(seen, confident)
    {
      var m := coarse[i];
      ReportsSnoc(seen, m, confident);
      if idx >= |confident| || m.end != confident[idx].end {
        reports := reports + [m];
      } else {
        idx := idx + 1;
      }
      TakeSnoc(coarse, i);
      seen := seen + [m];
      i := i + 1;
    }
    assert coarse[..i] == coarse;
    ReportCount(coarse, confident);
  }
}
