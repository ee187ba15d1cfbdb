/** The small patterns of grabref.go written as hand-rolled scanners:
    `nameRe` (`[A-Z]\p{L}+`), `yearRe` (`\d{4}`), `semicolonRe` (`;`) and
    `coarseRe` (`\([^()]*?(\d{4})[^()]*?\)`). Each scanner follows RE2's
    leftmost-first, non-overlapping find-all, and each carries a
    characterisation of its answer that does not mention the scan. */
module Recognizers {
  import opened Types
  import opened Chars
  import opened Numbers

  /** Some span of `spans` contains position `p`. */
  predicate Covers(spans: seq<Span>, p: nat) {
    exists k :: 0 <= k < |spans| && spans[k].start <= p < spans[k].end
  }

  // ---------------------------------------------------------------- names

  /** A match of `[A-Z]\p{L}+` that the greedy `+` cannot extend. */
  predicate IsNameToken(t: string, s: Span)
    requires InBounds(s, |t|)
  {
    && s.end - s.start >= 2
    && IsUpper(t[s.start])
    && (forall k :: s.start < k < s.end ==> IsLetter(t[k]))
    && (s.end == |t| || !IsLetter(t[s.end]))
  }

  /** `nameRe` can start a match at `p`. */
  predicate NameStartsAt(t: string, p: nat)
    requires p < |t|
  {
    IsUpper(t[p]) && p + 1 < |t| && IsLetter(t[p + 1])
  }

  /** The end of the run of letters that begins at `j`. */
  function LetterRunEnd(t: string, j: nat): (e: nat)
    requires j <= |t|
    ensures j <= e <= |t|
    ensures forall k :: j <= k < e ==> IsLetter(t[k])
    ensures e == |t| || !IsLetter(t[e])
    decreases |t| - j
  {
    if j < |t| && IsLetter(t[j]) then LetterRunEnd(t, j + 1) else j
  }

  /** The matches of `nameRe` in `t` at or after `i`, left to right. */
  function NameSpansFrom(t: string, i: nat): (r: seq<Span>)
    requires i <= |t|
    ensures WellFormed(r, |t|)
    ensures forall k :: 0 <= k < |r| ==> i <= r[k].start && IsNameToken(t, r[k])
    decreases |t| - i
  {
    if i == |t| then []
    else if NameStartsAt(t, i) then
      var e := LetterRunEnd(t, i + 1);
      var rest := NameSpansFrom(t, e);
      ConsWellFormed(Span(i, e), rest, |t|);
      [Span(i, e)] + rest
    else
      NameSpansFrom(t, i + 1)
  }

  /** Where the name scan resumes after looking at `i`. */
  function NameNext(t: string, i: nat): (n: nat)
    requires i < |t|
    ensures i < n <= |t|
  {
    if NameStartsAt(t, i) then LetterRunEnd(t, i + 1) else i + 1
  }

  /** The name scan from `i` either reports the token at `i` and resumes
      after it, or moves on by one character. */
  lemma NameSpansFromStep(t: string, i: nat)
    requires i < |t|
    ensures NameStartsAt(t, i) ==> NameSpansFrom(t, i) == [Span(i, NameNext(t, i))] + NameSpansFrom(t, NameNext(t, i))
    ensures !NameStartsAt(t, i) ==> NameSpansFrom(t, i) == NameSpansFrom(t, NameNext(t, i))
  {
  }

  /** A later start position is either skipped over by looking at `i`, or
      covered by the token the scan reports at `i`. */
  lemma NameSkipOrCover(t: string, i: nat, p: nat)
    requires i <= p < |t|
    requires NameStartsAt(t, p)
    ensures NameNext(t, i) <= p || Covers(NameSpansFrom(t, i), p)
  {
    NameSpansFromStep(t, i);
    if NameStartsAt(t, i) && p < NameNext(t, i) {
      assert NameSpansFrom(t, i)[0] == Span(i, NameNext(t, i));
    }
  }

  /** Putting a span in front keeps every covered position covered. */
  lemma CoversCons(x: Span, rest: seq<Span>, p: nat)
    requires Covers(rest, p)
    ensures Covers([x] + rest, p)
  {
    var k :| 0 <= k < |rest| && rest[k].start <= p < rest[k].end;
    assert ([x] + rest)[k + 1] == rest[k];
  }

  /** What the scan covers after looking at `i` it also covers from `i`. */
  lemma NameCoversAfter(t: string, i: nat, p: nat)
    requires i < |t|
    requires Covers(NameSpansFrom(t, NameNext(t, i)), p)
    ensures Covers(NameSpansFrom(t, i), p)
  {
    NameSpansFromStep(t, i);
    if NameStartsAt(t, i) {
      CoversCons(Span(i, NameNext(t, i)), NameSpansFrom(t, NameNext(t, i)), p);
    }
  }

  /** No place where `nameRe` could start a match is skipped by the scan:
      every such position lies inside one of the returned tokens. */
  lemma {:induction false} NameSpansFromComplete(t: string, i: nat, p: nat)
    requires i <= p < |t|
    requires NameStartsAt(t, p)
    ensures Covers(NameSpansFrom(t, i), p)
    decreases |t| - i
  {
    NameSkipOrCover(t, i, p);
    if NameNext(t, i) <= p {
      NameSpansFromComplete(t, NameNext(t, i), p);
      NameCoversAfter(t, i, p);
    }
  }

  /** `nameRe.FindAllIndex(t, -1)` */
  function NameSpans(t: string): (r: seq<Span>)
    ensures WellFormed(r, |t|)
    ensures forall k :: 0 <= k < |r| ==> IsNameToken(t, r[k])
  {
    NameSpansFrom(t, 0)
  }

  lemma NameSpansComplete(t: string, p: nat)
    requires p < |t| && NameStartsAt(t, p)
    ensures Covers(NameSpans(t), p)
  {
    NameSpansFromComplete(t, 0, p);
  }

  /** An author as `nameRe` finds it: a capital A-Z and at least one more letter. */
  predicate IsAuthor(a: string) {
    |a| >= 2 && IsUpper(a[0]) && forall k :: 1 <= k < |a| ==> IsLetter(a[k])
  }

  /** `nameRe.FindAllString(t, -1)` */
  function Names(t: string): (r: seq<string>)
    ensures |r| == |NameSpans(t)|
    ensures forall k :: 0 <= k < |r| ==> IsAuthor(r[k]) && r[k] == Slice(t, NameSpans(t)[k])
  {
    var spans := NameSpans(t);
    seq(|spans|, k requires 0 <= k < |spans| => Slice(t, spans[k]))
  }

  // ---------------------------------------------------------------- years

  /** Four ASCII digits start at `p`. */
  predicate DigitRunAt(t: string, p: nat) {
    p + 4 <= |t| && IsDigit(t[p]) && IsDigit(t[p + 1]) && IsDigit(t[p + 2]) && IsDigit(t[p + 3])
  }

  /** The leftmost `p` in [i, hi - 4] at which four digits start. */
  function FindDigitRun(t: string, i: nat, hi: nat): (r: Option<nat>)
    requires hi <= |t|
    ensures r.Some? ==> i <= r.value && r.value + 4 <= hi && DigitRunAt(t, r.value)
    ensures r.Some? ==> forall q :: i <= q < r.value ==> !DigitRunAt(t, q)
    ensures r.None? ==> forall q :: i <= q && q + 4 <= hi ==> !DigitRunAt(t, q)
    decreases hi - i
  {
    if i + 4 > hi then None
    else if DigitRunAt(t, i) then Some(i)
    else FindDigitRun(t, i + 1, hi)
  }

  /** `yearRe.FindString(t)`: the first four-digit run, or "" when there is none. */
  function YearText(t: string): (r: string)
    ensures r == "" || (|r| == 4 && AllDigits(r))
    ensures r == "" <==> forall p: nat :: !DigitRunAt(t, p)
    ensures forall p: nat :: DigitRunAt(t, p) && (forall q: nat :: q < p ==> !DigitRunAt(t, q)) ==>
              r == t[p..p + 4]
  {
    match FindDigitRun(t, 0, |t|)
    case None => ""
    case Some(v) =>
      forall p: nat | DigitRunAt(t, p) && (forall q: nat :: q < p ==> !DigitRunAt(t, q))
        ensures p == v
      {
        assert !(v < p) by { assert DigitRunAt(t, v); }
      }
      t[v..v + 4]
  }

  /** The `Year` field: `strconv.Atoi` of `YearText`, its error ignored. */
  function YearOf(t: string): (y: int)
    ensures 0 <= y <= 9999
    ensures (forall p: nat :: !DigitRunAt(t, p)) ==> y == 0
    ensures forall p: nat :: DigitRunAt(t, p) && (forall q: nat :: q < p ==> !DigitRunAt(t, q)) ==>
              y == DecimalValue(t[p..p + 4])
  {
    var s := YearText(t);
    assert s != "" ==> Pow10(|s|) == 10000;
    Atoi(s).value
  }

  // ---------------------------------------------------------------- semicolons

  function HasSemicolonFrom(t: string, i: nat): (b: bool)
    requires i <= |t|
    ensures b <==> exists k :: i <= k < |t| && t[k] == ';'
    decreases |t| - i
  {
    if i == |t| then false
    else if t[i] == ';' then true
    else HasSemicolonFrom(t, i + 1)
  }

  /** `semicolonRe.Match(t)` */
  function HasSemicolon(t: string): (b: bool)
    ensures b <==> ';' in t
  {
    var b := HasSemicolonFrom(t, 0);
    assert b ==> ';' in t;
    assert ';' in t ==> exists k :: 0 <= k < |t| && t[k] == ';';
    b
  }

  // ---------------------------------------------------------------- coarse candidates

  predicate IsParen(c: char) {
    c == '(' || c == ')'
  }

  /** A match of `coarseRe`: a `(`, then no parenthesis until the closing `)`,
      with four digits somewhere in between. */
  predicate IsCoarseMatch(t: string, s: Span) {
    && s.start + 2 <= s.end <= |t|
    && t[s.start] == '('
    && t[s.end - 1] == ')'
    && (forall k :: s.start < k < s.end - 1 ==> !IsParen(t[k]))
    && (exists p :: s.start < p && p + 4 < s.end && DigitRunAt(t, p))
  }

  /** The first parenthesis at or after `j`. */
  function NextParen(t: string, j: nat): (e: nat)
    requires j <= |t|
    ensures j <= e <= |t|
    ensures forall k :: j <= k < e ==> !IsParen(t[k])
    ensures e == |t| || IsParen(t[e])
    decreases |t| - j
  {
    if j < |t| && !IsParen(t[j]) then NextParen(t, j + 1) else j
  }

  /** The matches of `coarseRe` in `t` at or after `i`, left to right. */
  function CoarseSpansFrom(t: string, i: nat): (r: seq<Span>)
    requires i <= |t|
    ensures WellFormed(r, |t|)
    ensures forall k :: 0 <= k < |r| ==> i <= r[k].start && IsCoarseMatch(t, r[k])
    decreases |t| - i
  {
    if i == |t| then []
    else if t[i] == '(' then
      var j := NextParen(t, i + 1);
      if j < |t| && t[j] == ')' && FindDigitRun(t, i + 1, j).Some? then
        var rest := CoarseSpansFrom(t, j + 1);
        ConsWellFormed(Span(i, j + 1), rest, |t|);
        [Span(i, j + 1)] + rest
      else
        CoarseSpansFrom(t, i + 1)
    else
      CoarseSpansFrom(t, i + 1)
  }

  /** A coarse match is determined by its opening parenthesis: it closes at
      the first parenthesis after it. */
  lemma CoarseMatchEnd(t: string, s: Span)
    requires IsCoarseMatch(t, s)
    ensures NextParen(t, s.start + 1) == s.end - 1
  {
  }

  /** The candidate scanned at `i`: where its closing parenthesis would
      be, if it is a match. */
  predicate CoarseAt(t: string, i: nat)
    requires i < |t|
  {
    var j := NextParen(t, i + 1);
    t[i] == '(' && j < |t| && t[j] == ')' && FindDigitRun(t, i + 1, j).Some?
  }

  /** The scan from `i` either reports the match at `i` and resumes after
      it, or moves on by one character. */
  lemma CoarseSpansFromStep(t: string, i: nat)
    requires i < |t|
    ensures CoarseAt(t, i) ==>
      CoarseSpansFrom(t, i) == [Span(i, NextParen(t, i + 1) + 1)] + CoarseSpansFrom(t, NextParen(t, i + 1) + 1)
    ensures !CoarseAt(t, i) ==> CoarseSpansFrom(t, i) == CoarseSpansFrom(t, i + 1)
  {
  }

  /** A match the scan reports at `i` closes before any later opening
      parenthesis. */
  lemma CoarseAtBefore(t: string, i: nat, p: nat)
    requires i < p < |t|
    requires CoarseAt(t, i) && t[p] == '('
    ensures NextParen(t, i + 1) < p
  {
  }

  /** The candidate the scan would report at `p`. */
  function CoarseSpanAt(t: string, p: nat): Span
    requires p < |t|
  {
    Span(p, NextParen(t, p + 1) + 1)
  }

  /** The scan would report a coarse match where it starts. */
  lemma CoarseAtMatch(t: string, s: Span)
    requires IsCoarseMatch(t, s)
    ensures s.start < |t| && CoarseAt(t, s.start) && CoarseSpanAt(t, s.start) == s
  {
    CoarseMatchEnd(t, s);
    var p :| s.start < p && p + 4 < s.end && DigitRunAt(t, p);
    assert FindDigitRun(t, s.start + 1, s.end - 1).Some?;
  }

  /** The scan from `p` reports the candidate at `p`. */
  lemma ReachesHere(t: string, p: nat)
    requires p < |t| && CoarseAt(t, p)
    ensures CoarseSpanAt(t, p) in CoarseSpansFrom(t, p)
  {
    CoarseSpansFromStep(t, p);
  }

  /** Where the scan resumes after looking at `i`. */
  function NextStart(t: string, i: nat): nat
    requires i < |t|
  {
    if CoarseAt(t, i) then NextParen(t, i + 1) + 1 else i + 1
  }

  /** The scan moves forward, and not past a later position where it would
      report a match. */
  lemma NextStartBounds(t: string, i: nat, p: nat)
    requires i < p < |t|
    requires CoarseAt(t, p)
    ensures i < NextStart(t, i) <= p
  {
    if CoarseAt(t, i) {
      CoarseAtBefore(t, i, p);
    }
  }

  /** What the scan reports after looking at `i` it also reports from `i`. */
  lemma ReachesAfter(t: string, i: nat, x: Span)
    requires i < |t|
    requires x in CoarseSpansFrom(t, NextStart(t, i))
    ensures x in CoarseSpansFrom(t, i)
  {
    CoarseSpansFromStep(t, i);
  }

  /** The scan reports the candidate at every position `p` at or after `i`
      where the scan would report one if it started at `p`. */
  lemma {:induction false} CoarseSpansFromReaches(t: string, i: nat, p: nat)
    requires i <= p < |t|
    requires CoarseAt(t, p)
    ensures CoarseSpanAt(t, p) in CoarseSpansFrom(t, i)
    decreases p - i
  {
    if p == i {
      ReachesHere(t, p);
    } else {
      NextStartBounds(t, i, p);
      CoarseSpansFromReaches(t, NextStart(t, i), p);
      ReachesAfter(t, i, CoarseSpanAt(t, p));
    }
  }

  /** The scan skips no coarse match that starts at or after `i`. */
  lemma CoarseSpansFromComplete(t: string, i: nat, s: Span)
    requires i <= s.start && i <= |t|
    requires IsCoarseMatch(t, s)
    ensures s in CoarseSpansFrom(t, i)
  {
    CoarseAtMatch(t, s);
    CoarseSpansFromReaches(t, i, s.start);
  }

  /** `coarseRe.FindAllIndex(text, -1)`: exactly the coarse matches, in order. */
  function CoarseSpans(t: string): (r: seq<Span>)
    ensures WellFormed(r, |t|)
    ensures forall k :: 0 <= k < |r| ==> IsCoarseMatch(t, r[k])
  {
    CoarseSpansFrom(t, 0)
  }

  /** Every coarse match in the text is reported by the scan. */
  lemma CoarseSpansComplete(t: string, s: Span)
    requires IsCoarseMatch(t, s)
    ensures s in CoarseSpans(t)
  {
    CoarseSpansFromComplete(t, 0, s);
  }
}
