/** The citation decomposer and field extractor of grabref.go: each
    confident match becomes one reference, or, when it holds a semicolon,
    one reference per sub-item match. */
module Decompose {
  import opened Types
  import opened Recognizers

  /** The fields of one citation unit: its names, the year, its own text. */
  function Extract(unit: string): (r: Reference)
    ensures r.text == unit
    ensures r.year == YearOf(unit) && r.authors == Names(unit)
    ensures 0 <= r.year <= 9999
    ensures forall k :: 0 <= k < |r.authors| ==> IsAuthor(r.authors[k])
    ensures |r.authors| == |NameSpans(unit)|
  {
    Reference(YearOf(unit), Names(unit), unit)
  }

  /** Where the citation units lie inside one confident match, relative to
      its start: the whole match, or each sub-item match when it holds a
      semicolon. */
  function UnitSpans(m: string, subFind: string -> seq<Span>): (r: seq<Span>)
    requires IsFindAll(subFind)
    requires |m| > 0
    ensures WellFormed(r, |m|)
  {
    if HasSemicolon(m) then subFind(m) else [Span(0, |m|)]
  }

  /** The references one confident match yields (the `switch` on
      `semicolonRe.Match`). */
  function DecomposeMatch(m: string, subFind: string -> seq<Span>): (r: seq<Reference>)
    requires IsFindAll(subFind)
    ensures ';' !in m ==> r == [Extract(m)]
    ensures ';' in m ==> |r| == |subFind(m)|
    ensures ';' in m ==> forall i :: 0 <= i < |r| ==> r[i].text == Slice(m, subFind(m)[i])
  {
    if !HasSemicolon(m) then [Extract(m)]
    else
      var subs := subFind(m);
      seq(|subs|, i requires 0 <= i < |subs| => Extract(Slice(m, subs[i])))
  }

  predicate AllInBounds(spans: seq<Span>, n: nat) {
    forall i :: 0 <= i < |spans| ==> spans[i].start < spans[i].end <= n
  }

  /** The text of each span. */
  function Texts(text: string, spans: seq<Span>): (r: seq<string>)
    requires AllInBounds(spans, |text|)
    ensures |r| == |spans|
  {
    seq(|spans|, i requires 0 <= i < |spans| && InBounds(spans[i], |text|) => Slice(text, spans[i]))
  }

  lemma TextsDrop(text: string, spans: seq<Span>)
    requires AllInBounds(spans, |text|) && |spans| > 0
    ensures AllInBounds(spans[1..], |text|)
    ensures Texts(text, spans)[1..] == Texts(text, spans[1..])
  {
  }

  /** The reference list built by the loop over the confident matches. */
  function References(text: string, confident: seq<Span>, subFind: string -> seq<Span>): (r: seq<Reference>)
    requires IsFindAll(subFind)
    requires AllInBounds(confident, |text|)
    decreases |confident|
  {
    if |confident| == 0 then []
    else DecomposeMatch(Slice(text, confident[0]), subFind) + References(text, confident[1..], subFind)
  }

  /** The citation units in absolute document positions, one per reference. */
  function Units(text: string, confident: seq<Span>, subFind: string -> seq<Span>): (r: seq<Span>)
    requires IsFindAll(subFind)
    requires AllInBounds(confident, |text|)
    decreases |confident|
  {
    if |confident| == 0 then []
    else
      var c := confident[0];
      Shift(UnitSpans(Slice(text, c), subFind), c.start) + Units(text, confident[1..], subFind)
  }

  /** A slice of a slice is a slice of the text. */
  lemma SliceOfSlice(text: string, c: Span, s: Span)
    requires InBounds(c, |text|)
    requires InBounds(s, c.end - c.start)
    ensures Slice(Slice(text, c), s) == Slice(text, Span(c.start + s.start, c.start + s.end))
  {
    var a := text[c.start..c.end][s.start..s.end];
    var b := text[c.start + s.start..c.start + s.end];
    assert |a| == |b|;
    forall k | 0 <= k < |a|
      ensures a[k] == b[k]
    {
      assert a[k] == text[c.start..c.end][s.start + k] == text[c.start + s.start + k];
    }
  }

  /** The references extracted from a list of units, one each, in order. */
  function ExtractAll(text: string, units: seq<Span>): (r: seq<Reference>)
    requires AllInBounds(units, |text|)
    ensures |r| == |units|
    ensures forall i :: 0 <= i < |r| ==> r[i] == Extract(Slice(text, units[i]))
  {
    seq(|units|, i requires 0 <= i < |units| && InBounds(units[i], |text|) => Extract(Slice(text, units[i])))
  }

  lemma ExtractAllAppend(text: string, a: seq<Span>, b: seq<Span>)
    requires AllInBounds(a, |text|) && AllInBounds(b, |text|)
    ensures AllInBounds(a + b, |text|)
    ensures ExtractAll(text, a + b) == ExtractAll(text, a) + ExtractAll(text, b)
  {
    var l := ExtractAll(text, a + b);
    var r := ExtractAll(text, a) + ExtractAll(text, b);
    forall i | 0 <= i < |l|
      ensures l[i] == r[i]
    {
      IndexAppend(a, b, i);
      IndexAppend(ExtractAll(text, a), ExtractAll(text, b), i);
    }
  }

  lemma UnitSpansInBounds(text: string, c: Span, subFind: string -> seq<Span>)
    requires IsFindAll(subFind)
    requires c.start < c.end <= |text|
    ensures var u := Shift(UnitSpans(Slice(text, c), subFind), c.start);
            forall i :: 0 <= i < |u| ==> c.start <= u[i].start < u[i].end <= c.end
  {
  }

  /** The references of one confident match are the extractions of its
      units, relative to the match. */
  lemma DecomposeMatchUnits(m: string, subFind: string -> seq<Span>)
    requires IsFindAll(subFind)
    requires |m| > 0
    ensures |DecomposeMatch(m, subFind)| == |UnitSpans(m, subFind)|
    ensures forall i :: 0 <= i < |UnitSpans(m, subFind)| ==>
              DecomposeMatch(m, subFind)[i] == Extract(Slice(m, UnitSpans(m, subFind)[i]))
  {
    if !HasSemicolon(m) {
      assert Slice(m, Span(0, |m|)) == m;
    }
  }

  /** A unit's text, read in the document, is its text read in the match. */
  lemma UnitText(text: string, c: Span, subFind: string -> seq<Span>, i: nat)
    requires IsFindAll(subFind)
    requires c.start < c.end <= |text|
    requires i < |UnitSpans(Slice(text, c), subFind)|
    ensures InBounds(Shift(UnitSpans(Slice(text, c), subFind), c.start)[i], |text|)
    ensures Slice(text, Shift(UnitSpans(Slice(text, c), subFind), c.start)[i])
         == Slice(Slice(text, c), UnitSpans(Slice(text, c), subFind)[i])
  {
    var rel := UnitSpans(Slice(text, c), subFind);
    var s := rel[i];
    assert InBounds(s, c.end - c.start);
    assert Shift(rel, c.start)[i] == Span(c.start + s.start, c.start + s.end);
    SliceOfSlice(text, c, s);
  }

  /** The references of one confident match are the extractions of its
      units' texts. */
  lemma DecomposeMatchIsUnits(text: string, c: Span, subFind: string -> seq<Span>)
    requires IsFindAll(subFind)
    requires c.start < c.end <= |text|
    ensures AllInBounds(Shift(UnitSpans(Slice(text, c), subFind), c.start), |text|)
    ensures DecomposeMatch(Slice(text, c), subFind)
            == ExtractAll(text, Shift(UnitSpans(Slice(text, c), subFind), c.start))
  {
    var m := Slice(text, c);
    var rel := UnitSpans(m, subFind);
    var u := Shift(rel, c.start);
    UnitSpansInBounds(text, c, subFind);
    DecomposeMatchUnits(m, subFind);
    var l := DecomposeMatch(m, subFind);
    var r := ExtractAll(text, u);
    forall i | 0 <= i < |u|
      ensures l[i] == r[i]
    {
      UnitText(text, c, subFind, i);
    }
  }

  lemma {:induction false} UnitsInBounds(text: string, confident: seq<Span>, subFind: string -> seq<Span>)
    requires IsFindAll(subFind)
    requires AllInBounds(confident, |text|)
    ensures AllInBounds(Units(text, confident, subFind), |text|)
    decreases |confident|
  {
    if |confident| > 0 {
      var c := confident[0];
      UnitsInBounds(text, confident[1..], subFind);
      UnitSpansInBounds(text, c, subFind);
      var head := Shift(UnitSpans(Slice(text, c), subFind), c.start);
      var tail := Units(text, confident[1..], subFind);
      var u: seq<Span> := head + tail;
      forall i | 0 <= i < |u|
        ensures u[i].start < u[i].end <= |text|
      {
        IndexAppend(head, tail, i);
      }
    }
  }

  /** Each reference is the extraction of its unit's text: the references
      and the units correspond one to one, in order. */
  lemma {:induction false} ReferencesAreUnits(text: string, confident: seq<Span>, subFind: string -> seq<Span>)
    requires IsFindAll(subFind)
    requires AllInBounds(confident, |text|)
    ensures AllInBounds(Units(text, confident, subFind), |text|)
    ensures References(text, confident, subFind) == ExtractAll(text, Units(text, confident, subFind))
    decreases |confident|
  {
    UnitsInBounds(text, confident, subFind);
    if |confident| > 0 {
      var c := confident[0];
      ReferencesCons(text, confident, subFind);
      UnitsCons(text, confident, subFind);
      ReferencesAreUnits(text, confident[1..], subFind);
      DecomposeMatchIsUnits(text, c, subFind);
      var head := Shift(UnitSpans(Slice(text, c), subFind), c.start);
      var tail := Units(text, confident[1..], subFind);
      ExtractAllAppend(text, head, tail);
    }
  }

  /** Every reference has a year in 0..9999 and capitalised name tokens as
      authors. */
  lemma ReferencesFields(text: string, confident: seq<Span>, subFind: string -> seq<Span>, x: Reference)
    requires IsFindAll(subFind)
    requires AllInBounds(confident, |text|)
    requires x in References(text, confident, subFind)
    ensures x.year == YearOf(x.text) && x.authors == Names(x.text)
    ensures 0 <= x.year <= 9999
    ensures forall k :: 0 <= k < |x.authors| ==> IsAuthor(x.authors[k])
  {
    ReferencesAreUnits(text, confident, subFind);
    var refs := References(text, confident, subFind);
    var i :| 0 <= i < |refs| && refs[i] == x;
    var units := Units(text, confident, subFind);
    assert x == Extract(Slice(text, units[i]));
  }

  /** Well-formed lists placed one after the other stay well formed. */
  lemma AppendWellFormed(a: seq<Span>, b: seq<Span>, n: nat)
    requires WellFormed(a, n) && WellFormed(b, n)
    requires forall i, j :: 0 <= i < |a| && 0 <= j < |b| ==> a[i].end <= b[j].start
    ensures WellFormed(a + b, n)
  {
    var r := a + b;
    forall i, j | 0 <= i < j < |r|
      ensures r[i].end <= r[j].start
    {
      if j < |a| {
      } else if i >= |a| {
        assert r[i] == b[i - |a|] && r[j] == b[j - |a|];
      } else {
        assert r[j] == b[j - |a|];
      }
    }
  }

  /** `u` lies inside one of the spans of `cs`. */
  predicate Within(u: Span, cs: seq<Span>) {
    exists j :: 0 <= j < |cs| && cs[j].start <= u.start && u.end <= cs[j].end
  }

  /** Each unit lies inside one of the confident matches it came from. */
  lemma {:induction false} UnitsContained(text: string, confident: seq<Span>, subFind: string -> seq<Span>)
    requires IsFindAll(subFind)
    requires AllInBounds(confident, |text|)
    ensures forall u :: u in Units(text, confident, subFind) ==> Within(u, confident)
    decreases |confident|
  {
    if |confident| > 0 {
      var c := confident[0];
      var rest := confident[1..];
      UnitsContained(text, rest, subFind);
      UnitSpansInBounds(text, c, subFind);
      var head := Shift(UnitSpans(Slice(text, c), subFind), c.start);
      var tail := Units(text, rest, subFind);
      forall u | u in head + tail
        ensures Within(u, confident)
      {
        if u in head {
          assert confident[0].start <= u.start && u.end <= confident[0].end;
        } else {
          assert Within(u, rest);
          var k :| 0 <= k < |rest| && rest[k].start <= u.start && u.end <= rest[k].end;
          assert confident[k + 1] == rest[k];
        }
      }
    }
  }

  /** Every span of the list starts at or after `p`. */
  predicate StartsFrom(spans: seq<Span>, p: int) {
    forall j :: 0 <= j < |spans| ==> p <= spans[j].start
  }

  /** The first confident match's units come first. */
  lemma UnitsCons(text: string, confident: seq<Span>, subFind: string -> seq<Span>)
    requires IsFindAll(subFind)
    requires AllInBounds(confident, |text|) && |confident| > 0
    ensures confident[0].start < confident[0].end <= |text| && AllInBounds(confident[1..], |text|)
    ensures Units(text, confident, subFind)
         == Shift(UnitSpans(Slice(text, confident[0]), subFind), confident[0].start) + Units(text, confident[1..], subFind)
  {
  }

  lemma StartsFromAppend(a: seq<Span>, b: seq<Span>, p: int)
    requires StartsFrom(a, p) && StartsFrom(b, p)
    ensures StartsFrom(a + b, p)
  {
    forall j | 0 <= j < |a + b|
      ensures p <= (a + b)[j].start
    {
      IndexAppend(a, b, j);
    }
  }

  /** Units start no earlier than the confident matches they come from. */
  lemma {:induction false} UnitsStartFrom(text: string, confident: seq<Span>, subFind: string -> seq<Span>, p: int)
    requires IsFindAll(subFind)
    requires AllInBounds(confident, |text|)
    requires StartsFrom(confident, p)
    ensures StartsFrom(Units(text, confident, subFind), p)
    decreases |confident|
  {
    if |confident| > 0 {
      var c := confident[0];
      UnitsCons(text, confident, subFind);
      UnitSpansInBounds(text, c, subFind);
      UnitsStartFrom(text, confident[1..], subFind, p);
      StartsFromAppend(Shift(UnitSpans(Slice(text, c), subFind), c.start), Units(text, confident[1..], subFind), p);
    }
  }

  /** A well-formed list followed by one starting after its last end is
      well formed. */
  lemma AppendWellFormedAt(a: seq<Span>, b: seq<Span>, n: nat, q: int)
    requires WellFormed(a, n) && WellFormed(b, n)
    requires forall i :: 0 <= i < |a| ==> a[i].end <= q
    requires StartsFrom(b, q)
    ensures WellFormed(a + b, n)
  {
    AppendWellFormed(a, b, n);
  }

  lemma WellFormedTail(spans: seq<Span>, n: nat)
    requires WellFormed(spans, n) && |spans| > 0
    ensures WellFormed(spans[1..], n) && StartsFrom(spans[1..], spans[0].end)
  {
    var rest := spans[1..];
    forall j | 0 <= j < |rest|
      ensures spans[0].end <= rest[j].start
    {
      assert rest[j] == spans[j + 1];
    }
  }

  /** Moving a well-formed list right keeps it well formed, within any
      bound the moved spans stay under. */
  lemma ShiftWellFormed(spans: seq<Span>, offset: nat, m: nat, n: nat)
    requires WellFormed(spans, m) && m + offset <= n
    ensures WellFormed(Shift(spans, offset), n)
  {
  }

  /** The units of well-formed confident matches are in document order and
      never overlap. */
  lemma {:induction false} UnitsInDocumentOrder(text: string, confident: seq<Span>, subFind: string -> seq<Span>)
    requires IsFindAll(subFind)
    requires WellFormed(confident, |text|)
    ensures WellFormed(Units(text, confident, subFind), |text|)
    decreases |confident|
  {
    if |confident| > 0 {
      var c := confident[0];
      var rest := confident[1..];
      WellFormedTail(confident, |text|);
      UnitsCons(text, confident, subFind);
      UnitsInDocumentOrder(text, rest, subFind);
      UnitsStartFrom(text, rest, subFind, c.end);
      UnitSpansInBounds(text, c, subFind);
      var head := Shift(UnitSpans(Slice(text, c), subFind), c.start);
      ShiftWellFormed(UnitSpans(Slice(text, c), subFind), c.start, c.end - c.start, |text|);
      AppendWellFormedAt(head, Units(text, rest, subFind), |text|, c.end);
    }
  }

  /** Bounds hold of a concatenation when they hold of both parts. */
  lemma AllInBoundsAppend(a: seq<Span>, b: seq<Span>, n: nat)
    requires AllInBounds(a, n) && AllInBounds(b, n)
    ensures AllInBounds(a + b, n)
  {
    forall i | 0 <= i < |a + b|
      ensures (a + b)[i].start < (a + b)[i].end <= n
    {
      IndexAppend(a, b, i);
    }
  }

  /** The reference list of a concatenation is the concatenation of the
      reference lists: references come out confident match by confident
      match, in document order. */
  lemma {:induction false} ReferencesAppend(text: string, a: seq<Span>, b: seq<Span>, subFind: string -> seq<Span>)
    requires IsFindAll(subFind)
    requires AllInBounds(a, |text|) && AllInBounds(b, |text|)
    ensures AllInBounds(a + b, |text|)
    ensures References(text, a + b, subFind) == References(text, a, subFind) + References(text, b, subFind)
    decreases |a|
  {
    AllInBoundsAppend(a, b, |text|);
    if |a| == 0 {
      AppendNilLeft(b);
    } else {
      ConsAppend(a, b);
      ReferencesCons(text, a, subFind);
      ReferencesCons(text, a + b, subFind);
      ReferencesAppend(text, a[1..], b, subFind);
      var d := DecomposeMatch(Slice(text, a[0]), subFind);
      AppendAssoc(d, References(text, a[1..], subFind), References(text, b, subFind));
    }
  }

  /** The first confident match's references come first. */
  lemma ReferencesCons(text: string, confident: seq<Span>, subFind: string -> seq<Span>)
    requires IsFindAll(subFind)
    requires AllInBounds(confident, |text|) && |confident| > 0
    ensures InBounds(confident[0], |text|) && AllInBounds(confident[1..], |text|)
    ensures References(text, confident, subFind)
         == DecomposeMatch(Slice(text, confident[0]), subFind) + References(text, confident[1..], subFind)
  {
  }

  /** A reference list whose texts follow a list of texts, one for one. */
  predicate TextsFollow(r: seq<Reference>, texts: seq<string>) {
    |r| == |texts| && forall i :: 0 <= i < |r| ==> r[i].text == texts[i]
  }

  lemma TextsFollowCons(x: Reference, r: seq<Reference>, texts: seq<string>)
    requires |texts| > 0 && x.text == texts[0] && TextsFollow(r, texts[1..])
    ensures TextsFollow([x] + r, texts)
  {
    var l := [x] + r;
    forall i | 0 <= i < |l|
      ensures l[i].text == texts[i]
    {
      if i > 0 {
        assert l[i] == r[i - 1];
      }
    }
  }

  /** When no confident match holds a semicolon, there is exactly one
      reference per confident match and its text is the whole match. */
  lemma {:induction false} NoGroupsOnePerMatch(text: string, confident: seq<Span>, subFind: string -> seq<Span>)
    requires IsFindAll(subFind)
    requires AllInBounds(confident, |text|)
    requires forall i :: 0 <= i < |confident| ==> ';' !in Slice(text, confident[i])
    ensures TextsFollow(References(text, confident, subFind), Texts(text, confident))
    decreases |confident|
  {
    if |confident| > 0 {
      ReferencesCons(text, confident, subFind);
      TextsDrop(text, confident);
      NoGroupsOnePerMatch(text, confident[1..], subFind);
      var m := Slice(text, confident[0]);
      TextsFollowCons(Extract(m), References(text, confident[1..], subFind), Texts(text, confident));
    }
  }
}
