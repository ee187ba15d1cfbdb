/** The whole of grabref.go's `main` between reading the input and writing
    the page: reconcile the coarse matches against the confident ones,
    decompose the confident ones into references, optionally sort them, and
    attach the two search links to each. */
module Pipeline {
  import opened Types
  import opened Recognizers
  import opened Reconcile
  import opened Decompose
  import opened Ordering
  import opened Query
  import opened Numbers

  /** One entry of the output page: the reference and its strict and loose
      search links. */
  datatype Entry = Entry(ref: Reference, strictLink: string, looseLink: string)

  /** What the program produces: the "Possible reference" diagnostics, in
      the order they are logged, and the entries of the page. */
  datatype Outcome = Outcome(possible: seq<string>, entries: seq<Entry>)

  function Entries(refs: seq<Reference>): (r: seq<Entry>)
    ensures |r| == |refs|
  {
    seq(|refs|, i requires 0 <= i < |refs| => Entry(refs[i], ScholarQuery(refs[i], true), ScholarQuery(refs[i], false)))
  }

  lemma WellFormedInBounds(spans: seq<Span>, n: nat)
    requires WellFormed(spans, n)
    ensures AllInBounds(spans, n)
  {
  }

  lemma ReportsInBounds(text: string, confident: seq<Span>)
    ensures AllInBounds(Reports(CoarseSpans(text), confident), |text|)
  {
    var coarse := CoarseSpans(text);
    PickMembers(coarse, Run(coarse, confident).verdicts, Possible);
    var r := Reports(coarse, confident);
    forall i | 0 <= i < |r|
      ensures r[i].start < r[i].end <= |text|
    {
      assert r[i] in coarse;
    }
  }

  /** The references in the order the page lists them. */
  function Arranged(text: string, accuFind: string -> seq<Span>, subFind: string -> seq<Span>, sorted: bool): seq<Reference>
    requires IsFindAll(accuFind) && IsFindAll(subFind)
  {
    WellFormedInBounds(accuFind(text), |text|);
    Arrange(References(text, accuFind(text), subFind), sorted)
  }

  /** `main` from the input text to the diagnostics and the page entries;
      `accuFind` and `subFind` stand for `accuRe` and `subitemRe`. */
  function Grab(text: string, accuFind: string -> seq<Span>, subFind: string -> seq<Span>, sorted: bool): (o: Outcome)
    requires IsFindAll(accuFind) && IsFindAll(subFind)
    ensures |o.possible| + Run(CoarseSpans(text), accuFind(text)).cursor == |CoarseSpans(text)|
    ensures |o.entries| == |Arranged(text, accuFind, subFind, sorted)|
  {
    var coarse := CoarseSpans(text);
    var confident := accuFind(text);
    ReportsInBounds(text, confident);
    ReportCount(coarse, confident);
    Outcome(Texts(text, Reports(coarse, confident)), Entries(Arranged(text, accuFind, subFind, sorted)))
  }

  /** Every reference on the page is extracted from a citation unit: its
      year lies in 0..9999 and its authors are name tokens. */
  lemma ArrangedFields(text: string, accuFind: string -> seq<Span>, subFind: string -> seq<Span>, sorted: bool, x: Reference)
    requires IsFindAll(accuFind) && IsFindAll(subFind)
    requires x in Arranged(text, accuFind, subFind, sorted)
    ensures x.year == YearOf(x.text) && x.authors == Names(x.text)
    ensures 0 <= x.year <= 9999
    ensures AllAuthors(x.authors)
  {
    var confident := accuFind(text);
    WellFormedInBounds(confident, |text|);
    var refs := References(text, confident, subFind);
    assert x in multiset(Arranged(text, accuFind, subFind, sorted));
    assert x in multiset(refs);
    ReferencesFields(text, confident, subFind, x);
  }

  /** Each entry's links carry its reference: the strict link's
      `as_sauthors`, `as_ylo` and `as_yhi`, and the loose link's `q`, read
      back as the `+`-joined authors and the year. */
  lemma GrabLinksCarry(text: string, accuFind: string -> seq<Span>, subFind: string -> seq<Span>, sorted: bool, i: nat)
    requires IsFindAll(accuFind) && IsFindAll(subFind)
    requires i < |Grab(text, accuFind, subFind, sorted).entries|
    ensures var e := Grab(text, accuFind, subFind, sorted).entries[i];
      && Param(e.strictLink, "as_sauthors") == Some(Join(e.ref.authors, "+"))
      && Param(e.strictLink, "as_ylo") == Some(Itoa(e.ref.year))
      && Param(e.strictLink, "as_yhi") == Some(Itoa(e.ref.year))
      && Param(e.looseLink, "q") == Some(Itoa(e.ref.year) + "+" + Join(e.ref.authors, "+"))
  {
    var refs := Arranged(text, accuFind, subFind, sorted);
    var e := Grab(text, accuFind, subFind, sorted).entries[i];
    assert e == Entries(refs)[i];
    ArrangedFields(text, accuFind, subFind, sorted, refs[i]);
    StrictQueryCarries(refs[i]);
    LooseQueryCarries(refs[i]);
  }

  /** The page lists a permutation of the extracted references: sorted by
      author list with ties in document order under `-sorted`, and in
      document order otherwise. */
  lemma GrabOrder(text: string, accuFind: string -> seq<Span>, subFind: string -> seq<Span>, sorted: bool)
    requires IsFindAll(accuFind) && IsFindAll(subFind)
    ensures WellFormed(accuFind(text), |text|)
    ensures var refs := References(text, accuFind(text), subFind);
            var page := Arranged(text, accuFind, subFind, sorted);
      && multiset(page) == multiset(refs)
      && (sorted ==> Sorted(page) && forall key :: WithAuthors(page, key) == WithAuthors(refs, key))
      && (!sorted ==> page == refs)
  {
    var refs := References(text, accuFind(text), subFind);
    if sorted {
      forall key
        ensures WithAuthors(SortStable(refs), key) == WithAuthors(refs, key)
      {
        SortStableIsStable(refs, key);
      }
    }
  }

  /** `Grab` is the diagnostics of the reports and the entries of the
      arranged references. */
  lemma GrabParts(text: string, accuFind: string -> seq<Span>, subFind: string -> seq<Span>, sorted: bool)
    requires IsFindAll(accuFind) && IsFindAll(subFind)
    ensures AllInBounds(Reports(CoarseSpans(text), accuFind(text)), |text|)
    ensures Grab(text, accuFind, subFind, sorted).possible == Texts(text, Reports(CoarseSpans(text), accuFind(text)))
    ensures Grab(text, accuFind, subFind, sorted).entries == Entries(Arranged(text, accuFind, subFind, sorted))
  {
    ReportsInBounds(text, accuFind(text));
  }

  /** With no confident match, every coarse match is reported as a possible
      reference and the page is empty. */
  lemma NothingConfident(text: string, accuFind: string -> seq<Span>, subFind: string -> seq<Span>, sorted: bool)
    requires IsFindAll(accuFind) && IsFindAll(subFind)
    requires accuFind(text) == []
    ensures AllInBounds(CoarseSpans(text), |text|)
    ensures Grab(text, accuFind, subFind, sorted).possible == Texts(text, CoarseSpans(text))
    ensures Grab(text, accuFind, subFind, sorted).entries == []
  {
    GrabParts(text, accuFind, subFind, sorted);
    NoConfidentReportsAll(CoarseSpans(text));
    assert References(text, [], subFind) == [];
  }
}
