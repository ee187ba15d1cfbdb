# grabref, modelled in Dafny

grabref reads a plain-text paper and finds its author–year citations,
such as `Smith and Jones (2004)` or `(Smith, 2004; Lee et al., 1999)`.
It turns them into a list of references (year, authors, citation text)
and writes an HTML page. The page gives two Google Scholar links for
each reference.

The program runs two matchers over the text. One matcher is confident and
precise. The other is coarse: anything in parentheses that holds four digits.

- **Reconciler.** A one-pass merge compares the two lists of matches. It
  keeps a cursor into the confident matches, and the cursor advances when
  a coarse match ends where the current confident match ends. Every other
  coarse match is logged as a "Possible reference".
- **Decomposer.** A confident match with no `;` becomes one reference. One
  with `;` becomes one reference per sub-item match.
- **Field extractor.** A reference's authors are its capitalised name
  tokens. Its year is the value of its first run of four digits, or 0 when
  there is none.
- **Sort.** With `-sorted`, the references are stably sorted by their
  author lists in lexicographic order.
- **Links.** Each reference gets a strict search link and a loose one.

The model is a set of pure functions over immutable sequences. Spans are
half-open `[start, end)` offsets into the text.

| file | module | what it holds |
|---|---|---|
| `types.dfy` | `Types` | `Span`, `Reference` (year, authors, text), `Option`, the well-formedness of a match list (`WellFormed`) and the contract of a find-all matcher (`IsFindAll`) |
| `chars.dfy` | `Chars` | the character classes `[A-Z]`, `\d` and the letter class |
| `numbers.dfy` | `Numbers` | decimal values, `strconv.Itoa` and `strconv.Atoi` |
| `recognizers.dfy` | `Recognizers` | the scanners for `nameRe`, `yearRe`, `semicolonRe` and `coarseRe`; each is proved sound and complete against a declarative definition of a match |
| `reconcile.dfy` | `Reconcile` | the reconciliation loop: as a recursive definition (`Run`) and as the loop itself (`ReconcileLoop`) |
| `decompose.dfy` | `Decompose` | the decomposition and extraction loop |
| `ordering.dfy` | `Ordering` | `strings.Compare`, `compareRefs` and the stable sort |
| `literals.dfy` | `Literals` | how the string literals of the strict link split into its `key=value` fields and `&` separators |
| `query.dfy` | `Query` | `scholarQuery` and a query-string reader used to state what each link carries |
| `pipeline.dfy` | `Pipeline` | `main` from the input text to the diagnostics and the page entries |

The two large patterns are parameters of type `string -> seq<Span>`:
`accuRe`, the confident matcher, and `subitemRe`, the sub-item matcher.
Their only contract is `IsFindAll`: the matches are in bounds, ordered by
start and do not overlap, which Go's `FindAllIndex` guarantees, and they
are non-empty. `FindAllIndex` itself can return empty matches; these
matches are non-empty only because both `accuRe` and `subitemRe` must
match `\d{4}`.

## Model

| member | source | states |
|---|---|---|
| Reconcile.Run | grabref.go:62-72 | one verdict per coarse match; the final cursor never exceeds the number of confident matches and equals the number of coarse matches that advanced it |
| Reconcile.ReconcileLoop | grabref.go:62-72 | the loop as written, with an explicit cursor, logs exactly the spans of `Reports` and ends with the cursor of `Run`; the reports plus the final cursor add up to the number of coarse matches |
| Reconcile.ReportCount | grabref.go:66-71 | every coarse match is handled exactly once: the number of "Possible reference" reports plus the final cursor equals the number of coarse matches |
| Reconcile.PossibleIff | grabref.go:67-71 | coarse match k is reported if and only if, at its turn, the cursor is exhausted or the current confident match ends at a different offset |
| Reconcile.CoveredEndsMatch | grabref.go:67-70 | the coarse matches that advanced the cursor end, in order, exactly where the first `cursor` confident matches end |
| Reconcile.ReportsAreSubsequence | grabref.go:66-68 | the reported spans are coarse matches, in their original order |
| Reconcile.NoConfidentReportsAll | grabref.go:67-68 | with no confident matches, every coarse match is reported |
| Reconcile.CursorIsLongestEmbeddedPrefix | grabref.go:62-72 | the final cursor is the length of the longest prefix of the confident matches whose end offsets appear, in order, among the coarse end offsets; the greedy merge never stops short of it |
| Reconcile.AllCorroboratedIff | grabref.go:62-72 | the cursor reaches the end of the confident matches if and only if their end offsets form a subsequence of the coarse end offsets |
| Recognizers.NameSpans | grabref.go:49 | the matches of `[A-Z]\p{L}+`: in bounds, in left-to-right order and non-overlapping; each has an upper-case first character and at least one further letter, and is maximal (the next character is not a letter) |
| Recognizers.NameSpansComplete | grabref.go:49 | every position where the leftmost-first scan can start a name token lies inside a found token: no name is missed |
| Recognizers.Names | grabref.go:80 | the author strings are exactly the texts of the name tokens, in order, each an upper-case letter followed by at least one letter |
| Recognizers.FindDigitRun | grabref.go:50 | the first position in a range where four ASCII digits start, or none when no run lies in the range |
| Recognizers.YearText | grabref.go:81 | `yearRe.FindString`: the empty string exactly when the text has no run of four digits, and otherwise the four digits of the leftmost run |
| Recognizers.YearOf | grabref.go:81 | the year is in 0..9999; it is 0 when the text has no run of four digits; otherwise it is the decimal value of the leftmost run |
| Recognizers.HasSemicolon | grabref.go:78 | `semicolonRe.Match` holds if and only if the text contains `;` |
| Recognizers.CoarseSpans | grabref.go:45 | every match of `\([^()]*?(\d{4})[^()]*?\)` found is a `(`, a stretch with no other parenthesis that holds four consecutive digits, and the next `)`; the matches are ordered and non-overlapping |
| Recognizers.CoarseSpansComplete | grabref.go:45 | every such parenthesised stretch in the text is found |
| Numbers.Itoa | grabref.go:151 | `strconv.Itoa` gives the canonical decimal text: a leading `-` exactly for negative numbers, then a non-empty digit string with no leading zero whose value is the absolute value |
| Numbers.Atoi | grabref.go:81 | `strconv.Atoi`: a digit string reads as its decimal value; the empty string is an error; on error the value is 0 |
| Numbers.AtoiItoa | grabref.go:151 | the year written by `Itoa` reads back by `Atoi` as the same number, without error |
| Decompose.Extract | grabref.go:80-82 | a citation unit's reference keeps the unit's text; its year is `YearOf` of the text, the value of the leftmost four-digit run or 0, in 0..9999; its authors are `Names` of the text, the name tokens in order, one per token |
| Decompose.DecomposeMatch | grabref.go:78-90 | a confident match without `;` gives exactly one reference whose text is the whole match; one with `;` gives one reference per sub-item match, in match order, whose text is that sub-item (none when there are no sub-items) |
| Decompose.ReferencesAreUnits | grabref.go:76-92 | the references are in one-to-one order-preserving correspondence with the citation units, and each is extracted from its unit's text |
| Decompose.ReferencesFields | grabref.go:76-92 | every reference's year and authors are those its own text gives: the leftmost four-digit run's value (in 0..9999) and the name tokens |
| Decompose.ReferencesAppend | grabref.go:76-92 | the references of two runs of confident matches are the concatenation of each run's references: the output concatenates per-match results in document order |
| Decompose.UnitsContained | grabref.go:85 | every citation unit lies inside one of the confident matches |
| Decompose.UnitsInDocumentOrder | grabref.go:76-92 | when the confident matches are ordered and non-overlapping, so are the citation units behind the references |
| Decompose.NoGroupsOnePerMatch | grabref.go:79-83 | when no confident match holds `;`, there is exactly one reference per match and its text is the match |
| Ordering.Compare | grabref.go:104 | `strings.Compare` is -1, 0 or 1, and 0 exactly for equal strings |
| Ordering.CompareAntisymmetric | grabref.go:104 | swapping the strings negates the comparison |
| Ordering.CompareTransitive | grabref.go:104 | the string order is transitive |
| Ordering.CompareRefs | grabref.go:94-117 | the comparator as written agrees with `Less`, the lexicographic order on author lists in which a strict prefix comes first |
| Ordering.LessIrreflexive | grabref.go:94-117 | no author list is less than itself, so equal author lists compare false both ways |
| Ordering.LessAsymmetric | grabref.go:94-117 | if a is less than b then b is not less than a |
| Ordering.LessTransitive | grabref.go:94-117 | the comparator is transitive |
| Ordering.LessTotal | grabref.go:94-117 | any two different author lists are ordered one way or the other |
| Ordering.PrefixIsLess | grabref.go:112-113 | a strict prefix of an author list is less than the list |
| Ordering.SortStableSorted | grabref.go:121 | the stable sort's result is ordered by the comparator |
| Ordering.SortStable | grabref.go:121 | the stable sort's result is a permutation of its input |
| Ordering.SortStableIsStable | grabref.go:121 | for every author list, the references with exactly that author list appear in the sorted result in their original relative order |
| Ordering.StableSortIsUnique | grabref.go:121 | any ordering that is sorted and keeps equal author lists in input order is the result of `SortStable`, so the model fixes the same output as `sort.SliceStable` |
| Ordering.SortedRespectsLess | grabref.go:120-122 | in a sorted list, a reference whose authors compare less comes earlier |
| Ordering.Arrange | grabref.go:120-122 | with `-sorted` the result is a sorted permutation; without it the order is unchanged |
| Query.RenderParam | grabref.go:149-168 | rendering a field list as `base?k=v&...` and reading a parameter back gives the first field with that key, when base has no `?`, keys have no `=` or `&`, and values have no `&` |
| Query.SplitJoin | grabref.go:150 | splitting the `+`-joined author list at `+` gives the authors back when none holds `+` |
| Query.NamesRoundTrip | grabref.go:150 | name tokens hold no `&`, `=` or `+`, so the joined author list splits back into the authors (an empty list gives a single empty field) |
| Query.StrictQueryCarries | grabref.go:153-160 | the strict link carries the `+`-joined authors in `as_sauthors`, and the same year string in both `as_ylo` and `as_yhi`; that string reads back as the reference's year |
| Query.LooseQueryCarries | grabref.go:161-166 | the loose link's `q` is the year, `+`, then the `+`-joined authors; split at `+` it gives the year and then the authors |
| Query.StrictText | grabref.go:153-160 | the strict link is exactly the text of the Go concatenation: the fixed prefix, the authors, `&as_publication=&as_ylo=`, the year, `&as_yhi=`, the year, `&hl=en&as_sdt=0%2C22` |
| Query.LooseText | grabref.go:161-166 | the loose link is exactly `https://scholar.google.com/scholar?hl=en&q=`, then the year, `+` and the `+`-joined authors |
| Query.ScholarQuery | grabref.go:149-168 | both links begin with `https://scholar.google.com/scholar?` |
| Pipeline.Grab | grabref.go:59-92 | the diagnostics plus the final cursor account for every coarse match, and the page has one entry per reference |
| Pipeline.ArrangedFields | grabref.go:76-122 | every reference on the page has the year and authors its own text gives: the leftmost four-digit run's value (in 0..9999) and the name tokens |
| Pipeline.GrabLinksCarry | grabref.go:138-144 | each entry's strict and loose links read back as that entry's authors and year |
| Pipeline.GrabOrder | grabref.go:74-122 | the page lists a permutation of the extracted references. With `-sorted` it is sorted, and references with equal author lists stay in document order. Otherwise it lists them in document order |
| Pipeline.NothingConfident | grabref.go:59-92 | with no confident match, every coarse match's text is reported and the page is empty |

## Left out

- Flags, opening and reading the input, and creating the output (grabref.go:21-40, 53-57, 124-134): these are I/O. `-sorted` is the `sorted` parameter, and the input is the `text` parameter.
- The HTML page (grabref.go:136-146): `htmlHead` and `htmlEntry` are not part of this model. The model stops at the entries, each holding a reference and its two links. The `", "`-joined author list printed on the page is not modelled.
- `log.Println` and `log.Fatalf`: the "Possible reference" lines are returned as a sequence of the reported texts. The fatal error paths belong to I/O.
- The internals of `accuRe` and `subitemRe` (grabref.go:43, 47): they are parameters, constrained only by the find-all contract. A faithful model would need a regular-expression engine with lazy quantifiers.
- `sort.SliceStable`'s algorithm: the model sorts by insertion. `Ordering.StableSortIsUnique` shows that any stable sort gives the same result.
- Full Unicode `\p{L}`: `Chars.IsLetter` covers the ASCII letters and the letters of Latin-1 only.
- Bytes versus characters: Go matches over the UTF-8 bytes of the input, and the model matches over a sequence of characters. Any non-ASCII character before a span makes the two kinds of offset differ. For valid UTF-8 no output differs, because offsets are only compared with offsets of the same kind and only used to slice. Invalid UTF-8 is not modelled: Go's regexp reads each bad byte as U+FFFD, and a `seq<char>` cannot hold such a byte.
- Numbers.Atoi: does not model the range error for values beyond 64 bits. The only input is `yearRe.FindString`, which has at most four digits.
- Query.ScholarQuery: Go writes each link as one concatenation of string literals. The model writes a link as the base URL plus a list of `key=value` fields joined by `&`. `Query.StrictText` and `Query.LooseText` prove that this produces exactly the Go text.
- No URL escaping: Go does not escape the authors either. Escaping is needed only by the reader `Query.Param`, which handles keys without `=` or `&` and values without `&`, as the links have.
- Go's `int` is 64 bits; the model's is unbounded. Years lie in 0..9999, so this never matters.
- Duplicate removal and an "et al." flag on references: `grabref.go` has neither, so the model does not either.
