/** `scholarQuery`: the two Google Scholar search links built for each
    reference, and a query-string reader that shows what each link carries. */
module Query {
  import opened Types
  import opened Numbers
  import opened Chars
  import opened Recognizers
  import opened Literals

  /** `strings.Join` */
  function Join(xs: seq<string>, sep: string): (r: string)
    decreases |xs|
  {
    if |xs| == 0 then ""
    else if |xs| == 1 then xs[0]
    else xs[0] + sep + Join(xs[1..], sep)
  }

  /** The text before and after the first `c`, if `s` holds one. */
  function Cut(s: string, c: char): (r: Option<(string, string)>)
    ensures r.None? <==> c !in s
    ensures r.Some? ==> s == r.value.0 + [c] + r.value.1 && c !in r.value.0
    decreases |s|
  {
    if |s| == 0 then None
    else if s[0] == c then Some(([], s[1..]))
    else
      match Cut(s[1..], c)
      case None => None
      case Some(p) =>
        assert s == [s[0]] + s[1..];
        Some(([s[0]] + p.0, p.1))
  }

  /** Cutting is determined by the first separator. */
  lemma {:induction false} CutAppend(a: string, c: char, b: string)
    requires c !in a
    ensures Cut(a + [c] + b, c) == Some((a, b))
    decreases |a|
  {
    var s := a + [c] + b;
    if |a| == 0 {
      assert s[0] == c && s[1..] == b;
    } else {
      assert s[0] == a[0] && s[1..] == a[1..] + [c] + b;
      CutAppend(a[1..], c, b);
      assert [a[0]] + a[1..] == a;
    }
  }

  /** `strings.Split` with a one-character separator. */
  function Split(s: string, c: char): (r: seq<string>)
    ensures |r| > 0
    decreases |s|
  {
    match Cut(s, c)
    case None => [s]
    case Some(p) => [p.0] + Split(p.1, c)
  }

  lemma SplitCons(a: string, c: char, b: string)
    requires c !in a
    ensures Split(a + [c] + b, c) == [a] + Split(b, c)
  {
    CutAppend(a, c, b);
  }

  /** Splitting a join gives the pieces back, when none of them holds the
      separator (an empty list joins to "", which splits to [""]). */
  lemma {:induction false} SplitJoin(xs: seq<string>, c: char)
    requires |xs| > 0
    requires forall i :: 0 <= i < |xs| ==> c !in xs[i]
    ensures Split(Join(xs, [c]), c) == xs
    decreases |xs|
  {
    if |xs| == 1 {
      assert Cut(xs[0], c).None?;
    } else {
      SplitJoin(xs[1..], c);
      SplitCons(xs[0], c, Join(xs[1..], [c]));
      assert xs == [xs[0]] + xs[1..];
    }
  }

  /** A character that is not the separator occurs in a join only if it
      occurs in one of the pieces. */
  lemma {:induction false} JoinAvoids(xs: seq<string>, sep: char, c: char)
    requires c != sep
    requires forall i :: 0 <= i < |xs| ==> c !in xs[i]
    ensures c !in Join(xs, [sep])
    decreases |xs|
  {
    if |xs| > 1 {
      JoinAvoids(xs[1..], sep, c);
    }
  }

  // ---------------------------------------------------------------- URLs as field lists

  /** One `key=value` field of a query string. */
  datatype Field = Field(key: string, value: string)

  function Encode(f: Field): (r: string)
    ensures |r| == |f.key| + 1 + |f.value|
  {
    f.key + "=" + f.value
  }

  function EncodeAll(fs: seq<Field>): (r: seq<string>)
    ensures |r| == |fs|
    ensures forall i :: 0 <= i < |fs| ==> r[i] == Encode(fs[i])
  {
    seq(|fs|, i requires 0 <= i < |fs| => Encode(fs[i]))
  }

  /** `base?k1=v1&k2=v2&...` */
  function Render(base: string, fs: seq<Field>): (r: string)
    ensures |r| > |base| && r[..|base| + 1] == base + "?"
  {
    var r := base + "?" + Join(EncodeAll(fs), "&");
    assert r[..|base| + 1] == base + "?";
    r
  }

  /** Fields whose keys hold neither `=` nor `&` and whose values hold no
      `&`: exactly the fields a query string can carry unescaped. */
  predicate PlainField(f: Field) {
    '=' !in f.key && '&' !in f.key && '&' !in f.value
  }

  predicate Plain(fs: seq<Field>) {
    forall i :: 0 <= i < |fs| ==> PlainField(fs[i])
  }

  /** The value of the first field named `key`: the reference answer. */
  function First(fs: seq<Field>, key: string): Option<string>
    decreases |fs|
  {
    if |fs| == 0 then None
    else if fs[0].key == key then Some(fs[0].value)
    else First(fs[1..], key)
  }

  lemma {:induction false} FirstSkip(fs: seq<Field>, key: string, i: nat)
    requires i <= |fs|
    requires forall j :: 0 <= j < i ==> fs[j].key != key
    ensures First(fs, key) == First(fs[i..], key)
    decreases i
  {
    if i > 0 {
      FirstSkip(fs[1..], key, i - 1);
      assert fs[1..][i - 1..] == fs[i..];
    }
  }

  // ---------------------------------------------------------------- reading a link back

  /** The value of the first `key=value` field of a `&`-separated list. */
  function Lookup(fields: seq<string>, key: string): Option<string>
    decreases |fields|
  {
    if |fields| == 0 then None
    else
      match Cut(fields[0], '=')
      case Some(p) => if p.0 == key then Some(p.1) else Lookup(fields[1..], key)
      case None => Lookup(fields[1..], key)
  }

  /** The value of query parameter `key` of a URL. */
  function Param(url: string, key: string): Option<string>
  {
    match Cut(url, '?')
    case None => None
    case Some(p) => Lookup(Split(p.1, '&'), key)
  }

  /** Reading the encoded fields finds the first field with the key. */
  lemma {:induction false} LookupEncoded(fs: seq<Field>, key: string)
    requires Plain(fs)
    ensures Lookup(EncodeAll(fs), key) == First(fs, key)
    decreases |fs|
  {
    if |fs| > 0 {
      CutAppend(fs[0].key, '=', fs[0].value);
      LookupEncoded(fs[1..], key);
      assert EncodeAll(fs)[1..] == EncodeAll(fs[1..]);
    }
  }

  /** Rendering and reading back are inverse: every parameter of a rendered
      URL is the first field of that name. */
  lemma RenderParam(base: string, fs: seq<Field>, key: string)
    requires '?' !in base && |fs| > 0 && Plain(fs)
    ensures Param(Render(base, fs), key) == First(fs, key)
  {
    var es := EncodeAll(fs);
    CutAppend(base, '?', Join(es, "&"));
    forall i | 0 <= i < |es|
      ensures '&' !in es[i]
    {
      assert PlainField(fs[i]);
    }
    SplitJoin(es, '&');
    LookupEncoded(fs, key);
  }

  // ---------------------------------------------------------------- the links

  const ScholarUrl := "https://scholar.google.com/scholar"

  /** The fields of the strict link: the authors in `as_sauthors`, the
      year in both `as_ylo` and `as_yhi`. */
  function StrictFields(names: string, year: string): (fs: seq<Field>)
    ensures |fs| == 11
  {
    [Field("as_q", ""), Field("as_epq", ""), Field("as_oq", ""), Field("as_eq", ""),
     Field("as_occt", "any"), Field("as_sauthors", names), Field("as_publication", ""),
     Field("as_ylo", year), Field("as_yhi", year), Field("hl", "en"), Field("as_sdt", "0%2C22")]
  }

  /** The fields of the loose link: the year and the authors as one
      `+`-separated full-text query. */
  function LooseFields(names: string, year: string): (fs: seq<Field>)
    ensures |fs| == 2
  {
    [Field("hl", "en"), Field("q", year + "+" + names)]
  }

  /** `scholarQuery(ref, strict)` */
  function ScholarQuery(ref: Reference, strict: bool): (q: string)
    ensures |q| > |ScholarUrl| && q[..|ScholarUrl| + 1] == ScholarUrl + "?"
  {
    var names := Join(ref.authors, "+");
    var year := Itoa(ref.year);
    Render(ScholarUrl, if strict then StrictFields(names, year) else LooseFields(names, year))
  }

  /** The characters that never occur in a year rendered by `Itoa`. */
  lemma ItoaAvoids(n: int)
    ensures '&' !in Itoa(n) && '+' !in Itoa(n) && '=' !in Itoa(n)
  {
  }

  /** An author name found by the name recogniser is letters only. */
  lemma AuthorAvoids(a: string)
    requires IsAuthor(a)
    ensures '&' !in a && '+' !in a && '=' !in a
  {
  }

  predicate AllAuthors(authors: seq<string>) {
    forall i :: 0 <= i < |authors| ==> IsAuthor(authors[i])
  }

  /** The author list joined with `+` splits back into the authors. */
  lemma NamesRoundTrip(authors: seq<string>)
    requires AllAuthors(authors)
    ensures '&' !in Join(authors, "+") && '=' !in Join(authors, "+")
    ensures Split(Join(authors, "+"), '+') == if |authors| == 0 then [""] else authors
  {
    forall i | 0 <= i < |authors|
      ensures '&' !in authors[i] && '+' !in authors[i] && '=' !in authors[i]
    {
      AuthorAvoids(authors[i]);
    }
    JoinAvoids(authors, '+', '&');
    JoinAvoids(authors, '+', '=');
    if |authors| > 0 {
      SplitJoin(authors, '+');
    }
  }

  /** The four empty fields that open the strict link are plain. */
  lemma StrictOpeningPlain(names: string, year: string, k: nat)
    requires k < 4
    ensures PlainField(StrictFields(names, year)[k])
  {
    var f := StrictFields(names, year)[k];
    if k == 0 { assert f == Field("as_q", ""); }
    else if k == 1 { assert f == Field("as_epq", ""); }
    else if k == 2 { assert f == Field("as_oq", ""); }
    else { assert f == Field("as_eq", ""); }
  }

  /** The occurrence, author and publication fields of the strict link are
      plain. */
  lemma StrictAuthorPlain(names: string, year: string, k: nat)
    requires '&' !in names && 4 <= k < 7
    ensures PlainField(StrictFields(names, year)[k])
  {
    var f := StrictFields(names, year)[k];
    if k == 4 {
      assert f == Field("as_occt", "any");
    } else if k == 5 {
      assert f == Field("as_sauthors", names);
      KeyPlain("as_sauthors");
    } else {
      assert f == Field("as_publication", "");
      KeyPlain("as_publication");
    }
  }

  /** A key made of lower-case letters and `_` holds no `=` or `&`. */
  lemma KeyPlain(key: string)
    requires forall i :: 0 <= i < |key| ==> 'a' <= key[i] <= 'z' || key[i] == '_'
    ensures '=' !in key && '&' !in key
  {
  }

  /** The year, language and search-type fields of the strict link are
      plain. */
  lemma StrictYearPlain(names: string, year: string, k: nat)
    requires '&' !in year && 7 <= k < 11
    ensures PlainField(StrictFields(names, year)[k])
  {
    var f := StrictFields(names, year)[k];
    if k == 7 { assert f == Field("as_ylo", year); }
    else if k == 8 { assert f == Field("as_yhi", year); }
    else if k == 9 { assert f == Field("hl", "en"); }
    else { assert f == Field("as_sdt", "0%2C22"); }
  }

  lemma StrictPlain(names: string, year: string)
    requires '&' !in names && '&' !in year
    ensures Plain(StrictFields(names, year))
  {
    forall k | 0 <= k < 11
      ensures PlainField(StrictFields(names, year)[k])
    {
      if k < 4 {
        StrictOpeningPlain(names, year, k);
      } else if k < 7 {
        StrictAuthorPlain(names, year, k);
      } else {
        StrictYearPlain(names, year, k);
      }
    }
  }

  /** Which field of the strict link each parameter comes from. */
  lemma StrictFirst(names: string, year: string)
    ensures First(StrictFields(names, year), "as_sauthors") == Some(names)
    ensures First(StrictFields(names, year), "as_ylo") == Some(year)
    ensures First(StrictFields(names, year), "as_yhi") == Some(year)
  {
    var fs := StrictFields(names, year);
    FirstSkip(fs, "as_sauthors", 5);
    FirstSkip(fs, "as_ylo", 7);
    FirstSkip(fs, "as_yhi", 8);
  }

  lemma ScholarUrlPlain()
    ensures '?' !in ScholarUrl
  {
  }

  /** The three parameters of a strict link that hold the reference. */
  lemma StrictParams(names: string, year: string)
    requires '&' !in names && '&' !in year
    ensures Param(Render(ScholarUrl, StrictFields(names, year)), "as_sauthors") == Some(names)
    ensures Param(Render(ScholarUrl, StrictFields(names, year)), "as_ylo") == Some(year)
    ensures Param(Render(ScholarUrl, StrictFields(names, year)), "as_yhi") == Some(year)
  {
    var fs := StrictFields(names, year);
    ScholarUrlPlain();
    StrictPlain(names, year);
    StrictFirst(names, year);
    RenderParam(ScholarUrl, fs, "as_sauthors");
    RenderParam(ScholarUrl, fs, "as_ylo");
    RenderParam(ScholarUrl, fs, "as_yhi");
  }

  /** The strict link carries the authors in `as_sauthors` and the year,
      which reads back as the reference's year, in `as_ylo` and `as_yhi`. */
  lemma StrictQueryCarries(ref: Reference)
    requires AllAuthors(ref.authors)
    ensures var q := ScholarQuery(ref, true);
            var year := Itoa(ref.year);
            && Param(q, "as_sauthors") == Some(Join(ref.authors, "+"))
            && Param(q, "as_ylo") == Some(year)
            && Param(q, "as_yhi") == Some(year)
            && Atoi(year) == Parsed(ref.year, true)
  {
    NamesRoundTrip(ref.authors);
    ItoaAvoids(ref.year);
    AtoiItoa(ref.year);
    StrictParams(Join(ref.authors, "+"), Itoa(ref.year));
  }

  /** The parameter of a loose link that holds the reference. */
  lemma LooseParam(names: string, year: string)
    requires '&' !in names && '&' !in year
    ensures Param(Render(ScholarUrl, LooseFields(names, year)), "q") == Some(year + "+" + names)
  {
    var fs := LooseFields(names, year);
    assert '&' !in year + "+" + names;
    assert PlainField(fs[0]) && PlainField(fs[1]);
    ScholarUrlPlain();
    RenderParam(ScholarUrl, fs, "q");
    FirstSkip(fs, "q", 1);
  }

  /** The loose link carries `q` = year `+` authors; splitting `q` at `+`
      gives the year, which reads back as the reference's year, and then the
      authors (or a single empty field when there are none). */
  lemma LooseQueryCarries(ref: Reference)
    requires AllAuthors(ref.authors)
    ensures var q := ScholarQuery(ref, false);
            var year := Itoa(ref.year);
            var names := Join(ref.authors, "+");
            && Param(q, "q") == Some(year + "+" + names)
            && Split(year + "+" + names, '+')
               == [year] + (if |ref.authors| == 0 then [""] else ref.authors)
            && Atoi(year) == Parsed(ref.year, true)
  {
    var names := Join(ref.authors, "+");
    var year := Itoa(ref.year);
    NamesRoundTrip(ref.authors);
    ItoaAvoids(ref.year);
    AtoiItoa(ref.year);
    LooseParam(names, year);
    SplitCons(year, '+', names);
    assert year + "+" + names == year + ['+'] + names;
  }

  lemma LooseJoin(v: string)
    ensures Join(EncodeAll([Field("hl", "en"), Field("q", v)]), "&") == "hl=en" + "&" + ("q=" + v)
  {
    var es := EncodeAll([Field("hl", "en"), Field("q", v)]);
    assert es[0] == "hl=en";
    assert es[1] == "q=" + v;
    assert es[1..] == ["q=" + v];
  }

  lemma LooseConcat(v: string)
    ensures ScholarUrl + "?" + ("hl=en" + "&" + ("q=" + v)) == ScholarUrl + "?hl=en&q=" + v
  {
    AppendAssoc(ScholarUrl, "?", "hl=en" + "&" + ("q=" + v));
    assert "?" + ("hl=en" + "&" + ("q=" + v)) == "?hl=en&q=" + v;
    AppendAssoc(ScholarUrl, "?hl=en&q=", v);
  }

  /** The loose link is the text Go's concatenation produces. */
  lemma LooseText(ref: Reference)
    ensures ScholarQuery(ref, false)
         == ScholarUrl + "?hl=en&q=" + Itoa(ref.year) + "+" + Join(ref.authors, "+")
  {
    var v := Itoa(ref.year) + "+" + Join(ref.authors, "+");
    LooseJoin(v);
    LooseConcat(v);
    AppendAssoc(ScholarUrl + "?hl=en&q=", Itoa(ref.year) + "+", Join(ref.authors, "+"));
    AppendAssoc(ScholarUrl + "?hl=en&q=", Itoa(ref.year), "+");
  }

  lemma JoinStep(es: seq<string>, k: nat)
    requires k + 1 < |es|
    ensures Join(es[k..], "&") == es[k] + "&" + Join(es[k + 1..], "&")
  {
    assert es[k..][1..] == es[k + 1..];
  }

  /** Joining from `k` on, with a separator in front, is the `k`-th piece
      with its separator followed by the rest with theirs. */
  lemma AmpStep(es: seq<string>, k: nat)
    requires k + 1 < |es|
    ensures "&" + Join(es[k..], "&") == ("&" + es[k]) + ("&" + Join(es[k + 1..], "&"))
  {
    JoinStep(es, k);
    AppendAssoc("&", es[k] + "&", Join(es[k + 1..], "&"));
    AppendAssoc("&", es[k], "&");
    AppendAssoc("&" + es[k], "&", Join(es[k + 1..], "&"));
  }

  /** `AmpStep` for a piece with an empty value. */
  lemma AmpKey(es: seq<string>, k: nat, a: string)
    requires k + 1 < |es| && es[k] == a
    ensures "&" + Join(es[k..], "&") == "&" + (a + ("&" + Join(es[k + 1..], "&")))
  {
    AmpStep(es, k);
    AppendAssoc("&", a, "&" + Join(es[k + 1..], "&"));
  }

  /** `AmpStep` for a piece `a + v` with a fixed head `a`. */
  lemma AmpValue(es: seq<string>, k: nat, a: string, v: string)
    requires k + 1 < |es| && es[k] == a + v
    ensures "&" + Join(es[k..], "&") == "&" + (a + (v + ("&" + Join(es[k + 1..], "&"))))
  {
    var t := "&" + Join(es[k + 1..], "&");
    AmpStep(es, k);
    AppendAssoc("&", a + v, t);
    AppendAssoc(a, v, t);
  }

  /** The encoded fields of the strict link, before the author field. */
  lemma StrictEncodedFront(names: string, year: string)
    ensures var es := EncodeAll(StrictFields(names, year));
      es[0] == "as_q=" && es[1] == "as_epq=" && es[2] == "as_oq=" && es[3] == "as_eq=" && es[4] == "as_occt=any"
  {
  }

  /** The encoded fields of the strict link, from the author field on. */
  lemma StrictEncodedBack(names: string, year: string)
    ensures var es := EncodeAll(StrictFields(names, year));
      es[5] == "as_sauthors=" + names && es[6] == "as_publication=" && es[7] == "as_ylo=" + year
      && es[8] == "as_yhi=" + year && es[9] == "hl=en" && es[10] == "as_sdt=0%2C22"
  {
  }

  /** The last three fields of the strict link, joined, with a separator in
      front. */
  lemma StrictJoinClose(names: string, year: string)
    ensures "&" + Join(EncodeAll(StrictFields(names, year))[8..], "&")
         == "&as_yhi=" + (year + "&hl=en&as_sdt=0%2C22")
  {
    var es := EncodeAll(StrictFields(names, year));
    var t10 := "&" + Join(es[10..], "&");
    var t9 := "&" + Join(es[9..], "&");
    StrictEncodedBack(names, year);
    assert es[10..] == [es[10]];
    ClosingPiece();
    assert t10 == "&as_sdt=0%2C22";
    AmpKey(es, 9, "hl=en");
    YearHeads(t10);
    assert t9 == "&hl=en&as_sdt=0%2C22";
    AmpValue(es, 8, "as_yhi=", year);
    YearHeads(year + t9);
  }

  /** The last five fields of the strict link, joined, with a separator in
      front. */
  lemma StrictJoinTail(names: string, year: string)
    ensures "&" + Join(EncodeAll(StrictFields(names, year))[6..], "&")
         == "&as_publication=&as_ylo=" + (year + ("&as_yhi=" + (year + "&hl=en&as_sdt=0%2C22")))
  {
    var es := EncodeAll(StrictFields(names, year));
    var t8 := "&" + Join(es[8..], "&");
    var t7 := "&" + Join(es[7..], "&");
    StrictEncodedBack(names, year);
    StrictJoinClose(names, year);
    AmpValue(es, 7, "as_ylo=", year);
    YearHeads(year + t8);
    assert t7 == "&as_ylo=" + (year + t8);
    AmpKey(es, 6, "as_publication=");
    AuthorHeads(t7);
    MiddlePieces(year + t8);
  }

  /** The author field of the strict link and what follows it, joined, with
      a separator in front. */
  lemma StrictJoinMiddle(names: string, year: string)
    ensures "&" + Join(EncodeAll(StrictFields(names, year))[4..], "&")
         == "&as_occt=any&as_sauthors=" + (names + ("&" + Join(EncodeAll(StrictFields(names, year))[6..], "&")))
  {
    var es := EncodeAll(StrictFields(names, year));
    var t6 := "&" + Join(es[6..], "&");
    var t5 := "&" + Join(es[5..], "&");
    StrictEncodedFront(names, year);
    StrictEncodedBack(names, year);
    AmpValue(es, 5, "as_sauthors=", names);
    AuthorHeads(names + t6);
    assert t5 == "&as_sauthors=" + (names + t6);
    AmpKey(es, 4, "as_occt=any");
    AuthorHeads(t5);
    MiddlePieces(names + t6);
  }

  /** The four empty fields that open the strict link, joined, after the
      query mark. */
  lemma StrictJoinFront(names: string, year: string)
    ensures "?" + Join(EncodeAll(StrictFields(names, year)), "&")
         == "?as_q=&as_epq=&as_oq=&as_eq=" + ("&" + Join(EncodeAll(StrictFields(names, year))[4..], "&"))
  {
    var es := EncodeAll(StrictFields(names, year));
    var t4 := "&" + Join(es[4..], "&");
    var t3 := "&" + Join(es[3..], "&");
    var t2 := "&" + Join(es[2..], "&");
    var t1 := "&" + Join(es[1..], "&");
    StrictEncodedFront(names, year);
    AmpKey(es, 3, "as_eq=");
    OpeningHeads(t4);
    assert t3 == "&as_eq=" + t4;
    AmpKey(es, 2, "as_oq=");
    OpeningHeads(t3);
    assert t2 == "&as_oq=" + t3;
    AmpKey(es, 1, "as_epq=");
    OpeningHeads(t2);
    assert t1 == "&as_epq=" + t2;
    JoinStep(es, 0);
    assert es[0..] == es;
    AppendAssoc("as_q=", "&", Join(es[1..], "&"));
    OpeningPiece(t4);
  }

  /** The strict link is the text Go's concatenation produces. */
  lemma StrictText(ref: Reference)
    ensures ScholarQuery(ref, true)
         == ScholarUrl + "?as_q=&as_epq=&as_oq=&as_eq=" + ("&as_occt=any&as_sauthors=" + (Join(ref.authors, "+")
            + ("&as_publication=&as_ylo=" + (Itoa(ref.year) + ("&as_yhi=" + (Itoa(ref.year) + "&hl=en&as_sdt=0%2C22"))))))
  {
    var names, year := Join(ref.authors, "+"), Itoa(ref.year);
    var es := EncodeAll(StrictFields(names, year));
    StrictJoinFront(names, year);
    StrictJoinMiddle(names, year);
    StrictJoinTail(names, year);
    AppendAssoc(ScholarUrl, "?", Join(es, "&"));
    AppendAssoc(ScholarUrl, "?as_q=&as_epq=&as_oq=&as_eq=", "&" + Join(es[4..], "&"));
  }
}
