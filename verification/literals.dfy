/** How the string literals of grabref.go's strict Google Scholar link are
    made up of the `key=value` fields and `&` separators, each fact stated
    for any text `r` that follows. */
module Literals {

  /** A separator glued to each key of the four empty fields that open
      the strict link. */
  lemma OpeningHeads(r: string)
    ensures "&" + ("as_epq=" + r) == "&as_epq=" + r
    ensures "&" + ("as_oq=" + r) == "&as_oq=" + r
    ensures "&" + ("as_eq=" + r) == "&as_eq=" + r
  {
  }

  /** A separator glued to each key of the fields around the authors. */
  lemma AuthorHeads(r: string)
    ensures "&" + ("as_occt=any" + r) == "&as_occt=any" + r
    ensures "&" + ("as_sauthors=" + r) == "&as_sauthors=" + r
    ensures "&" + ("as_publication=" + r) == "&as_publication=" + r
  {
  }

  /** A separator glued to each key of the fields around the year. */
  lemma YearHeads(r: string)
    ensures "&" + ("as_ylo=" + r) == "&as_ylo=" + r
    ensures "&" + ("as_yhi=" + r) == "&as_yhi=" + r
    ensures "&" + ("hl=en" + r) == "&hl=en" + r
  {
  }

  /** The query mark and the four empty fields that open the link form the
      tail of Go's first literal. */
  lemma OpeningPiece(r: string)
    ensures "?" + ("as_q=" + ("&as_epq=" + ("&as_oq=" + ("&as_eq=" + r)))) == "?as_q=&as_epq=&as_oq=&as_eq=" + r
  {
  }

  /** The fields before each interpolated value form Go's literals. */
  lemma MiddlePieces(r: string)
    ensures "&as_occt=any" + ("&as_sauthors=" + r) == "&as_occt=any&as_sauthors=" + r
    ensures "&as_publication=" + ("&as_ylo=" + r) == "&as_publication=&as_ylo=" + r
  {
  }

  /** The two fixed fields that close the link form Go's last literal. */
  lemma ClosingPiece()
    ensures "&" + "as_sdt=0%2C22" == "&as_sdt=0%2C22"
    ensures "&hl=en" + "&as_sdt=0%2C22" == "&hl=en&as_sdt=0%2C22"
  {
  }
}
