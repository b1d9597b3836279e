/**
 The text of the results document: one Vancouver-style citation per entry,
 numbered from 1 in result order.
 */
module Export {
  import opened Decimal
  import opened PubMed

  /**
   `format_vancouver`: authors, title, journal, year and "doi:" with the DOI,
   each closed by ". " except the DOI, then a newline and the link. Fields are
   inserted verbatim, empty ones included: the template adds 13 characters,
   the citation opens with the authors and a full stop, and its last line is
   the link whenever the link holds no newline. CitationFields places the
   other fields.
   */
  function Citation(e: Entry): (c: string)
    ensures |c| == |e.authors| + |e.title| + |e.journal| + |e.year| + |e.doi| + |e.link| + 13
    ensures c[..|e.authors| + 2] == e.authors + ". "
    ensures '\n' !in e.link ==> LastLine(c) == e.link
  {
    var head := e.authors + ". " + e.title + ". " + e.journal + ". ";
    var mid := e.year + ". doi:" + e.doi;
    HeadFields(e.authors, e.title, e.journal);
    InHead(head, mid, e.link, 0, |e.authors| + 2);
    LastLineOf(head + mid, e.link);
    head + mid + "\n" + e.link
  }

  /**
   Each field of the entry sits unchanged at its own place in the citation,
   between the template's separators: ". " after authors, title and journal,
   ". doi:" after the year, and the newline before the link at the end.
   */
  lemma CitationFields(e: Entry)
    ensures var c, a, t, j, y, d := Citation(e), |e.authors|, |e.title|, |e.journal|, |e.year|, |e.doi|;
            && c[a + 2..a + 2 + t] == e.title
            && c[a + 2 + t..a + 4 + t] == ". "
            && c[a + 4 + t..a + 4 + t + j] == e.journal
            && c[a + 4 + t + j..a + 6 + t + j] == ". "
            && c[a + 6 + t + j..a + 6 + t + j + y] == e.year
            && c[a + 6 + t + j + y..a + 12 + t + j + y] == ". doi:"
            && c[a + 12 + t + j + y..a + 12 + t + j + y + d] == e.doi
            && c[|c| - |e.link| - 1..] == "\n" + e.link
  {
    var h := e.authors + ". " + e.title + ". " + e.journal + ". ";
    var m := e.year + ". doi:" + e.doi;
    assert Citation(e) == h + m + "\n" + e.link;
    HeadPlaced(e.authors, e.title, e.journal, m, e.link);
    MidPlaced(h, e.year, e.doi, e.link);
    LinkAtEnd(h + m, e.link);
  }

  /** Title, journal and their separators inside a text that starts with the head. */
  lemma HeadPlaced(au: string, ti: string, jt: string, m: string, l: string)
    ensures var h, a, t, j := au + ". " + ti + ". " + jt + ". ", |au|, |ti|, |jt|;
            var c := h + m + "\n" + l;
            && |h| == a + t + j + 6
            && c[a + 2..a + 2 + t] == ti
            && c[a + 2 + t..a + 4 + t] == ". "
            && c[a + 4 + t..a + 4 + t + j] == jt
            && c[a + 4 + t + j..a + 6 + t + j] == ". "
  {
    var h, a, t, j := au + ". " + ti + ". " + jt + ". ", |au|, |ti|, |jt|;
    HeadFields(au, ti, jt);
    InHead(h, m, l, a + 2, a + 2 + t);
    InHead(h, m, l, a + 2 + t, a + 4 + t);
    InHead(h, m, l, a + 4 + t, a + 4 + t + j);
    InHead(h, m, l, a + 4 + t + j, a + 6 + t + j);
  }

  /** Year, ". doi:" and the DOI right after the head. */
  lemma MidPlaced(h: string, yr: string, doi: string, l: string)
    ensures var m, k, y := yr + ". doi:" + doi, |h|, |yr|;
            var c := h + m + "\n" + l;
            && c[k..k + y] == yr
            && c[k + y..k + y + 6] == ". doi:"
            && c[k + y + 6..k + y + 6 + |doi|] == doi
  {
    var m, k, y := yr + ". doi:" + doi, |h|, |yr|;
    MidFields(yr, doi);
    InMid(h, m, l, k, k + y);
    InMid(h, m, l, k + y, k + y + 6);
    InMid(h, m, l, k + y + 6, k + y + 6 + |doi|);
  }

  /** Authors, title and journal with their ". " separators. */
  lemma HeadFields(au: string, ti: string, jt: string)
    ensures var h, a, t, j := au + ". " + ti + ". " + jt + ". ", |au|, |ti|, |jt|;
            && |h| == a + t + j + 6
            && h[0..a + 2] == au + ". "
            && h[a + 2..a + 2 + t] == ti
            && h[a + 2 + t..a + 4 + t] == ". "
            && h[a + 4 + t..a + 4 + t + j] == jt
            && h[a + 4 + t + j..a + 6 + t + j] == ". "
  {
    var h := au + ". " + ti + ". " + jt + ". ";
    assert h == (au + ". ") + ti + (". " + jt + ". ");
    assert h == (au + ". " + ti) + ". " + (jt + ". ");
    assert h == (au + ". " + ti + ". ") + jt + ". ";
  }

  /** Year, ". doi:" and the DOI. */
  lemma MidFields(yr: string, doi: string)
    ensures var m, y := yr + ". doi:" + doi, |yr|;
            && |m| == y + |doi| + 6
            && m[0..y] == yr
            && m[y..y + 6] == ". doi:"
            && m[y + 6..y + 6 + |doi|] == doi
  {
  }

  /** A slice inside the head of `h + m + "\n" + l` is a slice of h. */
  lemma InHead(h: string, m: string, l: string, i: nat, j: nat)
    requires i <= j <= |h|
    ensures (h + m + "\n" + l)[i..j] == h[i..j]
  {
    assert (h + m + "\n" + l)[i..j] == (h + m)[i..j];
  }

  /** A slice inside the middle of `h + m + "\n" + l` is a slice of m. */
  lemma InMid(h: string, m: string, l: string, i: nat, j: nat)
    requires |h| <= i <= j <= |h| + |m|
    ensures (h + m + "\n" + l)[i..j] == m[i - |h|..j - |h|]
  {
    assert (h + m + "\n" + l)[i..j] == (h + m)[i..j];
  }

  lemma LinkAtEnd(x: string, l: string)
    ensures var c := x + "\n" + l; c[|c| - |l| - 1..] == "\n" + l
  {
    var c := x + "\n" + l;
    assert c[|c| - |l| - 1] == '\n';
    assert c[|c| - |l|..] == l;
  }

  /** The text after the last newline of s (all of s when it has none). */
  function LastLine(s: string): (r: string)
    ensures |r| <= |s| && r == s[|s| - |r|..]
    ensures '\n' !in r
    ensures r == s || s[|s| - |r| - 1] == '\n'
  {
    if s == [] || s[|s| - 1] == '\n' then []
    else
      var r := LastLine(s[..|s| - 1]);
      LastLineStep(s[..|s| - 1], s[|s| - 1], r);
      r + [s[|s| - 1]]
  }

  /** One more character other than a newline extends the last line. */
  lemma LastLineStep(p: string, c: char, r: string)
    requires c != '\n'
    requires |r| <= |p| && r == p[|p| - |r|..] && '\n' !in r
    requires r == p || p[|p| - |r| - 1] == '\n'
    ensures var s, r' := p + [c], r + [c];
            && |r'| <= |s| && r' == s[|s| - |r'|..] && '\n' !in r'
            && (r' == s || s[|s| - |r'| - 1] == '\n')
  {
    var s := p + [c];
    assert s[|s| - |r| - 1..] == p[|p| - |r|..] + [c];
    assert r != p ==> s[|s| - |r| - 2] == p[|p| - |r| - 1];
  }

  lemma LastLineOf(x: string, y: string)
    ensures '\n' !in y ==> LastLine(x + "\n" + y) == y
  {
    if '\n' !in y {
      LastLineAfter(x, y);
    }
  }

  lemma {:induction false} LastLineAfter(x: string, y: string)
    requires '\n' !in y
    ensures LastLine(x + "\n" + y) == y
    decreases |y|
  {
    var s := x + "\n" + y;
    if y == [] {
      assert s[|s| - 1] == '\n';
    } else {
      var y' := y[..|y| - 1];
      assert s[..|s| - 1] == x + "\n" + y';
      assert s[|s| - 1] == y[|y| - 1];
      LastLineAfter(x, y');
    }
  }

  /** Every normalized entry's citation ends with its PubMed link, provided the PMID has no newline. */
  lemma CitationEndsWithLink(r: MedlineRecord)
    requires '\n' !in TextTag(r, "PMID")
    ensures LastLine(Citation(Normalize(r))) == Link(TextTag(r, "PMID"))
  {
    var l := Link(TextTag(r, "PMID"));
    assert l == LinkPrefix + TextTag(r, "PMID") + "/";
    assert '\n' !in l;
  }

  /**
   The text of paragraph number n: the number, read back from the leading
   digits, then a full stop, a space and the citation.
   */
  function Paragraph(n: nat, e: Entry): (p: string)
    ensures LeadingDigits(p) == Show(n) && Value(LeadingDigits(p)) == n
    ensures p[|Show(n)|..] == ". " + Citation(e)
  {
    var rest := ". " + Citation(e);
    LeadingNumber(n, rest);
    Show(n) + rest
  }

  /**
   The paragraph loop of the export: one paragraph per result, the i-th
   (counting from 1) holding the number i, a full stop and a space, and the
   citation of the i-th result.
   */
  method NumberedParagraphs(results: seq<Entry>) returns (ps: seq<string>)
    ensures |ps| == |results|
    ensures forall i :: 0 <= i < |results| ==> ps[i] == Paragraph(i + 1, results[i])
  {
    ps := [];
    var i := 0;
    while i < |results|
      invariant 0 <= i <= |results|
      invariant |ps| == i
      invariant forall j :: 0 <= j < i ==> ps[j] == Paragraph(j + 1, results[j])
    {
      ps := ps + [Paragraph(i + 1, results[i])];
      i := i + 1;
    }
  }
}
