/** From one decoded article summary to one flat output row.

    An `Article` is what the script reads out of one `DocSum` node: the title,
    the author names in listed order, the publication date and the optional
    `ELocationID`. A `Record` is the row appended to the result list, with the
    columns Title, Authors, Publication Date, DOI and Citation. */
module Records {
  import opened Wrappers

  datatype Article = Article(title: string, authors: seq<string>, pubDate: string, eloc: Option<string>)

  datatype Record = Record(title: string, authors: string, pubDate: string, doi: string, citation: string)

  /** The DOI column when an article has no `ELocationID`. */
  const Placeholder := "N/A"
  const AuthorSeparator := ", "

  /** Python's `sep.join(parts)`. */
  function Join(parts: seq<string>, sep: string): string {
    if |parts| == 0 then ""
    else if |parts| == 1 then parts[0]
    else parts[0] + sep + Join(parts[1..], sep)
  }

  /** Splits at every `", "`: the reading of the Authors column. */
  function SplitAuthors(s: string): (r: seq<string>)
    ensures |r| > 0
  {
    if s == [] then [""]
    else if |s| >= 2 && s[0] == ',' && s[1] == ' ' then [""] + SplitAuthors(s[2..])
    else
      var rest := SplitAuthors(s[1..]);
      [[s[0]] + rest[0]] + rest[1..]
  }

  /** `"{authors} ({pub_date}). {title}. DOI: {doi}"` */
  function Citation(authors: string, pubDate: string, title: string, doi: string): string {
    authors + " (" + pubDate + "). " + title + ". DOI: " + doi
  }

  /** The row's citation agrees with its other four columns. */
  predicate CitationConsistent(r: Record) {
    r.citation == Citation(r.authors, r.pubDate, r.title, r.doi)
  }

  /** The row built for one article (the body of the inner loop). */
  function ToRecord(a: Article): (r: Record)
    ensures r.title == a.title && r.pubDate == a.pubDate
    ensures r.authors == Join(a.authors, AuthorSeparator)
    ensures a.eloc.Some? ==> r.doi == a.eloc.value
    ensures a.eloc.None? ==> r.doi == Placeholder
    ensures CitationConsistent(r)
  {
    var authors := Join(a.authors, AuthorSeparator);
    var doi := a.eloc.GetOr(Placeholder);
    Record(a.title, authors, a.pubDate, doi, Citation(authors, a.pubDate, a.title, doi))
  }

  predicate NoComma(names: seq<string>) {
    forall i | 0 <= i < |names| :: ',' !in names[i]
  }

  lemma {:induction false} SplitSingle(a: string)
    requires ',' !in a
    ensures SplitAuthors(a) == [a]
  {
    if a != [] {
      SplitSingle(a[1..]);
      assert [a[0]] + a[1..] == a;
    }
  }

  lemma {:induction false} SplitFirst(a: string, b: string)
    requires ',' !in a
    ensures SplitAuthors(a + AuthorSeparator + b) == [a] + SplitAuthors(b)
  {
    var s := a + AuthorSeparator + b;
    if a == [] {
      assert s[2..] == b;
    } else {
      assert s[1..] == a[1..] + AuthorSeparator + b;
      SplitFirst(a[1..], b);
      assert [a[0]] + a[1..] == a;
    }
  }

  /** The Authors column reads back as the author list, in listed order, as
      long as no name holds a comma and the list is not empty. */
  lemma {:induction false} AuthorsRoundTrip(names: seq<string>)
    requires |names| > 0 && NoComma(names)
    ensures SplitAuthors(Join(names, AuthorSeparator)) == names
  {
    if |names| == 1 {
      SplitSingle(names[0]);
    } else {
      SplitFirst(names[0], Join(names[1..], AuthorSeparator));
      AuthorsRoundTrip(names[1..]);
      assert [names[0]] + names[1..] == names;
    }
  }

  /** The Authors column of a row reads back as the article's author list, in
      listed order, for a non-empty list of comma-free names. */
  lemma RecordAuthorsRoundTrip(a: Article)
    requires |a.authors| > 0 && NoComma(a.authors)
    ensures SplitAuthors(ToRecord(a).authors) == a.authors
  {
    AuthorsRoundTrip(a.authors);
  }

  /** An article without authors gets an empty Authors column. */
  lemma NoAuthors(a: Article)
    requires a.authors == []
    ensures ToRecord(a).authors == ""
    ensures ToRecord(a).citation == " (" + a.pubDate + "). " + a.title + ". DOI: " + ToRecord(a).doi
  {
  }

  /** Without an `ELocationID` the citation ends with `"DOI: N/A"`; with one it
      ends with that text, unchanged. */
  lemma {:induction false} CitationEndsWithDoi(a: Article)
    ensures var c := ToRecord(a).citation;
      && |c| >= |". DOI: " + ToRecord(a).doi|
      && c[|c| - |". DOI: " + ToRecord(a).doi|..] == ". DOI: " + ToRecord(a).doi
    ensures a.eloc.None? ==> var c := ToRecord(a).citation; c[|c| - 8..] == "DOI: N/A"
    ensures a.eloc.Some? ==> var c := ToRecord(a).citation; c[|c| - |a.eloc.value|..] == a.eloc.value
  {
    var r := ToRecord(a);
    var head := r.authors + " (" + r.pubDate + "). " + r.title;
    assert r.citation == head + (". DOI: " + r.doi);
  }

  lemma JoinPair(x: string, y: string)
    ensures Join([x, y], AuthorSeparator) == x + AuthorSeparator + y
  {
    assert [x, y][1..] == [y];
  }

  lemma ExampleAuthors()
    ensures Join(["Silva J", "Souza A"], AuthorSeparator) == "Silva J, Souza A"
  {
    JoinPair("Silva J", "Souza A");
  }

  /** The worked case of the citation format. */
  lemma ExampleCitation()
    ensures ToRecord(Article("Memory Study", ["Silva J", "Souza A"], "2021 Jan", Some("10.1/xyz"))).citation
         == "Silva J, Souza A (2021 Jan). Memory Study. DOI: 10.1/xyz"
  {
    ExampleAuthors();
    assert Citation("Silva J, Souza A", "2021 Jan", "Memory Study", "10.1/xyz")
        == "Silva J, Souza A (2021 Jan). Memory Study. DOI: 10.1/xyz";
  }

  /** One row per article, in document order. */
  function RecordsOf(page: seq<Article>): (rs: seq<Record>)
    ensures |rs| == |page|
    ensures forall j | 0 <= j < |page| :: rs[j] == ToRecord(page[j])
  {
    if page == [] then [] else [ToRecord(page[0])] + RecordsOf(page[1..])
  }

  /** The inner loop of a page: appends one row per article to the rows so
      far, leaving the earlier rows as they were. */
  method AppendPage(acc: seq<Record>, page: seq<Article>) returns (all: seq<Record>)
    ensures all == acc + RecordsOf(page)
  {
    all := acc;
    var j := 0;
    while j < |page|
      invariant 0 <= j <= |page|
      invariant |all| == |acc| + j
      invariant all[..|acc|] == acc
      invariant forall i | 0 <= i < j :: all[|acc| + i] == ToRecord(page[i])
    {
      all := all + [ToRecord(page[j])];
      j := j + 1;
    }
  }
}
