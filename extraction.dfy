/**
 * The deterministic parts of ScraperClass.py: the status check of
 * fetch_html, the link list of extract_news_links, the field normalisation
 * and body assembly of extracting_information_html, the scratch-file name
 * built in run, and the table handed to the CSV writer by save_in_csv.
 */
module Extraction {
  import opened Wrappers
  import opened Text
  import opened Files
  import opened Environment

  /** The failures that end a run, one per exception the model lets the code raise. */
  datatype Error =
    | LimitExceeded             // "Only a maximum of 18."
    | FetchFailed(status: int)  // "Error getting the page: <status>"
    | MissingPromoList          // soup.find(...) is None, so .find_all fails
    | MissingAnchor             // item.find('a') is None, so ['href'] fails
    | MissingHref               // the anchor has no href attribute
    | FileNotFound(path: string) // open(path, 'w') into a folder that does not exist

  const MaxLinksCeiling: int := 18
  const TitleDefault: string := "Title not founf."
  const AuthorDefault: string := "Author not found."
  const ScratchFolder: string := "news"
  const CsvFileName: string := "News_data.csv"
  const Header: seq<string> := ["Title", "Author", "Text"]

  function Min(a: int, b: int): int {
    if a <= b then a else b
  }

  // ---------------------------------------------------------------- fetch_html

  /** fetch_html for one URL: the prettified body on status 200, and a failure carrying any other status. */
  function FetchPage(web: Web, url: string): (r: Result<string, Error>)
    ensures r.Success? <==> web.get(url).status == 200
    ensures r.Failure? ==> r.error == FetchFailed(web.get(url).status)
    ensures r.Success? ==> r.value == web.prettify(web.get(url).text)
  {
    var response := web.get(url);
    if response.status == 200 then Success(web.prettify(response.text))
    else Failure(FetchFailed(response.status))
  }

  /** Success codes other than 200 are failures too. */
  lemma OtherSuccessCodesFail(web: Web, url: string)
    requires 200 < web.get(url).status < 300
    ensures FetchPage(web, url) == Failure(FetchFailed(web.get(url).status))
  {
  }

  // -------------------------------------------------------- extract_news_links

  predicate HasHref(item: LinkItem) {
    item.anchor.Some? && item.anchor.value.href.Some?
  }

  function HrefOf(item: LinkItem): string
    requires HasHref(item)
  {
    item.anchor.value.href.value
  }

  /** The exception item.find('a')['href'] raises on an item without an href. */
  function ItemError(item: LinkItem): Error
    requires !HasHref(item)
  {
    if item.anchor.None? then MissingAnchor else MissingHref
  }

  /** The position of the first item that has no href, or |items| when every item has one. */
  function FirstWithoutHref(items: seq<LinkItem>): (k: nat)
    ensures k <= |items|
    ensures forall j :: 0 <= j < k ==> HasHref(items[j])
    ensures k < |items| ==> !HasHref(items[k])
  {
    if items == [] || !HasHref(items[0]) then 0 else 1 + FirstWithoutHref(items[1..])
  }

  /** The characterisation of FirstWithoutHref has one solution. */
  lemma {:induction false} FirstWithoutHrefUnique(items: seq<LinkItem>, k: nat)
    requires k <= |items|
    requires forall j :: 0 <= j < k ==> HasHref(items[j])
    requires k < |items| ==> !HasHref(items[k])
    ensures FirstWithoutHref(items) == k
  {
    if k > 0 {
      assert forall j :: 0 <= j < k - 1 ==> items[1..][j] == items[j + 1];
      FirstWithoutHrefUnique(items[1..], k - 1);
    }
  }

  /** [item.find('a')['href'] for item in items]: evaluated left to right, so the first bad item decides the failure. */
  function Hrefs(items: seq<LinkItem>): (r: Result<seq<string>, Error>)
    ensures r.Success? <==> FirstWithoutHref(items) == |items|
    ensures r.Success? ==>
      (|r.value| == |items| &&
       forall j :: 0 <= j < |items| ==> HasHref(items[j]) && r.value[j] == HrefOf(items[j]))
    ensures r.Failure? ==>
      (FirstWithoutHref(items) < |items| && r.error == ItemError(items[FirstWithoutHref(items)]))
  {
    if items == [] then Success([])
    else if !HasHref(items[0]) then Failure(ItemError(items[0]))
    else match Hrefs(items[1..])
      case Failure(e) => Failure(e)
      case Success(rest) => Success([HrefOf(items[0])] + rest)
  }

  /**
   * extract_news_links over the selector result: at most maxLinks items in
   * document order, one href each; a missing list, anchor or href fails.
   */
  function ExtractNewsLinks(promos: Option<seq<LinkItem>>, maxLinks: int): (r: Result<seq<string>, Error>)
    requires 1 <= maxLinks
    ensures promos.None? ==> r == Failure(MissingPromoList)
    ensures promos.Some? ==>
      var taken := Min(|promos.value|, maxLinks);
      var bad := FirstWithoutHref(promos.value);
      && (r.Success? <==> taken <= bad)
      && (r.Success? ==>
            (|r.value| == taken &&
             forall j :: 0 <= j < taken ==> HasHref(promos.value[j]) && r.value[j] == HrefOf(promos.value[j])))
      && (r.Failure? ==> bad < taken && r.error == ItemError(promos.value[bad]))
  {
    match promos
    case None => Failure(MissingPromoList)
    case Some(items) =>
      var taken := Min(|items|, maxLinks);
      var prefix := items[..taken];
      FirstWithoutHrefUnique(prefix, Min(FirstWithoutHref(items), taken));
      Hrefs(prefix)
  }

  /** Items after the first maxLinks are never looked at. */
  lemma ExtractNewsLinksIgnoresRest(items: seq<LinkItem>, more: seq<LinkItem>, maxLinks: int)
    requires 1 <= maxLinks <= |items|
    ensures ExtractNewsLinks(Some(items + more), maxLinks) == ExtractNewsLinks(Some(items), maxLinks)
  {
    assert (items + more)[..maxLinks] == items[..maxLinks];
  }

  // ----------------------------------------------- extracting_information_html

  /**
   * get_text().replace('\n', ' ').strip(), as applied to the title and to each
   * body element: the newline-free text stripped, trimmed and cut only at whitespace.
   */
  function CollapseLines(t: string): (r: string)
    ensures '\n' !in r && Trimmed(r)
    ensures IsStripOf(r, Replace(t, '\n', ' '))
  {
    Strip(Replace(t, '\n', ' '))
  }

  /** The title field: the collapsed heading text, or the default when there is no heading. */
  function TitleText(element: Option<string>): (r: string)
    ensures '\n' !in r && Trimmed(r)
    ensures element.None? ==> r == TitleDefault
    ensures element.Some? ==> IsStripOf(r, Replace(element.value, '\n', ' '))
  {
    match element
    case None => TitleDefault
    case Some(t) => CollapseLines(t)
  }

  /** The author field: the byline text with every '\n' deleted and then stripped, or the default. */
  function AuthorText(element: Option<string>): (r: string)
    ensures '\n' !in r && Trimmed(r)
    ensures element.None? ==> r == AuthorDefault
    ensures element.Some? ==> IsStripOf(r, Delete(element.value, '\n'))
  {
    match element
    case None => AuthorDefault
    case Some(t) => Strip(Delete(t, '\n'))
  }

  /** Each body element's collapsed text, in document order. */
  function CollapsedTexts(elements: seq<string>): (r: seq<string>)
    ensures |r| == |elements|
    ensures forall j :: 0 <= j < |elements| ==> r[j] == CollapseLines(elements[j]) && '\n' !in r[j]
  {
    seq(|elements|, j requires 0 <= j < |elements| => CollapseLines(elements[j]))
  }

  /** "\n" + piece for every piece, concatenated in order. */
  function JoinLines(pieces: seq<string>): string
  {
    if pieces == [] then ""
    else JoinLines(pieces[..|pieces| - 1]) + "\n" + pieces[|pieces| - 1]
  }

  /** total_text after the loop over the body elements. */
  function TotalText(elements: seq<string>): string {
    JoinLines(CollapsedTexts(elements))
  }

  /** One more element adds "\n" and its collapsed text at the end: the loop step. */
  lemma TotalTextStep(elements: seq<string>, i: nat)
    requires i < |elements|
    ensures TotalText(elements[..i + 1]) == TotalText(elements[..i]) + "\n" + CollapseLines(elements[i])
  {
    var pieces := CollapsedTexts(elements[..i + 1]);
    assert pieces[..|pieces| - 1] == CollapsedTexts(elements[..i]);
  }

  /** Joining is a homomorphism: the body of a + b is the body of a followed by the body of b. */
  lemma {:induction false} JoinLinesAppend(a: seq<string>, b: seq<string>)
    ensures JoinLines(a + b) == JoinLines(a) + JoinLines(b)
    decreases |b|
  {
    if b == [] {
      assert a + b == a;
    } else {
      var b' := b[..|b| - 1];
      var ab := a + b;
      assert ab[..|ab| - 1] == a + b' && ab[|ab| - 1] == b[|b| - 1];
      JoinLinesAppend(a, b');
    }
  }

  /** The body of a + b is the body of a followed by the body of b. */
  lemma TotalTextAppend(a: seq<string>, b: seq<string>)
    ensures TotalText(a + b) == TotalText(a) + TotalText(b)
  {
    var ca, cb, cab := CollapsedTexts(a), CollapsedTexts(b), CollapsedTexts(a + b);
    assert forall j :: 0 <= j < |cab| ==> cab[j] == (ca + cb)[j] by {
      assert forall j :: 0 <= j < |a + b| ==> (a + b)[j] == if j < |a| then a[j] else b[j - |a|];
    }
    assert cab == ca + cb;
    JoinLinesAppend(ca, cb);
  }

  /** The body is empty exactly when no element matched. */
  lemma TotalTextEmpty(elements: seq<string>)
    ensures TotalText(elements) == "" <==> elements == []
  {
    var pieces := CollapsedTexts(elements);
    if pieces != [] {
      assert |JoinLines(pieces)| > 0;
    }
  }

  lemma {:induction false} JoinLinesNewlines(pieces: seq<string>)
    requires forall j :: 0 <= j < |pieces| ==> '\n' !in pieces[j]
    ensures Count(JoinLines(pieces), '\n') == |pieces|
    decreases |pieces|
  {
    if pieces != [] {
      var init, piece := pieces[..|pieces| - 1], pieces[|pieces| - 1];
      JoinLinesNewlines(init);
      CountAppend(JoinLines(init), "\n" + piece, '\n');
      CountAppend("\n", piece, '\n');
      assert JoinLines(init) + "\n" + piece == JoinLines(init) + ("\n" + piece);
    }
  }

  /** The body holds exactly one '\n' per element. */
  lemma TotalTextNewlines(elements: seq<string>)
    ensures Count(TotalText(elements), '\n') == |elements|
  {
    JoinLinesNewlines(CollapsedTexts(elements));
  }

  lemma {:induction false} JoinLinesSplit(pieces: seq<string>)
    requires forall j :: 0 <= j < |pieces| ==> '\n' !in pieces[j]
    ensures Split(JoinLines(pieces), '\n') == [""] + pieces
    decreases |pieces|
  {
    if pieces != [] {
      var init, piece := pieces[..|pieces| - 1], pieces[|pieces| - 1];
      JoinLinesSplit(init);
      SplitAppend(JoinLines(init), piece, '\n');
      assert JoinLines(init) + "\n" + piece == JoinLines(init) + ['\n'] + piece;
      assert [""] + init + [piece] == [""] + pieces;
    }
  }

  /** Splitting the join at '\n' gives back each piece, one position further on. */
  lemma JoinLinesPieces(pieces: seq<string>)
    requires forall j :: 0 <= j < |pieces| ==> '\n' !in pieces[j]
    ensures var parts := Split(JoinLines(pieces), '\n');
      |parts| == |pieces| + 1 && parts[0] == "" &&
      forall j :: 0 <= j < |pieces| ==> parts[j + 1] == pieces[j]
  {
    JoinLinesSplit(pieces);
    var parts := [""] + pieces;
    assert forall j :: 0 <= j < |pieces| ==> parts[j + 1] == pieces[j];
  }

  /** Splitting the body at '\n' gives an empty leading piece, then each element's collapsed text in order. */
  lemma TotalTextSplit(elements: seq<string>)
    ensures var parts := Split(TotalText(elements), '\n');
      |parts| == |elements| + 1 && parts[0] == "" &&
      forall j :: 0 <= j < |elements| ==> parts[j + 1] == CollapseLines(elements[j])
  {
    JoinLinesPieces(CollapsedTexts(elements));
  }

  /** What extracting_information_html returns for a page that was read. */
  datatype ArticleRecord = ArticleRecord(title: string, author: string, text: string)

  function ArticleFields(page: ArticlePage): ArticleRecord {
    ArticleRecord(TitleText(page.title), AuthorText(page.author), TotalText(page.texts))
  }

  /** The CSV row run builds from a record: [title, author, total_text]. */
  function RecordRow(record: ArticleRecord): seq<string> {
    [record.title, record.author, record.text]
  }

  // ------------------------------------------------------------ scratch files

  /** "news/" + link.replace("/", "") + ".html" */
  function ScratchPath(link: string): string {
    ScratchFolder + "/" + Delete(link, '/') + ".html"
  }

  /** The scratch file sits directly in the scratch folder, named by the link with its '/' removed. */
  lemma ScratchPathShape(link: string)
    ensures var p := ScratchPath(link);
      && |p| == |link| - Count(link, '/') + 10
      && p[..5] == ScratchFolder + "/" && p[|p| - 5..] == ".html"
      && p[5..|p| - 5] == Delete(link, '/') && '/' !in p[5..|p| - 5]
      && DirName(p) == ScratchFolder && IsUnder(p, ScratchFolder)
  {
    var p := ScratchPath(link);
    assert p == ScratchFolder + "/" + (Delete(link, '/') + ".html");
    DirNameOfChild(ScratchFolder, Delete(link, '/') + ".html");
  }

  /** The folder of a scratch file is the scratch folder. */
  lemma ScratchPathFolder(link: string)
    ensures DirName(ScratchPath(link)) == ScratchFolder
  {
    ScratchPathShape(link);
  }

  /** Two links share a scratch file exactly when they agree once their '/' are removed. */
  lemma ScratchPathCollides(a: string, b: string)
    ensures ScratchPath(a) == ScratchPath(b) <==> Delete(a, '/') == Delete(b, '/')
  {
    ScratchPathShape(a);
    ScratchPathShape(b);
  }

  /** A link without '/' keeps its whole text in the file name. */
  lemma ScratchPathPlainLink(link: string)
    requires '/' !in link
    ensures var p := ScratchPath(link); p[5..|p| - 5] == link
  {
    ScratchPathShape(link);
    DeleteAbsent(link, '/');
  }

  // --------------------------------------------------------------- save_in_csv

  /** The rows save_in_csv writes: the header, then every record in the given order. */
  function CsvTable(rows: seq<seq<string>>): (t: seq<seq<string>>)
    ensures |t| == |rows| + 1
    ensures t[0] == Header
    ensures forall j :: 0 <= j < |rows| ==> t[j + 1] == rows[j]
  {
    [Header] + rows
  }
}
