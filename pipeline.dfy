/**
 * A pure specification of Scraper.run: the state the working directory and
 * the scraper's url are left in, and the failure, if any, that ends the run.
 */
module Pipeline {
  import opened Wrappers
  import opened Files
  import opened Environment
  import opened Extraction

  /** The row run appends for an article page it saved and read back. */
  function ArticleRow(web: Web, html: string): seq<string> {
    RecordRow(ArticleFields(web.articleParts(html)))
  }

  /** datos_para_csv for the article pages read so far, in order. */
  function Rows(web: Web, pages: seq<string>): (rows: seq<seq<string>>)
    ensures |rows| == |pages|
    ensures forall j :: 0 <= j < |pages| ==> rows[j] == ArticleRow(web, pages[j])
  {
    seq(|pages|, j requires 0 <= j < |pages| => ArticleRow(web, pages[j]))
  }

  /** One more page read adds its row at the end. */
  lemma RowsSnoc(web: Web, pages: seq<string>, html: string)
    ensures Rows(web, pages + [html]) == Rows(web, pages) + [ArticleRow(web, html)]
  {
    var a, b := Rows(web, pages + [html]), Rows(web, pages) + [ArticleRow(web, html)];
    forall j | 0 <= j < |a| ensures a[j] == b[j] {
      assert (pages + [html])[j] == if j < |pages| then pages[j] else html;
    }
  }

  /**
   * The state of the loop over the links in run: self.url, the article pages
   * fetched and read back so far (datos_para_csv is their Rows), and the
   * failure that stopped the loop.
   */
  datatype Progress = Progress(url: string, pages: seq<string>, failure: Option<Error>)

  /** One pass of the loop body: move to the link, fetch it, and keep the page it saves and reads back. */
  function Visit(web: Web, p: Progress, link: string): Progress {
    if p.failure.Some? then p
    else match FetchPage(web, link)
      case Failure(e) => p.(url := link, failure := Some(e))
      case Success(html) => p.(url := link, pages := p.pages + [html])
  }

  /** The loop over links, in order. */
  function VisitAll(web: Web, p: Progress, links: seq<string>): (q: Progress)
    ensures |q.pages| <= |p.pages| + |links|
    decreases |links|
  {
    if links == [] then p else Visit(web, VisitAll(web, p, links[..|links| - 1]), links[|links| - 1])
  }

  /** The text files after the i-th page is saved under the scratch path of the i-th link, for every page in turn. */
  function Saved(files: map<string, string>, links: seq<string>, pages: seq<string>): map<string, string>
    requires |pages| <= |links|
    decreases |pages|
  {
    if pages == [] then files
    else Saved(files, links, pages[..|pages| - 1])[ScratchPath(links[|pages| - 1]) := pages[|pages| - 1]]
  }

  /** The scratch paths of the given links. */
  function ScratchPaths(links: seq<string>): set<string>
    decreases |links|
  {
    if links == [] then {} else ScratchPaths(links[..|links| - 1]) + {ScratchPath(links[|links| - 1])}
  }

  lemma {:induction false} ScratchPathsMembers(links: seq<string>)
    ensures forall j :: 0 <= j < |links| ==> ScratchPath(links[j]) in ScratchPaths(links)
    ensures forall path :: path in ScratchPaths(links) ==> IsUnder(path, ScratchFolder)
    decreases |links|
  {
    if links != [] {
      var init := links[..|links| - 1];
      ScratchPathsMembers(init);
      assert forall j :: 0 <= j < |init| ==> init[j] == links[j];
    }
  }

  /** Saving adds exactly the scratch paths of the links saved. */
  lemma {:induction false} SavedKeys(files: map<string, string>, links: seq<string>, pages: seq<string>)
    requires |pages| <= |links|
    ensures Saved(files, links, pages).Keys == files.Keys + ScratchPaths(links[..|pages|])
    decreases |pages|
  {
    if pages != [] {
      var n := |pages|;
      SavedKeys(files, links, pages[..n - 1]);
      assert links[..n][..n - 1] == links[..n - 1];
    }
  }

  /** Each scratch file holds the page of the last link saved under it. */
  lemma {:induction false} SavedLatest(files: map<string, string>, links: seq<string>, pages: seq<string>, j: nat)
    requires |pages| <= |links| && j < |pages|
    requires forall i :: j < i < |pages| ==> ScratchPath(links[i]) != ScratchPath(links[j])
    ensures ScratchPath(links[j]) in Saved(files, links, pages)
    ensures Saved(files, links, pages)[ScratchPath(links[j])] == pages[j]
    decreases |pages|
  {
    var n := |pages|;
    if j < n - 1 {
      SavedLatest(files, links, pages[..n - 1], j);
    }
  }

  /** Files outside the saved scratch paths keep their contents. */
  lemma {:induction false} SavedOthers(files: map<string, string>, links: seq<string>, pages: seq<string>, path: string)
    requires |pages| <= |links| && path in files
    requires forall i :: 0 <= i < |pages| ==> ScratchPath(links[i]) != path
    ensures path in Saved(files, links, pages) && Saved(files, links, pages)[path] == files[path]
    decreases |pages|
  {
    if pages != [] {
      SavedOthers(files, links, pages[..|pages| - 1], path);
    }
  }

  /** Removing the scratch folder takes every saved scratch file with it. */
  lemma {:induction false} SavedRemoved(files: map<string, string>, links: seq<string>, pages: seq<string>)
    requires |pages| <= |links|
    ensures RemoveFiles(Saved(files, links, pages), ScratchFolder) == RemoveFiles(files, ScratchFolder)
    decreases |pages|
  {
    if pages != [] {
      var n := |pages|;
      SavedRemoved(files, links, pages[..n - 1]);
      ScratchPathShape(links[n - 1]);
      RemoveFilesWritten(Saved(files, links, pages[..n - 1]), ScratchFolder, ScratchPath(links[n - 1]), pages[n - 1]);
    }
  }

  /** No link after the j-th among the first k is saved under the j-th link's scratch path. */
  predicate LastSavedAt(links: seq<string>, j: nat, k: nat)
    requires j < k <= |links|
  {
    forall i :: j < i < k ==> ScratchPath(links[i]) != ScratchPath(links[j])
  }

  /**
   * After saving the pages fetched for the first k links, each scratch file
   * holds the page of the last of those links saved under it, and every
   * other file keeps its contents.
   */
  lemma SavedContents(web: Web, files: map<string, string>, links: seq<string>, pages: seq<string>)
    requires |pages| <= |links|
    requires forall j :: 0 <= j < |pages| ==> FetchPage(web, links[j]).Success? && pages[j] == FetchPage(web, links[j]).value
    ensures var s, k := Saved(files, links, pages), |pages|;
      && (forall j :: 0 <= j < k && LastSavedAt(links, j, k) ==>
            ScratchPath(links[j]) in s && s[ScratchPath(links[j])] == FetchPage(web, links[j]).value)
      && (forall path :: path in files && path !in ScratchPaths(links[..k]) ==> path in s && s[path] == files[path])
  {
    var k := |pages|;
    forall j | 0 <= j < k && LastSavedAt(links, j, k)
      ensures ScratchPath(links[j]) in Saved(files, links, pages)
      ensures Saved(files, links, pages)[ScratchPath(links[j])] == FetchPage(web, links[j]).value
    {
      SavedLatest(files, links, pages, j);
    }
    ScratchPathsMembers(links[..k]);
    forall path | path in files && path !in ScratchPaths(links[..k])
      ensures path in Saved(files, links, pages) && Saved(files, links, pages)[path] == files[path]
    {
      assert forall i :: 0 <= i < k ==> links[..k][i] == links[i];
      SavedOthers(files, links, pages, path);
    }
  }

  /** The position of the first link whose fetch fails, or |links| when none does. */
  function FirstFailed(web: Web, links: seq<string>): (k: nat)
    ensures k <= |links|
    ensures forall j :: 0 <= j < k ==> FetchPage(web, links[j]).Success?
    ensures k < |links| ==> FetchPage(web, links[k]).Failure?
  {
    if links == [] || FetchPage(web, links[0]).Failure? then 0 else 1 + FirstFailed(web, links[1..])
  }

  lemma {:induction false} FirstFailedUnique(web: Web, links: seq<string>, k: nat)
    requires k <= |links|
    requires forall j :: 0 <= j < k ==> FetchPage(web, links[j]).Success?
    requires k < |links| ==> FetchPage(web, links[k]).Failure?
    ensures FirstFailed(web, links) == k
  {
    if k > 0 {
      assert forall j :: 0 <= j < k - 1 ==> links[1..][j] == links[j + 1];
      FirstFailedUnique(web, links[1..], k - 1);
    }
  }

  /** Once the loop has stopped on a failure, later links change nothing. */
  lemma {:induction false} VisitAllStops(web: Web, p: Progress, links: seq<string>, m: nat)
    requires m <= |links| && VisitAll(web, p, links[..m]).failure.Some?
    ensures VisitAll(web, p, links) == VisitAll(web, p, links[..m])
    decreases |links|
  {
    if m < |links| {
      var init := links[..|links| - 1];
      assert init[..m] == links[..m];
      VisitAllStops(web, p, init, m);
    } else {
      assert links[..m] == links;
    }
  }

  /** The loop fails exactly when some fetch fails, and then with the first such failure. */
  lemma {:induction false} VisitAllFailure(web: Web, p: Progress, links: seq<string>)
    requires p.failure.None?
    ensures var q, k := VisitAll(web, p, links), FirstFailed(web, links);
      && (q.failure.None? <==> k == |links|)
      && (k < |links| ==> q.failure == Some(FetchPage(web, links[k]).error))
    decreases |links|
  {
    if links != [] {
      var n := |links|;
      var init := links[..n - 1];
      VisitAllFailure(web, p, init);
      var k0 := FirstFailed(web, init);
      assert forall j :: 0 <= j < n - 1 ==> init[j] == links[j];
      if k0 < n - 1 {
        FirstFailedUnique(web, links, k0);
      } else if FetchPage(web, links[n - 1]).Failure? {
        FirstFailedUnique(web, links, n - 1);
      } else {
        FirstFailedUnique(web, links, n);
      }
    }
  }

  /** Until the first failing fetch, the loop reads one page per link, in link order, the page fetched for that link. */
  lemma {:induction false} VisitAllPages(web: Web, p: Progress, links: seq<string>)
    requires p.failure.None?
    ensures var q, k := VisitAll(web, p, links), FirstFailed(web, links);
      && |q.pages| == |p.pages| + k && q.pages[..|p.pages|] == p.pages
      && (forall j :: 0 <= j < k ==>
            FetchPage(web, links[j]).Success? && q.pages[|p.pages| + j] == FetchPage(web, links[j]).value)
    decreases |links|
  {
    if links != [] {
      var n := |links|;
      var init := links[..n - 1];
      VisitAllPages(web, p, init);
      VisitAllFailure(web, p, init);
      var k0 := FirstFailed(web, init);
      assert forall j :: 0 <= j < n - 1 ==> init[j] == links[j];
      if k0 < n - 1 {
        FirstFailedUnique(web, links, k0);
      } else if FetchPage(web, links[n - 1]).Failure? {
        FirstFailedUnique(web, links, n - 1);
      } else {
        FirstFailedUnique(web, links, n);
      }
    }
  }

  /** self.url ends on the failing link, or else on the last link; with no links it is unchanged. */
  lemma {:induction false} VisitAllUrl(web: Web, p: Progress, links: seq<string>)
    requires p.failure.None?
    ensures var q, k := VisitAll(web, p, links), FirstFailed(web, links);
      q.url == (if links == [] then p.url else if k < |links| then links[k] else links[|links| - 1])
    decreases |links|
  {
    if links != [] {
      var n := |links|;
      var init := links[..n - 1];
      VisitAllUrl(web, p, init);
      VisitAllFailure(web, p, init);
      var k0 := FirstFailed(web, init);
      assert forall j :: 0 <= j < n - 1 ==> init[j] == links[j];
      if k0 < n - 1 {
        FirstFailedUnique(web, links, k0);
      } else if FetchPage(web, links[n - 1]).Failure? {
        FirstFailedUnique(web, links, n - 1);
      } else {
        FirstFailedUnique(web, links, n);
      }
    }
  }

  /** The scraper's url and the working directory: its folders, its text files, and the CSV tables written. */
  datatype World = World(url: string, folders: set<string>, files: map<string, string>, tables: map<string, seq<seq<string>>>)

  datatype RunEnd = RunEnd(world: World, outcome: Outcome<Error>)

  /** fetch_html on the seed url, then extract_news_links on the page. */
  function IndexLinks(web: Web, url: string, maxLinks: int): Result<seq<string>, Error>
    requires 1 <= maxLinks
  {
    match FetchPage(web, url)
    case Failure(e) => Failure(e)
    case Success(html) => ExtractNewsLinks(web.promoItems(html), maxLinks)
  }

  /**
   * run(max_links): the ceiling check, the index page and its links, the
   * scratch folder, the loop over the links, the CSV table, and the removal
   * of the scratch folder. A failure ends the run where it happens.
   */
  function RunSpec(w: World, maxLinks: int, web: Web): RunEnd
    requires 1 <= maxLinks
  {
    if maxLinks > MaxLinksCeiling then RunEnd(w, Fail(LimitExceeded))
    else match IndexLinks(web, w.url, maxLinks)
      case Failure(e) => RunEnd(w, Fail(e))
      case Success(links) =>
        var folders := w.folders + {ScratchFolder};
        var q := VisitAll(web, Progress(w.url, [], None), links);
        var files := Saved(w.files, links, q.pages);
        if q.failure.Some? then RunEnd(World(q.url, folders, files, w.tables), Fail(q.failure.value))
        else RunEnd(World(q.url, RemoveFolders(folders, ScratchFolder), RemoveFiles(files, ScratchFolder),
                          w.tables[CsvFileName := CsvTable(Rows(web, q.pages))]), Pass)
  }

  /** One pass of run's loop over a link whose fetch succeeds: the url moves on, and the page is saved and read. */
  lemma RunStep(web: Web, p0: Progress, files: map<string, string>, links: seq<string>, i: nat, url: string, pages: seq<string>)
    requires i < |links| && |pages| == i && FetchPage(web, links[i]).Success?
    requires VisitAll(web, p0, links[..i]) == Progress(url, pages, None)
    ensures var html := FetchPage(web, links[i]).value;
      && VisitAll(web, p0, links[..i + 1]) == Progress(links[i], pages + [html], None)
      && Saved(files, links, pages + [html]) == Saved(files, links, pages)[ScratchPath(links[i]) := html]
      && Rows(web, pages + [html]) == Rows(web, pages) + [ArticleRow(web, html)]
  {
    var html := FetchPage(web, links[i]).value;
    assert links[..i + 1][..i] == links[..i];
    assert (pages + [html])[..i] == pages;
    RowsSnoc(web, pages, html);
  }

  /** The loop stopped at the failing fetch of links[i]: RunSpec is the state reached there, with that failure. */
  lemma RunStopsAt(w: World, maxLinks: int, web: Web, i: nat, pages: seq<string>)
    requires 1 <= maxLinks <= MaxLinksCeiling && IndexLinks(web, w.url, maxLinks).Success?
    requires var links := IndexLinks(web, w.url, maxLinks).value;
      && i < |links| && FetchPage(web, links[i]).Failure?
      && VisitAll(web, Progress(w.url, [], None), links[..i]).failure.None?
      && VisitAll(web, Progress(w.url, [], None), links[..i]).pages == pages
    ensures var links := IndexLinks(web, w.url, maxLinks).value;
      RunSpec(w, maxLinks, web) ==
        RunEnd(World(links[i], w.folders + {ScratchFolder}, Saved(w.files, links, pages), w.tables),
               Fail(FetchPage(web, links[i]).error))
  {
    var links := IndexLinks(web, w.url, maxLinks).value;
    var p := Progress(w.url, [], None);
    assert links[..i + 1] == links[..i] + [links[i]];
    VisitAllStops(web, p, links, i + 1);
    assert links[..|links|] == links;
  }

  /** The loop went through every link: RunSpec writes the table of the pages read and removes the scratch folder. */
  lemma RunCompletes(w: World, maxLinks: int, web: Web, url: string, pages: seq<string>)
    requires 1 <= maxLinks <= MaxLinksCeiling && IndexLinks(web, w.url, maxLinks).Success?
    requires VisitAll(web, Progress(w.url, [], None), IndexLinks(web, w.url, maxLinks).value) == Progress(url, pages, None)
    ensures var links := IndexLinks(web, w.url, maxLinks).value;
      RunSpec(w, maxLinks, web) ==
        RunEnd(World(url, RemoveFolders(w.folders + {ScratchFolder}, ScratchFolder),
                     RemoveFiles(Saved(w.files, links, pages), ScratchFolder),
                     w.tables[CsvFileName := CsvTable(Rows(web, pages))]),
               Pass)
  {
  }

  /** Above the ceiling, run fails before it fetches, creates or writes anything. */
  lemma RunOverCeiling(w: World, maxLinks: int, web: Web)
    requires maxLinks > MaxLinksCeiling
    ensures RunSpec(w, maxLinks, web) == RunEnd(w, Fail(LimitExceeded))
  {
  }

  /** A failure on the index page or its links leaves everything as it was. */
  lemma RunIndexFailure(w: World, maxLinks: int, web: Web)
    requires 1 <= maxLinks <= MaxLinksCeiling && IndexLinks(web, w.url, maxLinks).Failure?
    ensures RunSpec(w, maxLinks, web) == RunEnd(w, Fail(IndexLinks(web, w.url, maxLinks).error))
  {
  }

  /** run succeeds exactly when the ceiling holds, the index yields its links, and every article fetch succeeds. */
  lemma RunSucceedsIff(w: World, maxLinks: int, web: Web)
    requires 1 <= maxLinks
    ensures RunSpec(w, maxLinks, web).outcome.Pass? <==>
      maxLinks <= MaxLinksCeiling && IndexLinks(web, w.url, maxLinks).Success? &&
      FirstFailed(web, IndexLinks(web, w.url, maxLinks).value) == |IndexLinks(web, w.url, maxLinks).value|
  {
    if maxLinks <= MaxLinksCeiling && IndexLinks(web, w.url, maxLinks).Success? {
      VisitAllFailure(web, Progress(w.url, [], None), IndexLinks(web, w.url, maxLinks).value);
    }
  }

  /** The table written for pages fetched one per link holds, after the header, each link's row in link order. */
  lemma TableOfPages(web: Web, links: seq<string>, pages: seq<string>)
    requires |pages| == |links|
    requires forall j :: 0 <= j < |links| ==> FetchPage(web, links[j]).Success? && pages[j] == FetchPage(web, links[j]).value
    ensures var table := CsvTable(Rows(web, pages));
      && |table| == |links| + 1 && table[0] == Header
      && (forall j :: 0 <= j < |links| ==> table[j + 1] == ArticleRow(web, FetchPage(web, links[j]).value))
  {
    var rows := Rows(web, pages);
    forall j | 0 <= j < |links|
      ensures CsvTable(rows)[j + 1] == ArticleRow(web, FetchPage(web, links[j]).value)
    {
      assert CsvTable(rows)[j + 1] == rows[j] == ArticleRow(web, pages[j]);
    }
  }

  /** A successful run got past the ceiling and the index page, leaves self.url on the last link, and touches no other table. */
  lemma RunSuccess(w: World, maxLinks: int, web: Web)
    requires 1 <= maxLinks
    requires RunSpec(w, maxLinks, web).outcome.Pass?
    ensures maxLinks <= MaxLinksCeiling && IndexLinks(web, w.url, maxLinks).Success?
    ensures var links, w' := IndexLinks(web, w.url, maxLinks).value, RunSpec(w, maxLinks, web).world;
      && CsvFileName in w'.tables
      && w'.url == (if links == [] then w.url else links[|links| - 1])
      && (forall name :: name in w.tables && name != CsvFileName ==> name in w'.tables && w'.tables[name] == w.tables[name])
  {
    var links := IndexLinks(web, w.url, maxLinks).value;
    var p := Progress(w.url, [], None);
    VisitAllFailure(web, p, links);
    VisitAllUrl(web, p, links);
  }

  /** When no article fetch fails, the loop keeps exactly one page per link: the page fetched for it. */
  lemma PagesOfLinks(web: Web, url: string, links: seq<string>)
    requires VisitAll(web, Progress(url, [], None), links).failure.None?
    ensures var pages := VisitAll(web, Progress(url, [], None), links).pages;
      && |pages| == |links|
      && (forall j :: 0 <= j < |links| ==> FetchPage(web, links[j]).Success? && pages[j] == FetchPage(web, links[j]).value)
  {
    var p := Progress(url, [], None);
    var q := VisitAll(web, p, links);
    VisitAllFailure(web, p, links);
    VisitAllPages(web, p, links);
    assert q.pages[..0] == [];
    assert forall j :: 0 <= j < |links| ==> q.pages[0 + j] == q.pages[j];
  }

  /** A successful run stores under CsvFileName the table of the pages its loop kept. */
  lemma RunSuccessWritesPages(w: World, maxLinks: int, web: Web)
    requires 1 <= maxLinks
    requires RunSpec(w, maxLinks, web).outcome.Pass?
    ensures maxLinks <= MaxLinksCeiling && IndexLinks(web, w.url, maxLinks).Success?
    ensures var q := VisitAll(web, Progress(w.url, [], None), IndexLinks(web, w.url, maxLinks).value);
      && q.failure.None?
      && CsvFileName in RunSpec(w, maxLinks, web).world.tables
      && RunSpec(w, maxLinks, web).world.tables[CsvFileName] == CsvTable(Rows(web, q.pages))
  {
  }

  /**
   * A successful run writes the header and one row per link, in link order,
   * each row taken from the page fetched for that link.
   */
  lemma RunSuccessTable(w: World, maxLinks: int, web: Web)
    requires 1 <= maxLinks
    requires RunSpec(w, maxLinks, web).outcome.Pass?
    ensures maxLinks <= MaxLinksCeiling && IndexLinks(web, w.url, maxLinks).Success?
    ensures var links, w' := IndexLinks(web, w.url, maxLinks).value, RunSpec(w, maxLinks, web).world;
      && CsvFileName in w'.tables
      && var table := w'.tables[CsvFileName];
      && |table| == |links| + 1 && table[0] == Header
      && (forall j :: 0 <= j < |links| ==>
            FetchPage(web, links[j]).Success? &&
            table[j + 1] == ArticleRow(web, FetchPage(web, links[j]).value))
  {
    RunSuccessWritesPages(w, maxLinks, web);
    var links := IndexLinks(web, w.url, maxLinks).value;
    PagesOfLinks(web, w.url, links);
    TableOfPages(web, links, VisitAll(web, Progress(w.url, [], None), links).pages);
  }

  /**
   * A successful run removes the scratch folder and every scratch file: the
   * folders and files left are exactly those of the initial directory with
   * the scratch tree removed.
   */
  lemma RunSuccessCleansUp(w: World, maxLinks: int, web: Web)
    requires 1 <= maxLinks
    requires RunSpec(w, maxLinks, web).outcome.Pass?
    ensures IndexLinks(web, w.url, maxLinks).Success?
    ensures var links, w' := IndexLinks(web, w.url, maxLinks).value, RunSpec(w, maxLinks, web).world;
      && w'.folders == RemoveFolders(w.folders, ScratchFolder)
      && w'.files == RemoveFiles(w.files, ScratchFolder)
      && ScratchFolder !in w'.folders
      && (forall path :: path in w'.files ==> !IsUnder(path, ScratchFolder))
      && (forall j :: 0 <= j < |links| ==> ScratchPath(links[j]) !in w'.files)
      && (forall path :: path in w.files && !IsUnder(path, ScratchFolder) ==> path in w'.files && w'.files[path] == w.files[path])
  {
    var links := IndexLinks(web, w.url, maxLinks).value;
    var q := VisitAll(web, Progress(w.url, [], None), links);
    forall j | 0 <= j < |links| ensures IsUnder(ScratchPath(links[j]), ScratchFolder) {
      ScratchPathShape(links[j]);
    }
    forall path | path in w.files && !IsUnder(path, ScratchFolder)
      ensures path in Saved(w.files, links, q.pages) && Saved(w.files, links, q.pages)[path] == w.files[path]
    {
      SavedOthers(w.files, links, q.pages, path);
    }
    RemoveFoldersAdded(w.folders, ScratchFolder);
    SavedRemoved(w.files, links, q.pages);
  }

  /**
   * A failing article fetch ends the run with that status: self.url is on the
   * failing link, the scratch folder stays with the pages saved so far (each
   * scratch file holding the page of the last earlier link saved under it,
   * every other file its old contents), and no CSV table is written.
   */
  lemma RunArticleFailure(w: World, maxLinks: int, web: Web)
    requires 1 <= maxLinks <= MaxLinksCeiling && IndexLinks(web, w.url, maxLinks).Success?
    requires FirstFailed(web, IndexLinks(web, w.url, maxLinks).value) < |IndexLinks(web, w.url, maxLinks).value|
    ensures var links := IndexLinks(web, w.url, maxLinks).value;
      var k, end := FirstFailed(web, links), RunSpec(w, maxLinks, web);
      && end.outcome == Fail(FetchFailed(web.get(links[k]).status))
      && end.world.url == links[k]
      && end.world.folders == w.folders + {ScratchFolder}
      && end.world.files.Keys == w.files.Keys + ScratchPaths(links[..k])
      && (forall j :: 0 <= j < k && LastSavedAt(links, j, k) ==>
            ScratchPath(links[j]) in end.world.files &&
            end.world.files[ScratchPath(links[j])] == FetchPage(web, links[j]).value)
      && (forall path :: path in w.files && path !in ScratchPaths(links[..k]) ==> end.world.files[path] == w.files[path])
      && end.world.tables == w.tables
  {
    var links := IndexLinks(web, w.url, maxLinks).value;
    var p := Progress(w.url, [], None);
    VisitAllFailure(web, p, links);
    VisitAllPages(web, p, links);
    VisitAllUrl(web, p, links);
    var pages := VisitAll(web, p, links).pages;
    SavedKeys(w.files, links, pages);
    assert forall j :: 0 <= j < |pages| ==> pages[0 + j] == pages[j];
    SavedContents(web, w.files, links, pages);
  }
}
