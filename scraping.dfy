/**
 * The Scraper class of ScraperClass.py over a working directory held in
 * memory. Each method changes the scraper's url or the directory the way the
 * Python method does; run is proved to end in the state RunSpec describes.
 */
module Scraping {
  import opened Wrappers
  import opened Files
  import opened Environment
  import opened Extraction
  import opened Pipeline

  /** The working directory: its folders, its text files by path, and its CSV files by name, as rows. */
  class Disk {
    var folders: set<string>
    var files: map<string, string>
    var tables: map<string, seq<seq<string>>>

    constructor(folders: set<string>, files: map<string, string>, tables: map<string, seq<seq<string>>>)
      ensures this.folders == folders && this.files == files && this.tables == tables
    {
      this.folders := folders;
      this.files := files;
      this.tables := tables;
    }
  }

  /** open(path, 'w') finds the folder it writes into: the path is at top level or its folder exists. */
  predicate CanWrite(folders: set<string>, path: string) {
    DirName(path) == "" || DirName(path) in folders
  }

  /** The file name save_html uses when none is given. */
  const DefaultHtmlFile: string := "html_temp.html"

  /** What extracting_information_html returns in this model: the three fields, or its message for a missing file. */
  datatype Extracted = Found(record: ArticleRecord) | NotFound(message: string)

  const FileNotFoundMessage: string := "File not found."

  class Scraper {
    var url: string

    constructor(url: string)
      ensures this.url == url
    {
      this.url := url;
    }

    /** fetch_html: GET self.url; on status 200 the prettified page, otherwise the failure with the status. */
    method FetchHtml(web: Web) returns (r: Result<string, Error>)
      ensures r == FetchPage(web, url)
    {
      var response := web.get(url);
      if response.status == 200 {
        r := Success(web.prettify(response.text));
      } else {
        r := Failure(FetchFailed(response.status));
      }
    }

    /** save_html: write html to filename, replacing what was there; fails when its folder does not exist. */
    method SaveHtml(disk: Disk, html: string, filename: string := DefaultHtmlFile) returns (r: Outcome<Error>)
      modifies disk
      ensures CanWrite(old(disk.folders), filename) ==> r == Pass && disk.files == old(disk.files)[filename := html]
      ensures !CanWrite(old(disk.folders), filename) ==> r == Fail(FileNotFound(filename)) && disk.files == old(disk.files)
      ensures disk.folders == old(disk.folders) && disk.tables == old(disk.tables)
    {
      if CanWrite(disk.folders, filename) {
        disk.files := disk.files[filename := html];
        r := Pass;
      } else {
        r := Fail(FileNotFound(filename));
      }
    }

    /** extract_news_links: the hrefs of the first maxLinks promo items of the page, or the first failure. */
    method ExtractNewsLinks(web: Web, html: string, maxLinks: int) returns (r: Result<seq<string>, Error>)
      requires 1 <= maxLinks
      ensures r == Extraction.ExtractNewsLinks(web.promoItems(html), maxLinks)
    {
      r := Extraction.ExtractNewsLinks(web.promoItems(html), maxLinks);
    }

    /** create_folder: make the folder unless it exists already. */
    method CreateFolder(disk: Disk, name: string)
      modifies disk
      ensures disk.folders == old(disk.folders) + {name}
      ensures disk.files == old(disk.files) && disk.tables == old(disk.tables)
    {
      if name !in disk.folders {
        disk.folders := disk.folders + {name};
      }
    }

    /**
     * extracting_information_html: read the file, then the title, the author
     * and the body joined line by line; the message when the file is missing.
     */
    method ExtractingInformationHtml(disk: Disk, path: string, web: Web) returns (r: Extracted)
      ensures path !in disk.files ==> r == NotFound(FileNotFoundMessage)
      ensures path in disk.files ==> r == Found(ArticleFields(web.articleParts(disk.files[path])))
    {
      if path !in disk.files {
        return NotFound(FileNotFoundMessage);
      }
      var page := web.articleParts(disk.files[path]);
      var title := TitleText(page.title);
      var author := AuthorText(page.author);
      var elements := page.texts;
      var totalText := "";
      for i := 0 to |elements|
        invariant totalText == TotalText(elements[..i])
      {
        var text := CollapseLines(elements[i]);
        TotalTextStep(elements, i);
        totalText := totalText + "\n" + text;
      }
      assert elements[..|elements|] == elements;
      r := Found(ArticleRecord(title, author, totalText));
    }

    /** save_in_csv: (re)write the named CSV file with the header row, then each row in order. */
    method SaveInCsv(disk: Disk, datos: seq<seq<string>>, name: string)
      modifies disk
      ensures disk.tables == old(disk.tables)[name := CsvTable(datos)]
      ensures disk.folders == old(disk.folders) && disk.files == old(disk.files)
    {
      var written := [Header];
      disk.tables := disk.tables[name := written];
      for i := 0 to |datos|
        invariant written == [Header] + datos[..i]
        invariant disk.tables == old(disk.tables)[name := written]
        invariant disk.folders == old(disk.folders) && disk.files == old(disk.files)
      {
        assert datos[..i + 1] == datos[..i] + [datos[i]];
        written := written + [datos[i]];
        disk.tables := disk.tables[name := written];
      }
      assert datos[..|datos|] == datos;
    }

    /** delete_folder: remove the folder with everything under it, when it exists. */
    method DeleteFolder(disk: Disk, name: string)
      modifies disk
      ensures name in old(disk.folders) ==>
        disk.folders == RemoveFolders(old(disk.folders), name) && disk.files == RemoveFiles(old(disk.files), name)
      ensures name !in old(disk.folders) ==> disk.folders == old(disk.folders) && disk.files == old(disk.files)
      ensures disk.tables == old(disk.tables)
    {
      if name in disk.folders {
        disk.folders := RemoveFolders(disk.folders, name);
        disk.files := RemoveFiles(disk.files, name);
      }
    }

    /**
     * run: check the ceiling, read the index page and its links, and for each
     * link fetch the article, save it in the scratch folder and read it back;
     * then write the CSV table and remove the scratch folder.
     */
    method Run(disk: Disk, web: Web, maxLinks: int := MaxLinksCeiling) returns (r: Outcome<Error>)
      requires 1 <= maxLinks
      modifies this, disk
      ensures RunEnd(World(url, disk.folders, disk.files, disk.tables), r) ==
        RunSpec(World(old(url), old(disk.folders), old(disk.files), old(disk.tables)), maxLinks, web)
    {
      ghost var w := World(url, disk.folders, disk.files, disk.tables);
      if maxLinks > MaxLinksCeiling {
        return Fail(LimitExceeded);
      }
      var index := FetchHtml(web);
      if index.Failure? {
        return Fail(index.error);
      }
      var found := ExtractNewsLinks(web, index.value, maxLinks);
      if found.Failure? {
        return Fail(found.error);
      }
      var links := found.value;
      assert IndexLinks(web, w.url, maxLinks) == Success(links);
      CreateFolder(disk, ScratchFolder);
      ghost var p0 := Progress(w.url, [], None);
      ghost var pages: seq<string> := [];
      var datos: seq<seq<string>> := [];
      for i := 0 to |links|
        invariant |pages| == i
        invariant VisitAll(web, p0, links[..i]) == Progress(url, pages, None)
        invariant disk.folders == w.folders + {ScratchFolder}
        invariant disk.files == Saved(w.files, links, pages)
        invariant disk.tables == w.tables
        invariant datos == Rows(web, pages)
      {
        ghost var previous := url;
        url := links[i];
        var html := FetchHtml(web);
        if html.Failure? {
          RunStopsAt(w, maxLinks, web, i, pages);
          return Fail(html.error);
        }
        RunStep(web, p0, w.files, links, i, previous, pages);
        var path := ScratchPath(links[i]);
        ScratchPathFolder(links[i]);
        var saved := SaveHtml(disk, html.value, path);
        assert saved == Pass;
        var extracted := ExtractingInformationHtml(disk, path, web);
        assert extracted.Found?;
        datos := datos + [RecordRow(extracted.record)];
        pages := pages + [html.value];
      }
      assert links[..|links|] == links;
      RunCompletes(w, maxLinks, web, url, pages);
      SaveInCsv(disk, datos, CsvFileName);
      DeleteFolder(disk, ScratchFolder);
      r := Pass;
    }
  }
}
