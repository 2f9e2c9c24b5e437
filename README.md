# A verified model of the Scraper class

`ScraperClass.py` defines one class, `Scraper`. Given the URL of an index page,
its `run(max_links)` does the following:

- It rejects more than 18 links.
- It fetches the page and takes the `href` of the first `max_links` items of
  its promoted-topics list.
- It creates a scratch folder `news`.
- For each link in turn, it stores the link in `self.url`, fetches it, saves
  the page as `news/<link without '/'>.html` and reads it back. From the copy it
  takes the title, the author and the body text, which it normalises.
- It writes the rows to `News_data.csv` under the header
  `Title, Author, Text`.
- It deletes the scratch folder.

This project models that behaviour in Dafny and proves what the code
promises about it. Nothing here is executed: the model is checked by the
verifier only.

The project has seven modules:

- `Wrappers` holds `Option`, `Result` and `Outcome`, the error paths of
  Python's exceptions.
- `Text` holds the string operations the code uses: `str.replace` with
  one-character arguments (`Replace`, and `Delete` for replacing with `''`)
  and `str.strip()`. `Strip` is proved against an independent reference
  definition, `IsStripOf`, and shown to be its only solution. The code never
  calls `str.split` or counts characters. `Split` and `Count` are there only
  to state properties of the body text.
- `Files` gives a directory view of paths: their folder, whether a path lies
  under a folder, and removal of a folder tree.
- `Environment` holds what the scraper gets from code outside this model. The
  HTTP response of a URL, BeautifulSoup's `prettify`, and the results of the
  CSS selectors on a parsed page are all given as functions, inside a `Web`
  value.
- `Extraction` holds the pure parts of the class:
  - the status check of `fetch_html`;
  - the link list of `extract_news_links`;
  - the title and author normalisation and the body assembly of
    `extracting_information_html`;
  - the scratch path built in `run`;
  - the table that `save_in_csv` writes.
- `Pipeline` holds `RunSpec`, a pure statement of what `run` leaves behind. It
  covers the final `self.url`, the folders, the text files, the CSV tables,
  and the failure that ended the run, if any. Lemmas derive from it what a run
  does on each path.
- `Scraping` holds two classes:
  - `Disk` is the working directory: folders, text files and CSV files.
  - `Scraper` has a `url` field and one method per Python method. Each of
    `extracting_information_html`, `save_in_csv` and `run` keeps its loop.
    `Scraper.Run` is proved to end in exactly the state and outcome that
    `RunSpec` gives.

A failure is a value of `Extraction.Error`. It has one constructor for each
exception the model lets the code raise:

- the ceiling check;
- a status other than 200;
- a missing list;
- a missing anchor;
- a missing `href`;
- a write into a folder that does not exist.

A failure ends the run at the point where it happens, as an uncaught exception
does. Exceptions raised inside `requests.get` itself are not among them (see
"## Left out").

Two details follow the code exactly as written:

- The default title is the literal `"Title not founf."`, misspelling
  included.
- Every status other than 200 fails, including the other 2xx codes.

## Model

| member | source | states |
|---|---|---|
| `Extraction.FetchPage` | ScraperClass.py:13-21 | succeeds exactly when the status is 200, with the prettified body; otherwise fails carrying that status |
| `Extraction.OtherSuccessCodesFail` | ScraperClass.py:15-21 | a 2xx status other than 200 is a failure too |
| `Extraction.FirstWithoutHref` | ScraperClass.py:32 | the position of the first item without an anchor or href: every earlier item has one, the item there has none |
| `Extraction.FirstWithoutHrefUnique` | ScraperClass.py:32 | that characterisation has exactly one solution |
| `Extraction.Hrefs` | ScraperClass.py:32 | the list comprehension succeeds exactly when every item has an href, with one href per item in order; otherwise it fails with the error of the first bad item |
| `Extraction.ExtractNewsLinks` | ScraperClass.py:29-33 | a missing list fails; otherwise exactly min(K, max_links) hrefs of the first items in document order, or the first missing anchor or href among the items taken |
| `Extraction.ExtractNewsLinksIgnoresRest` | ScraperClass.py:31 | items after the first max_links do not affect the result |
| `Extraction.CollapseLines` | ScraperClass.py:64 | the result of `replace('\n', ' ').strip()` contains no newline, is trimmed, and is a strip (`IsStripOf`) of the text with `'\n'` replaced by `' '`, the only one by `Text.StripUnique` |
| `Extraction.TitleText` | ScraperClass.py:52-53 | no newline and no whitespace at either end; the default `"Title not founf."` when the heading is absent, otherwise the strip of the text with newlines replaced by spaces |
| `Extraction.AuthorText` | ScraperClass.py:55-56 | no newline and no whitespace at either end; the default `"Author not found."` when the byline is absent, otherwise the strip of the text with newlines deleted |
| `Extraction.CollapsedTexts` | ScraperClass.py:63-64 | one normalised, newline-free piece per body element, in order |
| `Extraction.TotalTextStep` | ScraperClass.py:63-65 | one more element appends `"\n"` followed by its normalised text |
| `Extraction.JoinLinesAppend` | ScraperClass.py:62-65 | joining the pieces of a + b gives the join of a followed by the join of b |
| `Extraction.TotalTextAppend` | ScraperClass.py:62-65 | the body of a + b is the body of a followed by the body of b |
| `Extraction.TotalTextEmpty` | ScraperClass.py:62-65 | the body is `""` exactly when no element matched |
| `Extraction.JoinLinesNewlines` | ScraperClass.py:62-65 | joining newline-free pieces gives exactly one `'\n'` per piece |
| `Extraction.TotalTextNewlines` | ScraperClass.py:62-65 | the body holds exactly one `'\n'` per element |
| `Extraction.JoinLinesSplit` | ScraperClass.py:62-65 | splitting the join of newline-free pieces at `'\n'` gives `""`, then the pieces |
| `Extraction.JoinLinesPieces` | ScraperClass.py:65 | splitting the join of newline-free pieces at `'\n'` gives `""`, then piece j at position j + 1 |
| `Extraction.TotalTextSplit` | ScraperClass.py:62-65 | splitting the body at `'\n'` gives an empty first piece, then each element's normalised text in order |
| `Extraction.ScratchPathShape` | ScraperClass.py:106 | the path is `"news/"`, then the link with every `'/'` removed, then `".html"`; the middle has no `'/'`; the file lies directly in `news` |
| `Extraction.ScratchPathFolder` | ScraperClass.py:106 | the folder of a scratch path is `news`, the folder created at line 99 |
| `Extraction.ScratchPathCollides` | ScraperClass.py:106 | two links share a scratch file exactly when they agree once their `'/'` are removed |
| `Extraction.ScratchPathPlainLink` | ScraperClass.py:106 | a link without `'/'` appears whole in its file name |
| `Extraction.ItemError` | ScraperClass.py:32 | the exception of an item without an href: `MissingAnchor` when `find('a')` gives None, `MissingHref` when the anchor has no href |
| `Extraction.JoinLines` | ScraperClass.py:62-65 | `"\n" + piece` for every piece, concatenated in order; its lemmas give its count of newlines, its split and its behaviour on a + b |
| `Extraction.TotalText` | ScraperClass.py:62-65 | `total_text` after the loop: the join of the normalised element texts, as `TotalTextStep` and the `TotalText*` lemmas state |
| `Extraction.ArticleFields` | ScraperClass.py:52-67 | the tuple returned for a page read back: `TitleText` of its heading, `AuthorText` of its byline, `TotalText` of its body elements |
| `Extraction.RecordRow` | ScraperClass.py:108 | the row `[title, author, total_text]` built from that tuple |
| `Extraction.ScratchPath` | ScraperClass.py:106-107 | the one path used both for the save and for the read-back; `ScratchPathShape` gives its shape |
| `Extraction.CsvTable` | ScraperClass.py:79-81 | the header `['Title','Author','Text']` first, then each row in the given order: N+1 rows for N records |
| `Text.IsSpace` | ScraperClass.py:53 | the characters `strip()` removes in this model: ASCII tab, newline, vertical tab, form feed, carriage return, 0x1C-0x1F and space |
| `Text.Count` | ScraperClass.py:65 | at most the length, and zero exactly when the character does not occur |
| `Text.CountAppend` | ScraperClass.py:65 | the count in a + b is the count in a plus the count in b |
| `Text.Replace` | ScraperClass.py:53 | same length; every occurrence of the old character becomes the new one, and every other character stays |
| `Text.Delete` | ScraperClass.py:56 | the character is gone, every other character is kept, and the length drops by its count |
| `Text.DeleteAppend` | ScraperClass.py:56 | deleting from a + b deletes from a and from b separately, so kept characters keep their order and multiplicity |
| `Text.DeleteSingle` | ScraperClass.py:56 | a single character is dropped when it is the one deleted and kept otherwise; with `DeleteAppend` this fixes `Delete` on every string |
| `Text.DeleteKeeps` | ScraperClass.py:106 | every kept character sits in the result at its position less the number of deleted characters before it |
| `Text.DeleteAbsent` | ScraperClass.py:106 | deleting a character that does not occur changes nothing |
| `Text.LeadingSpaces` | ScraperClass.py:53 | the length of the whitespace run at the start, followed by a non-space |
| `Text.TrailingSpaces` | ScraperClass.py:53 | the length of the whitespace run at the end, preceded by a non-space |
| `Text.Strip` | ScraperClass.py:53 | the result satisfies the reference definition of `strip()`: a slice of the input with only whitespace cut off and no whitespace at either end |
| `Text.StripOfUnique` | ScraperClass.py:53 | two slices that satisfy that definition are equal |
| `Text.StripUnique` | ScraperClass.py:53 | any string satisfying the reference definition is `Strip` of the input |
| `Text.StripIdempotent` | ScraperClass.py:53 | stripping twice is stripping once |
| `Text.Split` | ScraperClass.py:65 | one more part than separators, and no part contains the separator |
| `Text.SplitAppend` | ScraperClass.py:65 | splitting a + sep + p, where p has no sep, gives the parts of a followed by p |
| `Files.DirNameOfChild` | ScraperClass.py:106 | a name without `'/'` put into a folder has that folder as its directory |
| `Files.RemoveFolders` | ScraperClass.py:84-86 | removing a tree keeps exactly the folders outside it |
| `Files.RemoveFiles` | ScraperClass.py:84-86 | removing a tree keeps exactly the files outside it, with their contents |
| `Files.RemoveFoldersAdded` | ScraperClass.py:86 | adding a tree's root folder before removing the tree changes nothing |
| `Files.RemoveFilesWritten` | ScraperClass.py:86 | writing a file inside a tree before removing the tree changes nothing |
| `Pipeline.ArticleRow` | ScraperClass.py:107-108 | the row appended for a saved page: `RecordRow` of `ArticleFields` of the page's selector results |
| `Pipeline.Rows` | ScraperClass.py:101-108 | one `[title, author, text]` row per page read, in order |
| `Pipeline.RowsSnoc` | ScraperClass.py:108 | reading one more page appends its row |
| `Pipeline.Visit` | ScraperClass.py:104-105 | one pass of the loop: nothing after a failure; otherwise `self.url` becomes the link, and the fetched page is kept or the fetch failure recorded |
| `Pipeline.Saved` | ScraperClass.py:106 | the text files after each kept page is written under its link's scratch path, in order; `SavedKeys`, `SavedLatest` and `SavedOthers` state the result |
| `Pipeline.VisitAll` | ScraperClass.py:103-108 | the loop keeps at most one page per link |
| `Pipeline.FirstFailed` | ScraperClass.py:103-105 | the position of the first link whose fetch fails: every earlier fetch succeeds, the fetch there fails |
| `Pipeline.FirstFailedUnique` | ScraperClass.py:103-105 | that characterisation has exactly one solution |
| `Pipeline.VisitAllStops` | ScraperClass.py:103-105 | once a fetch has failed, later links change nothing |
| `Pipeline.VisitAllFailure` | ScraperClass.py:103-105 | the loop fails exactly when some fetch fails, and then with the first such failure |
| `Pipeline.VisitAllPages` | ScraperClass.py:103-108 | until the first failure, one page per link in link order, each the page fetched for its link |
| `Pipeline.VisitAllUrl` | ScraperClass.py:103-104 | `self.url` ends on the failing link, or else on the last link; with no links it is unchanged |
| `Pipeline.ScratchPathsMembers` | ScraperClass.py:106 | every link's scratch path is among the scratch paths, and they all lie under `news` |
| `Pipeline.SavedKeys` | ScraperClass.py:106 | saving adds exactly the scratch paths of the links saved |
| `Pipeline.SavedLatest` | ScraperClass.py:106 | a scratch file holds the page of the last link saved under it |
| `Pipeline.SavedOthers` | ScraperClass.py:106 | files at other paths keep their contents |
| `Pipeline.IndexLinks` | ScraperClass.py:96-98 | `fetch_html` on the seed url and then `extract_news_links` on the page; the first failure is the result |
| `Pipeline.RunSpec` | ScraperClass.py:92-112 | the url, folders, files, tables and outcome after `run`: the ceiling check, the index step, the scratch folder, the loop, the CSV table and the removal of the scratch folder; the `Run*` lemmas state its consequences |
| `Pipeline.RunStep` | ScraperClass.py:103-108 | a pass with a successful fetch moves `self.url` to the link, saves the page under its scratch path and appends its row |
| `Pipeline.RunStopsAt` | ScraperClass.py:103-105 | a failing article fetch ends the run with that failure, in the state reached before it |
| `Pipeline.RunCompletes` | ScraperClass.py:110-112 | after the last link, the table of the pages read is written and the scratch tree is removed |
| `Pipeline.RunOverCeiling` | ScraperClass.py:93-94 | more than 18 links fails before any fetch, folder or file is made, and self.url is unchanged |
| `Pipeline.RunIndexFailure` | ScraperClass.py:96-98 | a failure on the index page or its links leaves everything as it was |
| `Pipeline.RunSucceedsIff` | ScraperClass.py:92-112 | run succeeds exactly when the ceiling holds, the index yields its links, and every article fetch succeeds |
| `Pipeline.TableOfPages` | ScraperClass.py:108-110 | the table written for one page per link is the header, then each link's row in link order |
| `Pipeline.RunSuccess` | ScraperClass.py:103-110 | a successful run leaves `self.url` on the last link (unchanged with no links), writes `News_data.csv`, and leaves other tables untouched |
| `Pipeline.PagesOfLinks` | ScraperClass.py:103-105 | with no failing fetch, the loop keeps exactly one page per link: the page fetched for that link |
| `Pipeline.RunSuccessWritesPages` | ScraperClass.py:110 | a successful run writes the table of the pages its loop kept |
| `Pipeline.RunSuccessTable` | ScraperClass.py:101-110 | the CSV has the header and then one row per link in link order, row i taken from the page fetched with self.url set to link i |
| `Pipeline.RunSuccessCleansUp` | ScraperClass.py:112 | a successful run leaves exactly the initial folders and files with the `news` tree removed: no `news` folder, no file under it, no scratch file, all other files with their contents |
| `Pipeline.RunArticleFailure` | ScraperClass.py:103-106 | a failing article fetch ends the run with its status: self.url is on that link, the `news` folder stays, the scratch files of the earlier links exist, each holding the page of the last earlier link saved under it, every other file keeps its contents, and no table is written |
| `Pipeline.SavedRemoved` | ScraperClass.py:106-112 | removing `news` after saving scratch files leaves the same files as removing it from the directory before |
| `Pipeline.SavedContents` | ScraperClass.py:103-106 | after saving the pages fetched for the first k links, each scratch file holds its last saver's page, and every other file keeps its contents |
| `Scraping.CanWrite` | ScraperClass.py:25 | `open(path, 'w')` finds its folder: the path is at top level, or its folder exists |
| `Scraping.Scraper.constructor` | ScraperClass.py:9-10 | the scraper starts at the given url |
| `Scraping.Scraper.FetchHtml` | ScraperClass.py:13-21 | the result of fetching self.url, as `FetchPage` states it |
| `Scraping.Scraper.ExtractNewsLinks` | ScraperClass.py:29-33 | the links of the page's promo list, as `Extraction.ExtractNewsLinks` states them |
| `Scraping.Scraper.SaveHtml` | ScraperClass.py:24-26 | writes the page at the path when its folder exists, replacing any earlier contents; otherwise fails with FileNotFound and changes nothing |
| `Scraping.Scraper.CreateFolder` | ScraperClass.py:36-40 | the folder exists afterwards, whether or not it did before; nothing else changes |
| `Scraping.Scraper.ExtractingInformationHtml` | ScraperClass.py:43-73 | for a saved file, the normalised title, author and body of its page, with the body built by the loop; `"File not found."` for a missing file |
| `Scraping.Scraper.SaveInCsv` | ScraperClass.py:76-81 | replaces the named CSV file with the header followed by the rows, row by row; nothing else changes |
| `Scraping.Scraper.DeleteFolder` | ScraperClass.py:84-89 | when the folder exists, it and everything under it are removed; otherwise nothing changes |
| `Scraping.Scraper.Run` | ScraperClass.py:92-112 | with `max_links` defaulting to 18, the final url, folders, files, tables and outcome are exactly those of `RunSpec`, whose consequences the lemmas above state |

## Left out

- HTTP and HTML parsing are left out. `requests.get`, BeautifulSoup's parser,
  `prettify` and the CSS selectors are library code. They are given as the
  functions of `Environment.Web`: a selector result is a sequence of element
  texts, or an `Option` for a single match.
- `Environment.Web` makes `get` a total function of the URL that always
  gives a response. Two things follow:
  - The exceptions `requests.get` raises itself are not modelled. These are
    connection errors, timeouts, and `MissingSchema` for a relative href such
    as `/a1`.
  - The same URL fetched twice gives the same response. A server whose answer
    changes between requests is not modelled.
- `Scraping.Scraper.ExtractingInformationHtml` and `Pipeline.ArticleRow` take
  the text-mode round trip as the identity: the file read back holds exactly
  the string `save_html` wrote. Python's text-mode I/O translates newlines
  (lines 25 and 46). On reading, `'\r'` and `"\r\n"` become `'\n'`, and on
  Windows writing turns `'\n'` into `"\r\n"`. So for a page containing carriage
  returns, the title, author and body of a row may differ from those of the
  fetched page, which `Pipeline.RunSuccessTable` does not capture.
- `Extraction.ExtractNewsLinks`, `Pipeline.IndexLinks`, `Pipeline.RunSpec` and
  `Scraping.Scraper.Run` require `max_links >= 1`. BeautifulSoup's `find_all`
  decides what `limit=0` or a negative limit does, and this code does not
  define it.
- `Scraping.Scraper.SaveInCsv` does not model CSV quoting or escaping. A CSV
  file is a sequence of rows in `Disk.tables`, not bytes in a text file.
- `Scraping.Scraper.SaveInCsv` never fails: writing `News_data.csv` in the
  working directory is assumed to succeed. CSV files are kept apart from the
  text files, so `Scraping.Scraper.DeleteFolder` does not remove a CSV file
  stored under the deleted folder.
- The directory is modelled as sets and maps of paths, so `os.path.exists` of
  a folder is membership in `Disk.folders`. A plain file named like a folder is
  not modelled. Neither are `open(path, 'w')` on a path that is a folder, and
  I/O errors of the file system.
- `Scraping.Scraper.CreateFolder` adds only the named folder. It does not also
  create missing parent folders as `os.makedirs` does. The model only ever
  creates the top-level folder `news`.
- `Text.IsSpace` is ASCII whitespace only: tab, newline, vertical tab, form
  feed, carriage return, the characters 0x1C-0x1F, and space. Python's
  `strip()` also removes other Unicode whitespace.
- The two `FileNotFoundError` handlers of `extracting_information_html` are
  not modelled as such:
  - The inner handler cannot trigger and is left out.
  - The outer one becomes `NotFound("File not found.")`.
  - In `run` the file was just written, so `Scraping.Scraper.Run` proves that
    case unreachable. The 3-way unpack of that string at line 107 therefore
    never happens.
- The `print` notices of `create_folder` and `delete_folder` are output only,
  and are left out.
- The commented-out `save_html` call at line 97 is not part of the behaviour.
  `Scraping.Scraper.SaveHtml` keeps the default file name `html_temp.html`,
  but the call in `run` always names its file.
- Links are used as they are: the code does not resolve relative URLs or
  handle file-name collisions. `Extraction.ScratchPathCollides` states when
  two links share a scratch file; the later page then replaces the earlier one
  (`Pipeline.SavedLatest`).
