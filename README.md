# springer-dl, modelled in Dafny

springer-dl downloads a book from Springer's web viewer into one PDF. The
model covers `springer-dl.py`, split into these modules:

- `BookExtract` models `__book_extract`. From the root page it collects an ordered list of content URLs:
  - the cover, reached through the about page and used exactly as that page gives it;
  - the front matter, resolved against the root page's final URL;
  - then, page by page, each chapter without a no-access message (resolved against the current page's URL), followed by that page's back matter.

  It follows `rel=next` links and stops when a page has none, or when the next fetch does not answer 200. After a successful fetch, the resolution base becomes the response's final URL after redirects.
- `Download` models `download_content`. Each item's Content-Type decides what happens:
  - a header containing `pdf` (tested first) keeps a `.pdf` temporary file;
  - a header containing `tiff` keeps a `.tif` file, converts it to `<name>.pdf`, and removes the raw file;
  - any other header raises before a temporary file is made for that item;
  - a response without a Content-Type header raises at the header lookup, also before any file is made.

  A non-success status is only reported; the item is still processed. The result is one local path per URL, in URL order.
- `SpringerDl` models `extract_content`:
  - a 4xx/5xx root page raises;
  - a document type other than `book` raises before anything is downloaded;
  - otherwise the local files are merged with `pdftk <files> cat output <out>` and then removed one by one.
- `Platform` models the operating system:
  - the disk, as the set of paths that exist;
  - the log of programs started, by argument vector;
  - temporary files, whose fresh names are supplied abstractly;
  - the files that `convert` and `pdftk` create;
  - `os.remove`;
  - for the proofs only, which downloaded content each file holds, as the list of URLs whose response bodies went into it, in order.
- `Web` models a response: its status, its final URL, its Content-Type, and its parsed page.

HTTP is a total function `get` from URL to response. `urllib.parse.urljoin` is an arbitrary function parameter `join`. Both are uninterpreted.

The source has no guard against a cycle of next links, so its page loop may not end. The model takes a ghost bound `n` and, for a root page that is a book, requires `EndsWithin(..., n)`: the chain of next pages ends within `n` moves. `BookExtract.ChainEnds` shows that every finite chain of pages meets this requirement, and `BookExtract.WalkIsChain` shows that every walk meeting it follows such a chain.

Error handling in the source, as modelled:
- A failed per-item fetch is only printed, and the item is still classified by its Content-Type (springer-dl.py:47-50).
- The root fetch raises only for 4xx/5xx statuses, through `raise_for_status` (springer-dl.py:184).
- Temporary files are removed only on the success path (springer-dl.py:209-212). After a download error, the files of earlier items stay on disk.

For a TIFF item, `Download.DownloadContent` and `SpringerDl.ExtractContent` use the corrected `Download.DownloadItem`, which starts `convert` directly. The source starts it through the shell; the consequences are under "## Findings", and `Download.DownloadItemAsWritten` models that path.

## Model

| member | source | states |
|---|---|---|
| `BookExtract.ExtractBook` | springer-dl.py:88-178 | the collected URLs are exactly `BookContent`: cover (unresolved), front matter resolved against the root URL, then the page walk |
| `BookExtract.WalkPages` | springer-dl.py:131-176 | the page loop collects exactly `Walk` of the root page: each page's items, following next links until none, a non-OK fetch, or an empty URL |
| `BookExtract.CollectPage` | springer-dl.py:138-158 | one page contributes its open chapters' resolved PDF links in document order, then its resolved back-matter link |
| `BookExtract.WalkStep` | springer-dl.py:160-176 | with no next link, or a next fetch that is not OK, the walk ends with this page's items kept; on OK it continues from the response's final URL and page |
| `BookExtract.ChainEnds` | springer-dl.py:134-176 | a finite chain of pages linked by successful next fetches bounds the walk by its length |
| `BookExtract.WalkFollowsChain` | springer-dl.py:131-176 | the walk equals the concatenation of every chain page's items, whatever the bound |
| `BookExtract.WalkIsChain` | springer-dl.py:131-176 | conversely, a walk that ends within the bound from a page with a URL follows a finite chain of pages starting there, and collects exactly that chain's items |
| `BookExtract.ChapterUrlsAppend` | springer-dl.py:139-147 | the chapter URLs of two runs of chapters are those of the first run followed by those of the second (document order) |
| `BookExtract.DeniedChapterSkipped` | springer-dl.py:142-143 | a chapter with a no-access message contributes nothing, and the chapters around it still contribute |
| `BookExtract.AccessibleChapterKept` | springer-dl.py:144-147 | an open chapter contributes exactly `join(pageUrl, pdfHref)`, placed between the URLs of the chapters before and after it |
| `BookExtract.ChapterUrlsMembers` | springer-dl.py:138-148 | a URL is collected from a page's chapters iff some open chapter's link resolves to it |
| `BookExtract.FrontMatterAndOpenChapters` | springer-dl.py:116-157 | front matter plus three chapters with the middle one denied, on one page, yields front matter then the two open chapters |
| `BookExtract.CoverThenTwoPages` | springer-dl.py:94-176 | cover first and unresolved; front matter and first-page chapter resolved against the root URL; second-page items resolved against the next response's final URL |
| `Download.ContainsMeansOccurs` | springer-dl.py:56-58 | the substring test on the Content-Type holds iff the word occurs at some position |
| `Download.MissingLetterExcludes` | springer-dl.py:56-62 | a header lacking a letter of the word cannot contain that word |
| `Download.Classify` | springer-dl.py:53-62 | `pdf` gives PDF, also when `tiff` is present too; `tiff` without `pdf` gives TIFF; anything else fails with the header as the error |
| `Download.ClassifyPdfHeader` | springer-dl.py:56-57 | any header in which "pdf" occurs is saved as PDF, whether or not "tiff" occurs too |
| `Download.ClassifyTiffHeader` | springer-dl.py:58-60 | a header with "tiff" and no 'p' (e.g. "image/tiff") is saved as TIFF and converted |
| `Download.ClassifyOtherHeader` | springer-dl.py:61-62 | a header with neither 'p' nor 'f' (e.g. "text/html") raises the unexpected-content-type error carrying that header |
| `Download.ItemType` | springer-dl.py:53-62 | a response without Content-Type fails with MissingContentType; with one, `pdf` gives PDF, `tiff` without `pdf` gives TIFF, anything else fails with the header; the status plays no part |
| `Download.StatusIgnored` | springer-dl.py:46-54 | an item's treatment does not depend on its response status |
| `Download.ConvertedName` | springer-dl.py:71 | the kept name of a converted file is the `.tif` name with `.pdf` appended, and the raw name can be recovered from it |
| `Download.DownloadItem` | springer-dl.py:45-80 | one item: on an unexpected type the disk, the program log and the files' content are unchanged; otherwise exactly one new file exists, the kept path, holding the content fetched from the item's URL (conversion run directly; raw `.tif` removed) |
| `Download.DownloadItemAsWritten` | springer-dl.py:69-78 | one item as written: for TIFF, convert runs without operands, the kept `.pdf` path does not exist, and the disk is unchanged |
| `Download.ConversionsSnoc` | springer-dl.py:70-78 | each further TIFF item appends its own `convert <raw> <raw>.pdf` to the log, so conversions are logged in item order |
| `Download.DownloadedStep` | springer-dl.py:65-82 | adding one accepted item at a new path keeps the invariant: new files on disk = the listed paths, distinct and in order, and conversions are logged in order |
| `Download.HoldItemsStep` | springer-dl.py:65-80 | a further item kept at a new path, holding its URL's content, leaves the content of the earlier items' files unchanged |
| `Download.DownloadContent` | springer-dl.py:24-85 | one distinct new local path per URL in order, the file at index i holding the content of URL i, and disk = old files + listed paths; on an error, stops at the first bad item, with no file made for it and earlier files left on disk (TIFF items through the corrected `Download.DownloadItem`) |
| `Platform.Host.NamedTemporaryFile` | springer-dl.py:65-67 | a new file with the requested suffix, holding the response body written to it, whose name, and that name plus `.pdf`, did not exist |
| `Platform.Host.Exec` | springer-dl.py:206 | a directly started program is logged, the files it creates are added to the disk, and each created file holds its inputs' content in order |
| `Platform.Host.ExecShell` | springer-dl.py:74 | a program started through the POSIX shell runs only the first word of the list |
| `Platform.Host.Remove` | springer-dl.py:77 | removing a path deletes it and its content; removing a missing path fails with FileNotFound and changes nothing |
| `Platform.ShellConvertCreatesNothing` | springer-dl.py:73-74 | convert started through the shell creates nothing and changes no content; started directly, it creates its output, holding its input's content, whenever its input exists |
| `SpringerDl.MergeCommand` | springer-dl.py:203-205 | pdftk reads back exactly the temporary files in download order as inputs, and the output file |
| `SpringerDl.MergeCreatesOutput` | springer-dl.py:203-206 | the merge creates the output file iff every listed input exists, and the output then holds the inputs' content in list order |
| `SpringerDl.ConcatenatedItems` | springer-dl.py:203-206 | merging one file per URL, each holding its URL's content, in URL order, yields exactly the URLs' content in that order |
| `SpringerDl.RemoveAllListed` | springer-dl.py:210-212 | removing distinct existing files succeeds, leaves none of them, and touches no other file |
| `SpringerDl.RemoveAllMissing` | springer-dl.py:210-212 | if a listed file is missing, cleanup raises FileNotFound on it |
| `SpringerDl.Cleanup` | springer-dl.py:209-212 | the cleanup loop's disk and outcome are those of removing each path in turn; on success the listed files' content is gone, and an unlisted file's content never changes |
| `SpringerDl.ExtractContent` | springer-dl.py:181-212 | see the note below the table (TIFF items through the corrected `Download.DownloadItem`) |

`SpringerDl.ExtractContent` ensures:
- A 4xx/5xx root status raises HttpError with the disk unchanged.
- A document type other than `book` raises before any download, with the disk unchanged.
- For a book:
  - one distinct fresh local file per collected URL, in order;
  - on success, disk = old files + the output file − the temporary files, and the program log holds the conversions, then the merge command;
  - on success, the output file holds the content of the collected URLs (`BookContent`) in their order, unless its name is one of the temporary files;
  - on an item error, that item's error, with the earlier temporary files left on disk, each holding its URL's content.

## Left out

- HTTP through `requests` is not modelled: sessions, the User-Agent header, redirects and connection errors. A response is a record, and its final URL stands for redirect handling.
- HTML parsing with BeautifulSoup is not modelled. A page is the record of what the lookups find. A missing element that the source dereferences raises AttributeError in the source; that case is not modelled. Examples are a chapter without `a.pdf-link`, or a missing document marker `div`.
- `urllib.parse.urljoin` is the uninterpreted parameter `join`.
- `tempfile` naming is abstract. A fresh name and that name plus `.pdf` are assumed not to exist on disk.
- File contents are not modelled as bytes. A file's content is the list of URLs whose response bodies went into it: `convert` is taken to keep its input's content, and `pdftk cat` to concatenate its inputs' content in argument order. The exit statuses of both programs are ignored, as in the source.
- A next-link cycle that makes the source loop forever is excluded by the `EndsWithin` precondition. It is assumed only when the root page is a book; the HTTP-error and wrong-document-type paths need no bound.
- pdftk's behaviour when given no input files is not modelled: for a book with no content URLs, `Platform.ToolOutputs` assumes the merge still creates the output file.
- The progress bar (springer-dl.py:36-43) is floating-point display only. All printing is left out, as are `argparse` and `main` (springer-dl.py:215-239).
- `Download.DownloadContent`: composes the corrected `Download.DownloadItem`, so for a TIFF item it states the behaviour of the fix, not the source's shell-started `convert` (see "## Findings").
- `SpringerDl.ExtractContent`: for the same reason, its success case for a book with TIFF items describes the corrected program; as written, pdftk writes no output (its exit status is ignored and the run still reports the file as generated), and the run raises FileNotFoundError at the cleanup.
- `Download.DownloadItemAsWritten`: states only when the item fails and what happens to a TIFF item. Its PDF path is the same as `Download.DownloadItem`'s.

## Findings

| source | as written | input that shows it | evidently intended | confidence | as-written member | corrected member |
|---|---|---|---|---|---|---|
| springer-dl.py:73-74 | `Popen(['convert', tmp, tmp + '.pdf'], shell=True)` on POSIX runs `/bin/sh -c convert tmp tmp.pdf`, so `convert` gets no operands and `tmp.pdf` is never made. The raw file is still removed and `tmp.pdf` is still listed. pdftk then has a missing input and writes nothing (`SpringerDl.MergeCreatesOutput`), and the cleanup's `os.remove(tmp.pdf)` raises FileNotFoundError (`SpringerDl.RemoveAllMissing`). | any content item served as `Content-Type: image/tiff` | start `convert` with the argument list directly, so `tmp.pdf` exists, is merged, and is removed | not executed; follows Python's documented POSIX behaviour for `shell=True` with a list; on Windows the list is joined into one command line and works | `Download.DownloadItemAsWritten` | `Download.DownloadItem` |
