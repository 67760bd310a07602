/** `download_content`: fetch every content URL in order, classify each
    response by its Content-Type, save it to a temporary file, convert TIFF
    to PDF, and return the list of local PDF files. */
module Download {
  import opened Wrappers
  import opened Failures
  import opened Web
  import opened Platform

  /** `sub` occurs in `s` starting at index `i`. */
  predicate OccursAt(s: string, sub: string, i: int) {
    0 <= i && i + |sub| <= |s| && s[i..i + |sub|] == sub
  }

  /** Python's `sub in s` on strings: is `sub` a prefix of `s`, or of `s`
      without its first character, and so on. */
  predicate Contains(s: string, sub: string)
    decreases |s|
  {
    (|sub| <= |s| && s[..|sub|] == sub) || (|s| > 0 && Contains(s[1..], sub))
  }

  /** The scan finds `sub` exactly when it occurs somewhere in `s`. */
  lemma {:induction false} ContainsMeansOccurs(s: string, sub: string)
    ensures Contains(s, sub) <==> exists i :: OccursAt(s, sub, i)
    decreases |s|
  {
    if |sub| <= |s| && s[..|sub|] == sub {
      assert OccursAt(s, sub, 0);
    }
    if |s| > 0 {
      ContainsMeansOccurs(s[1..], sub);
      if Contains(s[1..], sub) {
        var i :| OccursAt(s[1..], sub, i);
        assert s[1..][i..i + |sub|] == s[i + 1..i + 1 + |sub|];
        assert OccursAt(s, sub, i + 1);
      }
    }
    if exists i :: OccursAt(s, sub, i) {
      var i :| OccursAt(s, sub, i);
      if i > 0 {
        assert s[1..][i - 1..i - 1 + |sub|] == s[i..i + |sub|];
        assert OccursAt(s[1..], sub, i - 1);
      } else {
        assert s[..|sub|] == sub;
      }
    }
  }

  datatype FileType = Pdf | Tiff

  /** The suffix of the temporary file a response of this type is saved to. */
  function Extension(t: FileType): string {
    match t
    case Pdf => ".pdf"
    case Tiff => ".tif"
  }

  /** The if/elif chain on the Content-Type header: "pdf" is tested first,
      then "tiff"; anything else raises. */
  function Classify(contentType: string): (r: Result<FileType, Failure>)
    ensures r == Success(Pdf) <==> Contains(contentType, "pdf")
    ensures r == Success(Tiff) <==> !Contains(contentType, "pdf") && Contains(contentType, "tiff")
    ensures r.Failure? <==> !Contains(contentType, "pdf") && !Contains(contentType, "tiff")
    ensures r.Failure? ==> r.error == UnexpectedContentFileType(contentType)
  {
    if Contains(contentType, "pdf") then Success(Pdf)
    else if Contains(contentType, "tiff") then Success(Tiff)
    else Failure(UnexpectedContentFileType(contentType))
  }

  /** A header that holds no 'p' cannot name pdf, and one without 'f' cannot name tiff. */
  lemma MissingLetterExcludes(s: string, sub: string, c: char)
    requires c in sub && c !in s
    ensures !Contains(s, sub)
  {
    ContainsMeansOccurs(s, sub);
    var j :| 0 <= j < |sub| && sub[j] == c;
    forall i
      ensures !OccursAt(s, sub, i)
    {
      if 0 <= i && i + |sub| <= |s| {
        assert s[i..i + |sub|][j] == s[i + j];
        assert s[i + j] in s;
      }
    }
  }

  lemma OccursContains(s: string, sub: string, i: int)
    requires OccursAt(s, sub, i)
    ensures Contains(s, sub)
  {
    ContainsMeansOccurs(s, sub);
  }

  /** A header in which "pdf" occurs is saved as PDF, even when "tiff" occurs too. */
  lemma ClassifyPdfHeader(contentType: string, i: int)
    requires OccursAt(contentType, "pdf", i)
    ensures Classify(contentType) == Success(Pdf)
  {
    OccursContains(contentType, "pdf", i);
  }

  /** A header in which "tiff" occurs and that holds no 'p' (so no "pdf"),
      such as "image/tiff", is saved as TIFF. */
  lemma ClassifyTiffHeader(contentType: string, i: int)
    requires OccursAt(contentType, "tiff", i) && 'p' !in contentType
    ensures Classify(contentType) == Success(Tiff)
  {
    MissingLetterExcludes(contentType, "pdf", 'p');
    OccursContains(contentType, "tiff", i);
  }

  /** A header with neither 'p' nor 'f', such as "text/html", raises with the header as the message. */
  lemma ClassifyOtherHeader(contentType: string)
    requires 'p' !in contentType && 'f' !in contentType
    ensures Classify(contentType) == Failure(UnexpectedContentFileType(contentType))
  {
    MissingLetterExcludes(contentType, "pdf", 'p');
    MissingLetterExcludes(contentType, "tiff", 'f');
  }

  /** How the loop body treats one response: the Content-Type header decides;
      the status is only printed, so it plays no part. A response without the
      header fails before any file is made (the header lookup raises). */
  function ItemType(response: Response): (r: Result<FileType, Failure>)
    ensures response.contentType.None? <==> r == Failure(MissingContentType)
    ensures r == Success(Pdf) <==> response.contentType.Some? && Contains(response.contentType.value, "pdf")
    ensures r == Success(Tiff) <==>
      response.contentType.Some? && !Contains(response.contentType.value, "pdf")
      && Contains(response.contentType.value, "tiff")
    ensures response.contentType.Some? && r.Failure? ==>
      r.error == UnexpectedContentFileType(response.contentType.value)
  {
    match response.contentType
    case None => Failure(MissingContentType)
    case Some(contentType) => Classify(contentType)
  }

  /** A non-success status does not skip the item: its classification depends
      on the Content-Type alone. */
  lemma StatusIgnored(response: Response, status: int)
    ensures ItemType(response.(status := status)) == ItemType(response)
  {
  }

  /** The name of the raw TIFF file a converted path was made from. */
  function RawOf(converted: Path): Path
    requires EndsWith(converted, ".pdf")
  {
    converted[..|converted| - 4]
  }

  /** What the local path kept for an item of type `t` looks like: the
      temporary file itself for a PDF, the temporary ".tif" name with ".pdf"
      appended for a TIFF. */
  predicate Tracks(path: Path, t: FileType) {
    match t
    case Pdf => EndsWith(path, ".pdf")
    case Tiff => EndsWith(path, ".tif.pdf")
  }

  /** The programs started for an item of type `t` kept at `path`. */
  function ItemCommands(path: Path, t: FileType): seq<seq<string>>
    requires Tracks(path, t)
  {
    match t
    case Pdf => []
    case Tiff => [ConvertArgv(RawOf(path), path)]
  }

  lemma ConvertedName(raw: Path)
    requires EndsWith(raw, ".tif")
    ensures Tracks(raw + ".pdf", Tiff) && RawOf(raw + ".pdf") == raw
  {
    var p := raw + ".pdf";
    assert p[|p| - 8..] == raw[|raw| - 4..] + ".pdf";
    assert p[..|p| - 4] == raw;
  }

  /** The temporary files the round for an item of type `t` kept at `path`
      removes: none for a PDF, the raw ".tif" file for a TIFF. */
  function ItemRemoved(path: Path, t: FileType): set<Path>
    requires Tracks(path, t)
  {
    match t
    case Pdf => {}
    case Tiff => {RawOf(path)}
  }

  /** One round of the loop: fetch `url`, save the response to a temporary
      file and, for TIFF, convert it with `convert <raw> <raw>.pdf` run
      directly and remove the raw file. On success exactly one new file exists:
      the returned path, which holds the content fetched from `url`. */
  method DownloadItem(get: Get, url: Url, host: Host) returns (r: Result<Path, Failure>)
    modifies host
    ensures r.Failure? <==> ItemType(get(url)).Failure?
    ensures r.Failure? ==>
      && r.error == ItemType(get(url)).error
      && host.files == old(host.files) && host.commands == old(host.commands) && host.sources == old(host.sources)
    ensures r.Success? ==>
      && Tracks(r.value, ItemType(get(url)).value)
      && r.value !in old(host.files)
      && host.files == old(host.files) + {r.value}
      && host.commands == old(host.commands) + ItemCommands(r.value, ItemType(get(url)).value)
      && ItemRemoved(r.value, ItemType(get(url)).value) !! old(host.files)
      && host.sources == old(host.sources)[r.value := [url]] - ItemRemoved(r.value, ItemType(get(url)).value)
  {
    var response := get(url);
    var kind := ItemType(response);
    if kind.Failure? {
      return Failure(kind.error);
    }
    var fileType := kind.value;
    var tempFile := host.NamedTemporaryFile(Extension(fileType), url);
    if fileType == Tiff {
      var convertTarget := tempFile + ".pdf";
      host.Exec(ConvertArgv(tempFile, convertTarget));
      var removed := host.Remove(tempFile);
      ConvertedName(tempFile);
      r := Success(convertTarget);
    } else {
      r := Success(tempFile);
    }
  }

  /** The round as the source writes it: `convert` is started through
      `Popen(..., shell=True)`, which on POSIX runs the bare word "convert"
      without operands. The raw file is still removed and the ".pdf" name is
      still returned, but no file of that name exists. */
  method DownloadItemAsWritten(get: Get, url: Url, host: Host) returns (r: Result<Path, Failure>)
    modifies host
    ensures r.Failure? <==> ItemType(get(url)).Failure?
    ensures r.Success? && ItemType(get(url)).value == Tiff ==>
      && r.value !in host.files
      && host.files == old(host.files)
      && host.commands == old(host.commands) + [["convert"]]
  {
    var response := get(url);
    var kind := ItemType(response);
    if kind.Failure? {
      return Failure(kind.error);
    }
    var fileType := kind.value;
    var tempFile := host.NamedTemporaryFile(Extension(fileType), url);
    if fileType == Tiff {
      var convertTarget := tempFile + ".pdf";
      host.ExecShell(ConvertArgv(tempFile, convertTarget));
      var removed := host.Remove(tempFile);
      r := Success(convertTarget);
    } else {
      r := Success(tempFile);
    }
  }

  /** Every item before `k` has a content type the loop accepts. */
  ghost predicate TypedUpTo(get: Get, urls: seq<Url>, k: nat)
    requires k <= |urls|
  {
    forall i :: 0 <= i < k ==> ItemType(get(urls[i])).Success?
  }

  predicate Distinct(paths: seq<Path>) {
    forall i, j :: 0 <= i < j < |paths| ==> paths[i] != paths[j]
  }

  /** The programs started for the first `|paths|` items, in order. */
  ghost function Conversions(get: Get, urls: seq<Url>, paths: seq<Path>): seq<seq<string>>
    requires |paths| <= |urls| && TypedUpTo(get, urls, |paths|)
    requires forall i :: 0 <= i < |paths| ==> Tracks(paths[i], ItemType(get(urls[i])).value)
    decreases |paths|
  {
    if paths == [] then []
    else
      var k := |paths| - 1;
      Conversions(get, urls, paths[..k]) + ItemCommands(paths[k], ItemType(get(urls[k])).value)
  }

  /** The set of paths listed. */
  function Members(paths: seq<Path>): set<Path> {
    set p | p in paths
  }

  /** The state after the first `|localFiles|` rounds: each of those items
      was accepted and is kept, in order, at a distinct path of the right
      shape that did not exist before; the files on disk are those that
      existed before plus exactly the listed paths; and the programs started
      are the conversions of the TIFF items, in order. */
  ghost predicate Downloaded(get: Get, contentUrls: seq<Url>, localFiles: seq<Path>,
                             files0: set<Path>, files: set<Path>,
                             commands0: seq<seq<string>>, commands: seq<seq<string>>)
  {
    && |localFiles| <= |contentUrls|
    && TypedUpTo(get, contentUrls, |localFiles|)
    && (forall i :: 0 <= i < |localFiles| ==> Tracks(localFiles[i], ItemType(get(contentUrls[i])).value))
    && Distinct(localFiles)
    && (forall i :: 0 <= i < |localFiles| ==> localFiles[i] !in files0)
    && files == files0 + Members(localFiles)
    && commands == commands0 + Conversions(get, contentUrls, localFiles)
  }

  lemma MembersSnoc(paths: seq<Path>, path: Path)
    ensures Members(paths + [path]) == Members(paths) + {path}
  {
  }

  /** Conversions are logged in item order: a further item adds its own at the end. */
  lemma ConversionsSnoc(get: Get, contentUrls: seq<Url>, paths: seq<Path>, path: Path)
    requires |paths| < |contentUrls| && TypedUpTo(get, contentUrls, |paths| + 1)
    requires forall i :: 0 <= i < |paths| ==> Tracks(paths[i], ItemType(get(contentUrls[i])).value)
    requires Tracks(path, ItemType(get(contentUrls[|paths|])).value)
    ensures forall i :: 0 <= i < |paths + [path]| ==> Tracks((paths + [path])[i], ItemType(get(contentUrls[i])).value)
    ensures Conversions(get, contentUrls, paths + [path])
         == Conversions(get, contentUrls, paths) + ItemCommands(path, ItemType(get(contentUrls[|paths|])).value)
  {
    assert (paths + [path])[..|paths|] == paths;
  }

  /** Each listed file holds the content fetched from the URL at its index:
      which file belongs to which URL, and so their order. */
  ghost predicate HoldItems(sources: map<Path, seq<Url>>, localFiles: seq<Path>, contentUrls: seq<Url>) {
    && |localFiles| <= |contentUrls|
    && forall i :: 0 <= i < |localFiles| ==> Content(sources, localFiles[i]) == [contentUrls[i]]
  }

  /** A further item kept at a new path, holding its URL's content, leaves the
      earlier files' content alone, even when the round removes files that did
      not exist before it. */
  lemma HoldItemsStep(sources: map<Path, seq<Url>>, localFiles: seq<Path>, contentUrls: seq<Url>,
                      files: set<Path>, path: Path, removed: set<Path>)
    requires HoldItems(sources, localFiles, contentUrls) && |localFiles| < |contentUrls|
    requires Members(localFiles) <= files && path !in files && path !in removed && removed !! files
    ensures HoldItems(sources[path := [contentUrls[|localFiles|]]] - removed, localFiles + [path], contentUrls)
  {
    var next := localFiles + [path];
    var after := sources[path := [contentUrls[|localFiles|]]] - removed;
    forall i | 0 <= i < |next| ensures Content(after, next[i]) == [contentUrls[i]] {
      if i < |localFiles| {
        assert next[i] == localFiles[i] && localFiles[i] in Members(localFiles);
      }
    }
  }

  /** One more accepted item, kept at a new path, keeps the state consistent. */
  lemma DownloadedStep(get: Get, contentUrls: seq<Url>, localFiles: seq<Path>,
                       files0: set<Path>, files: set<Path>,
                       commands0: seq<seq<string>>, commands: seq<seq<string>>, path: Path)
    requires Downloaded(get, contentUrls, localFiles, files0, files, commands0, commands)
    requires |localFiles| < |contentUrls|
    requires ItemType(get(contentUrls[|localFiles|])).Success?
    requires Tracks(path, ItemType(get(contentUrls[|localFiles|])).value)
    requires path !in files
    ensures Downloaded(get, contentUrls, localFiles + [path], files0, files + {path}, commands0,
                       commands + ItemCommands(path, ItemType(get(contentUrls[|localFiles|])).value))
  {
    var next := localFiles + [path];
    assert TypedUpTo(get, contentUrls, |next|);
    ConversionsSnoc(get, contentUrls, localFiles, path);
    MembersSnoc(localFiles, path);
    assert Distinct(next) by {
      assert forall i :: 0 <= i < |localFiles| ==> localFiles[i] in files;
    }
    assert forall i :: 0 <= i < |next| ==> next[i] !in files0;
  }

  /** `download_content`. Returns the local files made so far and, when an item
      raised, the error: the loop stops there, before any temporary file exists
      for that item, and the files of the earlier items stay on disk. On
      normal completion there is one local file per URL, in URL order (each
      file holds the content of the URL at its index), and the new files on
      disk are exactly the listed ones. */
  method DownloadContent(get: Get, contentUrls: seq<Url>, host: Host)
    returns (localFiles: seq<Path>, err: Outcome<Failure>)
    modifies host
    ensures Downloaded(get, contentUrls, localFiles, old(host.files), host.files, old(host.commands), host.commands)
    ensures HoldItems(host.sources, localFiles, contentUrls)
    ensures err.Pass? <==> |localFiles| == |contentUrls|
    ensures err.Fail? ==> ItemType(get(contentUrls[|localFiles|])) == Failure(err.error)
  {
    localFiles := [];
    err := Pass;
    var i := 0;
    assert Members(localFiles) == {};
    while i < |contentUrls|
      invariant i == |localFiles|
      invariant Downloaded(get, contentUrls, localFiles, old(host.files), host.files, old(host.commands), host.commands)
      invariant HoldItems(host.sources, localFiles, contentUrls)
    {
      ghost var files, commands, sources := host.files, host.commands, host.sources;
      var item := DownloadItem(get, contentUrls[i], host);
      if item.Failure? {
        err := Fail(item.error);
        return;
      }
      DownloadedStep(get, contentUrls, localFiles, old(host.files), files,
                     old(host.commands), commands, item.value);
      HoldItemsStep(sources, localFiles, contentUrls, files, item.value,
                    ItemRemoved(item.value, ItemType(get(contentUrls[i])).value));
      localFiles := localFiles + [item.value];
      i := i + 1;
    }
  }
}
