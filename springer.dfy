/** `extract_content`: fetch the root page, dispatch on the document type
    (only "book" is known), collect the content URLs, download them, merge the
    local files with pdftk and remove them. */
module SpringerDl {
  import opened Wrappers
  import opened Failures
  import opened Web
  import opened Platform
  import opened BookExtract
  import opened Download

  /** The pdftk argument vector: "pdftk", the local files in download order,
      then "cat output <outputFile>". pdftk reads back exactly those inputs,
      in that order, and that output. */
  function MergeCommand(tempFiles: seq<Path>, outputFile: Path): (argv: seq<string>)
    ensures IsMergeArgv(argv)
    ensures MergeInputs(argv) == tempFiles && MergeOutput(argv) == outputFile
  {
    ["pdftk"] + tempFiles + ["cat", "output", outputFile]
  }

  /** The merge writes the output file exactly when every listed input
      exists, and the output then holds the inputs' content in list order. */
  lemma MergeCreatesOutput(tempFiles: seq<Path>, outputFile: Path, files: set<Path>, sources: map<Path, seq<Url>>)
    ensures ToolOutputs(MergeCommand(tempFiles, outputFile), files)
         == if Members(tempFiles) <= files then {outputFile} else {}
    ensures ToolSources(MergeCommand(tempFiles, outputFile), files, sources)
         == if Members(tempFiles) <= files then sources[outputFile := Concatenated(sources, tempFiles)] else sources
  {
    var argv := MergeCommand(tempFiles, outputFile);
    assert forall i :: 1 <= i < |argv| - 3 ==> argv[i] == tempFiles[i - 1];
    if !(Members(tempFiles) <= files) {
      var p :| p in tempFiles && p !in files;
      var j :| 0 <= j < |tempFiles| && tempFiles[j] == p;
      assert argv[j + 1] !in files;
    }
  }

  /** Merging one file per URL, each holding its URL's content, yields the
      content of the URLs in their order. */
  lemma {:induction false} ConcatenatedItems(sources: map<Path, seq<Url>>, paths: seq<Path>, urls: seq<Url>)
    requires HoldItems(sources, paths, urls) && |paths| == |urls|
    ensures Concatenated(sources, paths) == urls
  {
    if paths != [] {
      assert HoldItems(sources, paths[1..], urls[1..]) by {
        forall i | 0 <= i < |paths[1..]| ensures Content(sources, paths[1..][i]) == [urls[1..][i]] {
          assert paths[1..][i] == paths[i + 1] && urls[1..][i] == urls[i + 1];
        }
      }
      ConcatenatedItems(sources, paths[1..], urls[1..]);
      assert urls == [urls[0]] + urls[1..];
    }
  }

  /** The cleanup loop's effect on the disk: remove each path in turn; the
      first that does not exist raises and ends the loop. */
  function RemoveAll(files: set<Path>, paths: seq<Path>): (set<Path>, Outcome<Failure>) {
    if paths == [] then (files, Pass)
    else if paths[0] !in files then (files, Fail(FileNotFound(paths[0])))
    else RemoveAll(files - {paths[0]}, paths[1..])
  }

  /** Removing distinct existing files succeeds, leaves none of them, and
      touches nothing else. */
  lemma {:induction false} RemoveAllListed(files: set<Path>, paths: seq<Path>)
    requires Distinct(paths) && Members(paths) <= files
    ensures RemoveAll(files, paths) == (files - Members(paths), Pass)
  {
    if paths == [] {
      assert files - Members(paths) == files;
    } else {
      var rest := paths[1..];
      assert Members(paths) == {paths[0]} + Members(rest);
      assert Distinct(rest) by {
        forall i, j | 0 <= i < j < |rest| ensures rest[i] != rest[j] {
          assert rest[i] == paths[i + 1] && rest[j] == paths[j + 1];
        }
      }
      assert paths[0] !in Members(rest) by {
        forall i | 0 <= i < |rest| ensures rest[i] != paths[0] {
          assert rest[i] == paths[i + 1];
        }
      }
      RemoveAllListed(files - {paths[0]}, rest);
      assert (files - {paths[0]}) - Members(rest) == files - Members(paths);
    }
  }

  /** When one listed file does not exist, and the files before it do, the
      cleanup raises on that file. */
  lemma {:induction false} RemoveAllMissing(files: set<Path>, paths: seq<Path>, k: nat)
    requires Distinct(paths) && k < |paths| && paths[k] !in files
    requires forall i :: 0 <= i < k ==> paths[i] in files
    ensures RemoveAll(files, paths).1 == Fail(FileNotFound(paths[k]))
  {
    if k > 0 {
      var rest := paths[1..];
      forall i | 0 <= i < k - 1 ensures rest[i] in files - {paths[0]} {
        assert rest[i] == paths[i + 1];
      }
      assert rest[k - 1] == paths[k] && paths[k] != paths[0];
      RemoveAllMissing(files - {paths[0]}, rest, k - 1);
    }
  }

  /** The cleanup loop: `os.remove` of every local file, in order. */
  method Cleanup(host: Host, tempFiles: seq<Path>) returns (r: Outcome<Failure>)
    modifies host
    ensures (host.files, r) == RemoveAll(old(host.files), tempFiles)
    ensures host.commands == old(host.commands)
    ensures r.Pass? ==> host.sources == old(host.sources) - Members(tempFiles)
    ensures forall p :: p !in tempFiles ==> Content(host.sources, p) == Content(old(host.sources), p)
  {
    for i := 0 to |tempFiles|
      invariant RemoveAll(host.files, tempFiles[i..]) == RemoveAll(old(host.files), tempFiles)
      invariant host.commands == old(host.commands)
      invariant host.sources == old(host.sources) - Members(tempFiles[..i])
    {
      ghost var files := host.files;
      var removed := host.Remove(tempFiles[i]);
      if removed.Fail? {
        assert tempFiles[i..][0] == tempFiles[i] && host.files == files;
        return removed;
      }
      assert tempFiles[i..][1..] == tempFiles[i + 1..];
      assert Members(tempFiles[..i + 1]) == Members(tempFiles[..i]) + {tempFiles[i]} by {
        assert tempFiles[..i + 1] == tempFiles[..i] + [tempFiles[i]];
      }
    }
    assert tempFiles[|tempFiles|..] == [] && tempFiles[..|tempFiles|] == tempFiles;
    return Pass;
  }

  /** The root page names a book and its fetch did not raise. */
  predicate IsBookRoot(root: Response) {
    !RaisesForStatus(root.status) && root.page.documentType == Some("book")
  }

  /** `extract_content`. Errors from the root fetch and the document type
      stop the run before anything is downloaded. For a book, the content
      URLs are those of the page walk; a download error stops the run with the
      earlier temporary files left on disk; otherwise pdftk merges the local
      files in order into the output file and every local file is removed,
      leaving only the output file added to the disk. `tempFiles` names the
      local files the run made. */
  method ExtractContent(get: Get, join: Join, url: Url, outputFile: Path, host: Host, ghost n: nat)
    returns (r: Outcome<Failure>, ghost tempFiles: seq<Path>)
    requires IsBookRoot(get(url)) ==> EndsWithin(get, join, get(url).url, get(url).page, n)
    modifies host
    ensures RaisesForStatus(get(url).status) ==>
      r == Fail(HttpError(get(url).status)) && host.files == old(host.files) && host.commands == old(host.commands)
    ensures !RaisesForStatus(get(url).status) && get(url).page.documentType != Some("book") ==>
      && r == Fail(UnexpectedDocumentType(get(url).page.documentType))
      && host.files == old(host.files) && host.commands == old(host.commands)
    ensures IsBookRoot(get(url)) ==>
      var contentUrls := BookContent(get, join, get(url).url, get(url).page, n);
      && |tempFiles| <= |contentUrls| && TypedUpTo(get, contentUrls, |tempFiles|)
      && (forall i :: 0 <= i < |tempFiles| ==> Tracks(tempFiles[i], ItemType(get(contentUrls[i])).value))
      && Distinct(tempFiles)
      && (forall i :: 0 <= i < |tempFiles| ==> tempFiles[i] !in old(host.files))
      && (r.Pass? <==> |tempFiles| == |contentUrls|)
      && (r.Fail? ==>
            && ItemType(get(contentUrls[|tempFiles|])) == Failure(r.error)
            && HoldItems(host.sources, tempFiles, contentUrls)
            && host.files == old(host.files) + Members(tempFiles)
            && host.commands == old(host.commands) + Conversions(get, contentUrls, tempFiles))
      && (r.Pass? ==>
            && host.files == (old(host.files) + {outputFile}) - Members(tempFiles)
            && host.commands == old(host.commands) + Conversions(get, contentUrls, tempFiles)
                                + [MergeCommand(tempFiles, outputFile)]
            && (outputFile !in tempFiles ==> Content(host.sources, outputFile) == contentUrls))
  {
    tempFiles := [];
    var rootResponse := get(url);
    if RaisesForStatus(rootResponse.status) {
      return Fail(HttpError(rootResponse.status)), tempFiles;
    }

    var documentType := rootResponse.page.documentType;
    if documentType != Some("book") {
      return Fail(UnexpectedDocumentType(documentType)), tempFiles;
    }
    var contentUrls := ExtractBook(get, join, rootResponse.url, rootResponse.page, n);

    ghost var files0, commands0 := host.files, host.commands;
    var localFiles, downloadError := DownloadContent(get, contentUrls, host);
    tempFiles := localFiles;
    if downloadError.Fail? {
      return downloadError, tempFiles;
    }

    var mergeCommand := MergeCommand(localFiles, outputFile);
    ghost var downloaded, held := host.files, host.sources;
    host.Exec(mergeCommand);
    MergeCreatesOutput(localFiles, outputFile, downloaded, held);
    ConcatenatedItems(held, localFiles, contentUrls);
    assert host.files == downloaded + {outputFile};
    assert Content(host.sources, outputFile) == contentUrls;

    ghost var merged := host.files;
    r := Cleanup(host, localFiles);
    RemoveAllListed(merged, localFiles);
  }
}
