/** The operating system the downloader runs on: the files on disk, temporary
    file names, and the two external programs it starts (`convert` and
    `pdftk`), modelled by their argument vectors and by the files they create. */
module Platform {
  import opened Wrappers
  import opened Failures
  import opened Web

  type Path = string

  predicate EndsWith(s: string, suffix: string) {
    |suffix| <= |s| && s[|s| - |suffix|..] == suffix
  }

  /** The argument vector that asks ImageMagick to convert `input` into `output`. */
  function ConvertArgv(input: Path, output: Path): seq<string> {
    ["convert", input, output]
  }

  /** How pdftk reads its argument vector: `pdftk <inputs> cat output <file>`. */
  predicate IsMergeArgv(argv: seq<string>) {
    |argv| >= 4 && argv[0] == "pdftk" && argv[|argv| - 3] == "cat" && argv[|argv| - 2] == "output"
  }

  function MergeInputs(argv: seq<string>): seq<Path>
    requires IsMergeArgv(argv)
  {
    argv[1..|argv| - 3]
  }

  function MergeOutput(argv: seq<string>): Path
    requires IsMergeArgv(argv)
  {
    argv[|argv| - 1]
  }

  /** `convert <input> <output>` with an existing input: it writes its output. */
  predicate ConvertRuns(argv: seq<string>, files: set<Path>) {
    |argv| == 3 && argv[0] == "convert" && argv[1] in files
  }

  /** `pdftk <inputs> cat output <file>` with every input existing: it writes its output. */
  predicate MergeRuns(argv: seq<string>, files: set<Path>) {
    IsMergeArgv(argv) && forall i :: 1 <= i < |argv| - 3 ==> argv[i] in files
  }

  /** The files a program run with `argv` creates when `files` exist: convert
      writes its output when its input exists, pdftk writes its output when
      every input exists; anything else (including convert without operands)
      creates nothing. */
  function ToolOutputs(argv: seq<string>, files: set<Path>): set<Path> {
    if ConvertRuns(argv, files) then {argv[2]}
    else if MergeRuns(argv, files) then {MergeOutput(argv)}
    else {}
  }

  /** The downloaded content a file holds, as the URLs whose response bodies
      went into it, in order; a file not written from a response holds none. */
  ghost function Content(sources: map<Path, seq<Url>>, p: Path): seq<Url> {
    if p in sources then sources[p] else []
  }

  /** The content of several files, one after another. */
  ghost function Concatenated(sources: map<Path, seq<Url>>, paths: seq<Path>): seq<Url> {
    if paths == [] then [] else Content(sources, paths[0]) + Concatenated(sources, paths[1..])
  }

  /** What the files hold after a program run with `argv`: convert's output
      holds its input's content, pdftk's output the content of its inputs in
      order (`cat` keeps their pages in that order); nothing else changes. */
  ghost function ToolSources(argv: seq<string>, files: set<Path>, sources: map<Path, seq<Url>>): map<Path, seq<Url>> {
    if ConvertRuns(argv, files) then sources[argv[2] := Content(sources, argv[1])]
    else if MergeRuns(argv, files) then sources[MergeOutput(argv) := Concatenated(sources, MergeInputs(argv))]
    else sources
  }

  /** What `subprocess.Popen(args, shell=True)` runs on POSIX: `/bin/sh -c args[0]
      args[1] ...`. The shell runs the command string `args[0]`; the other items
      only become the shell's `$0`, `$1`, ..., which a command string without
      `$` references never reads. For a one-word `args[0]` such as "convert",
      the program therefore runs with no operands. */
  function PosixShellRuns(args: seq<string>): seq<string>
    requires |args| > 0
  {
    [args[0]]
  }

  /** Started through the shell, the conversion creates no file; started
      directly, it creates its output, holding its input's content, whenever
      its input exists. */
  lemma ShellConvertCreatesNothing(input: Path, output: Path, files: set<Path>, sources: map<Path, seq<Url>>)
    ensures ToolOutputs(PosixShellRuns(ConvertArgv(input, output)), files) == {}
    ensures ToolSources(PosixShellRuns(ConvertArgv(input, output)), files, sources) == sources
    ensures input in files ==> ToolOutputs(ConvertArgv(input, output), files) == {output}
    ensures input in files ==>
      ToolSources(ConvertArgv(input, output), files, sources) == sources[output := Content(sources, input)]
  {
  }

  /** The length of the longest name in `names`. */
  ghost function Longest(names: set<Path>): (n: nat)
    ensures forall p :: p in names ==> |p| <= n
  {
    if names == {} then 0
    else
      var p :| p in names;
      var m := Longest(names - {p});
      if |p| > m then |p| else m
  }

  /** The disk (as the set of paths that exist), the log of every program
      started, in order, and, for the proofs, which downloaded content each
      file holds. */
  class Host {
    var files: set<Path>
    var commands: seq<seq<string>>
    ghost var sources: map<Path, seq<Url>>

    constructor (existing: set<Path>)
      ensures files == existing && commands == [] && sources == map[]
    {
      files := existing;
      commands := [];
      sources := map[];
    }

    /** `tempfile.NamedTemporaryFile(delete=False, suffix=suffix)`, written and
        closed: a new file whose name ends with `suffix`, holding the body of
        the response to `from`. The name is chosen abstractly; like tempfile's
        random names it does not exist yet, and neither does that name with
        ".pdf" appended. */
    method NamedTemporaryFile(suffix: string, ghost from: Url) returns (p: Path)
      modifies this
      ensures EndsWith(p, suffix)
      ensures p !in old(files) && p + ".pdf" !in old(files)
      ensures files == old(files) + {p} && commands == old(commands)
      ensures sources == old(sources)[p := [from]]
    {
      ghost var longer := seq(Longest(files) + 1, _ => 't') + suffix;
      assert EndsWith(longer, suffix);
      assert longer !in files && longer + ".pdf" !in files;
      p :| EndsWith(p, suffix) && p !in files && p + ".pdf" !in files;
      files := files + {p};
      sources := sources[p := [from]];
    }

    /** `subprocess.Popen(argv, shell=False).wait()`: the program runs to the end;
        its exit status is ignored. */
    method Exec(argv: seq<string>)
      modifies this
      ensures files == old(files) + ToolOutputs(argv, old(files))
      ensures commands == old(commands) + [argv]
      ensures sources == ToolSources(argv, old(files), old(sources))
    {
      sources := ToolSources(argv, files, sources);
      files := files + ToolOutputs(argv, files);
      commands := commands + [argv];
    }

    /** `subprocess.Popen(args, shell=True).wait()` on POSIX. */
    method ExecShell(args: seq<string>)
      requires |args| > 0
      modifies this
      ensures files == old(files) + ToolOutputs(PosixShellRuns(args), old(files))
      ensures commands == old(commands) + [PosixShellRuns(args)]
      ensures sources == ToolSources(PosixShellRuns(args), old(files), old(sources))
    {
      Exec(PosixShellRuns(args));
    }

    /** `os.remove(p)`. */
    method Remove(p: Path) returns (r: Outcome<Failure>)
      modifies this
      ensures r == if p in old(files) then Pass else Fail(FileNotFound(p))
      ensures files == old(files) - {p} && commands == old(commands)
      ensures sources == if r.Pass? then old(sources) - {p} else old(sources)
    {
      r := if p in files then Pass else Fail(FileNotFound(p));
      if r.Pass? {
        sources := sources - {p};
      }
      files := files - {p};
    }
  }
}
