/** `handle_cli_installation`: the dispatch from the parsed options to the
    exit code, the installer requests made and the archive removed. */
module Installation {
  import opened PhpValues
  import opened CliArgs
  import opened Editions
  import opened DistFiles
  import opened RequestParams
  import opened RequestContext

  /** The file system as the script observes it: what each glob pattern
      matches (at the moment the script looks), and the names present in the
      working directory when an unpacked archive is cleaned up. */
  datatype FileSystem = FileSystem(glob: Pattern -> seq<Entry>, workingDirFiles: set<string>)

  /** An installer request: the download of the edition at `url`, or the
      unpacking of the archive `filename`. */
  datatype Request = LoadRequest(url: string) | UnpackRequest(filename: string)

  /** One call of `simulate_request`: the request made, and whether the
      installer's output was captured instead of printed. */
  datatype Call = Call(request: Request, suppressOutput: bool)

  /** The parameter array a request hands to the installer. */
  function ParamsOf(opts: Options, request: Request): Params {
    match request
    case LoadRequest(url) => LoadParams(opts, url)
    case UnpackRequest(f) => UnpackParams(f, opts.lang)
  }

  /** The log entries `calls` leave: each request's parameter array and
      whether its output was captured, in order. */
  function Sent(opts: Options, calls: seq<Call>): (log: seq<(Params, bool)>)
    ensures |log| == |calls|
    decreases |calls|
  {
    if calls == [] then []
    else
      var n := |calls| - 1;
      Sent(opts, calls[..n]) + [(ParamsOf(opts, calls[n].request), calls[n].suppressOutput)]
  }

  /** Entry `k` of the log is the parameter array and the capture flag of
      call `k`. */
  lemma {:induction false} SentEntries(opts: Options, calls: seq<Call>)
    ensures forall k :: 0 <= k < |calls| ==>
      Sent(opts, calls)[k] == (ParamsOf(opts, calls[k].request), calls[k].suppressOutput)
    decreases |calls|
  {
    if calls != [] {
      var n := |calls| - 1;
      SentEntries(opts, calls[..n]);
      assert forall k :: 0 <= k < n ==> calls[..n][k] == calls[k];
    }
  }

  /** Appending a call appends its log entry. */
  lemma SentSnoc(opts: Options, calls: seq<Call>, c: Call)
    ensures Sent(opts, calls + [c]) == Sent(opts, calls) + [(ParamsOf(opts, c.request), c.suppressOutput)]
  {
    assert (calls + [c])[..|calls|] == calls;
  }

  /** A log that matched `calls` and then received the entry of `c` matches
      `calls + [c]`. */
  lemma LoggedCall(opts: Options, start: seq<(Params, bool)>, mid: seq<(Params, bool)>,
                   log: seq<(Params, bool)>, calls: seq<Call>, c: Call)
    requires mid == start + Sent(opts, calls)
    requires log == mid + [(ParamsOf(opts, c.request), c.suppressOutput)]
    ensures log == start + Sent(opts, calls + [c])
  {
    SentSnoc(opts, calls, c);
    SeqAssoc(start, Sent(opts, calls), [(ParamsOf(opts, c.request), c.suppressOutput)]);
  }

  /** What a run decides: the exit code, the installer calls in order, the
      archive deleted from the working directory, and the lines `list` prints. */
  datatype Outcome = Outcome(exitCode: int, calls: seq<Call>, deleted: Option<string>, listed: seq<(string, string)>)

  /** The actions the `switch` distinguishes. */
  datatype Action = List | Install | Unpack | Unknown

  /** `$options['action'] ?: 'install'` followed by the `switch`, which
      compares loosely: a bare `--action` holds `true`, which equals the first
      case label, 'list'; the strings "" and "0" are falsy and mean install. */
  function ResolveAction(action: Value): (a: Action)
    ensures action == True ==> a == List
    ensures action.Str? ==>
      (a == Install <==> action.s in {"", "0", "install", "load"}) &&
      (a == List <==> action.s == "list") &&
      (a == Unpack <==> action.s == "unpack")
  {
    match action
    case True => List
    case Int(n) => if n == 0 then Install else Unknown
    case Str(s) =>
      var chosen := if s == "" || s == "0" then "install" else s;
      if chosen == "list" then List
      else if chosen == "install" || chosen == "load" then Install
      else if chosen == "unpack" then Unpack
      else Unknown
  }

  /** The patterns searched for the archive after a download with `--auto`:
      the edition's own name first, then every archive or partial download. */
  function EditionArchive(base: string): Pattern { Pattern(DocumentRoot, base + "*.tar.gz") }
  const AnyArchive: Pattern := Pattern(DocumentRoot, "*.tar.gz")
  const AnyPartialArchive: Pattern := Pattern(DocumentRoot, "*.tar.gz.tmp")

  /** The patterns of the `unpack` action, in the order they are tried. */
  function UnpackPatterns(base: string): (patterns: seq<Pattern>)
    ensures |patterns| == 4
    ensures forall i :: 0 <= i < 4 ==> patterns[i].dir == WorkingDir
  {
    [Pattern(WorkingDir, base + "*.tar.gz"),
     Pattern(WorkingDir, base + "*encode*.tar.gz"),
     Pattern(WorkingDir, base + "*source*.tar.gz"),
     Pattern(WorkingDir, "*.tar.gz")]
  }

  /** The candidates after a download: the edition's archives, or else all
      archives and partial downloads together. */
  function AutoUnpackCandidates(fs: FileSystem, base: string): seq<Entry> {
    var found := fs.glob(EditionArchive(base));
    if found == [] then fs.glob(AnyArchive) + fs.glob(AnyPartialArchive) else found
  }

  /** The archive the `unpack` action picks: the ordered search, then any
      archive in the document root. */
  function UnpackChoice(fs: FileSystem, base: string): Option<string> {
    var found := FirstNewest(fs.glob, UnpackPatterns(base));
    if found.Some? then found else Newest(fs.glob(AnyArchive))
  }

  /** Unpacking the chosen archive after the calls already made, or failing
      when there is none. The archive is deleted when it is in the working
      directory. */
  function UnpackStep(opts: Options, fs: FileSystem, before: seq<Call>, choice: Option<string>): (r: Outcome)
    ensures r.exitCode == (if choice.Some? then 0 else 1) && r.listed == []
    ensures |r.calls| == |before| + (if choice.Some? then 1 else 0)
    ensures forall i :: 0 <= i < |before| ==> r.calls[i] == before[i]
    ensures choice.Some? ==> r.calls[|before|] == Call(UnpackRequest(choice.value), !opts.verbose)
    ensures r.deleted.Some? <==> choice.Some? && choice.value in fs.workingDirFiles
    ensures r.deleted.Some? ==> r.deleted == choice
  {
    match choice
    case None => Outcome(1, before, None, [])
    case Some(f) =>
      Outcome(0, before + [Call(UnpackRequest(f), !opts.verbose)],
        if f in fs.workingDirFiles then Some(f) else None, [])
  }

  /** `install` and `load`: download the edition, and with `--auto` unpack
      the newest candidate archive. */
  function InstallOutcome(opts: Options, url: string, fs: FileSystem): (r: Outcome)
    ensures (r.exitCode == 0 || r.exitCode == 1) && r.listed == []
    ensures 1 <= |r.calls| <= 2 && r.calls[0] == Call(LoadRequest(url), !opts.verbose)
    ensures |r.calls| == 2 ==>
      opts.auto && r.exitCode == 0 && r.calls[1].request.UnpackRequest? &&
      (r.deleted.Some? <==> r.calls[1].request.filename in fs.workingDirFiles)
    ensures r.deleted.Some? ==>
      r.exitCode == 0 && r.deleted.value in fs.workingDirFiles &&
      |r.calls| == 2 && r.calls[1].request == UnpackRequest(r.deleted.value)
  {
    var load := [Call(LoadRequest(url), !opts.verbose)];
    if !opts.auto then Outcome(0, load, None, [])
    else
      var candidates := AutoUnpackCandidates(fs, Basename(url));
      if candidates == [] then Outcome(1, load, None, [])
      else UnpackStep(opts, fs, load, Newest(candidates))
  }

  /** The edition is available and the language is recorded in the request
      globals before the action runs. */
  predicate Validated(opts: Options) {
    !opts.help && EditionPath(opts.lang, opts.edition).Some?
  }

  /** The `switch` on the action, once the edition's path `url` is known. */
  function ActionOutcome(opts: Options, url: string, fs: FileSystem): (r: Outcome)
    ensures r.exitCode == 0 || r.exitCode == 1
    ensures |r.calls| <= 2
    ensures r.listed != [] ==> r.exitCode == 0 && r.calls == []
    ensures r.deleted.Some? ==>
      r.exitCode == 0 && r.deleted.value in fs.workingDirFiles &&
      r.calls != [] && r.calls[|r.calls| - 1].request == UnpackRequest(r.deleted.value)
    ensures r.calls != [] && r.calls[|r.calls| - 1].request.UnpackRequest? ==>
      r.exitCode == 0 &&
      (r.deleted.Some? <==> r.calls[|r.calls| - 1].request.filename in fs.workingDirFiles)
  {
    match ResolveAction(opts.action)
    case List => Outcome(0, [], None, Listing(opts.lang))
    case Install => InstallOutcome(opts, url, fs)
    case Unpack => UnpackStep(opts, fs, [], UnpackChoice(fs, Basename(url)))
    case Unknown => Outcome(1, [], None, [])
  }

  /** The whole decision of `handle_cli_installation`. */
  function CliOutcome(opts: Options, fs: FileSystem): (r: Outcome)
    ensures r.exitCode == 0 || r.exitCode == 1
    ensures opts.help ==> r == Outcome(0, [], None, [])
    ensures !Validated(opts) && !opts.help ==> r == Outcome(1, [], None, [])
    ensures |r.calls| <= 2
    ensures r.listed != [] ==> r.exitCode == 0 && r.calls == []
    ensures r.deleted.Some? ==>
      r.exitCode == 0 && r.deleted.value in fs.workingDirFiles &&
      r.calls != [] && r.calls[|r.calls| - 1].request == UnpackRequest(r.deleted.value)
    ensures r.calls != [] && r.calls[|r.calls| - 1].request.UnpackRequest? ==>
      r.exitCode == 0 &&
      (r.deleted.Some? <==> r.calls[|r.calls| - 1].request.filename in fs.workingDirFiles)
  {
    if opts.help then Outcome(0, [], None, [])
    else
      match EditionPath(opts.lang, opts.edition)
      case None => Outcome(1, [], None, [])
      case Some(url) => ActionOutcome(opts, url, fs)
  }

  /** The process exit code for the arguments `argv`. */
  function ExitStatus(argv: seq<string>, fs: FileSystem): int {
    CliOutcome(ParseArgs(argv), fs).exitCode
  }

  /** The names left in the working directory after the run. */
  function RemainingFiles(fs: FileSystem, r: Outcome): set<string> {
    if r.deleted.Some? then fs.workingDirFiles - {r.deleted.value} else fs.workingDirFiles
  }

  /** `handle_cli_installation` step by step: it records the language in the
      request globals, calls the installer through `simulate_request` and
      searches for the archive with the loops of DistFiles. The request
      globals end as they were except for the recorded language. */
  method HandleCliInstallation(opts: Options, ctx: Context, fs: FileSystem, scriptDir: string)
    returns (exitCode: int, calls: seq<Call>, deleted: Option<string>, listed: seq<(string, string)>)
    modifies ctx
    ensures Outcome(exitCode, calls, deleted, listed) == CliOutcome(opts, fs)
    ensures Validated(opts) ==>
      ctx.get == old(ctx.get)["lang" := opts.lang] &&
      ctx.request == old(ctx.request)["lang" := opts.lang] &&
      ctx.post == old(ctx.post)["lang" := opts.lang]
    ensures !Validated(opts) ==> ctx.State() == old(ctx.State())
    ensures ctx.server == old(ctx.server) && ctx.env == old(ctx.env)
    ensures ctx.log == old(ctx.log) + Sent(opts, calls)
  {
    calls, deleted, listed := [], None, [];
    if opts.help {
      return 0, calls, deleted, listed;
    }
    var available := EditionsByLanguage(opts.lang);
    if !(opts.edition.Str? && opts.edition.s in available) {
      return 1, calls, deleted, listed;
    }
    ctx.SetLanguage(opts.lang);
    var editionUrl := available[opts.edition.s];

    match ResolveAction(opts.action)
    case List =>
      listed := Listing(opts.lang);
      exitCode := 0;
    case Install =>
      exitCode, calls, deleted := RunInstall(opts, editionUrl, ctx, fs, scriptDir);
    case Unpack =>
      exitCode, calls, deleted := RunUnpack(opts, editionUrl, ctx, fs, scriptDir);
    case Unknown =>
      exitCode := 1;
  }

  /** The `install` / `load` branch. */
  method RunInstall(opts: Options, editionUrl: string, ctx: Context, fs: FileSystem, scriptDir: string)
    returns (exitCode: int, calls: seq<Call>, deleted: Option<string>)
    modifies ctx
    ensures Outcome(exitCode, calls, deleted, []) == InstallOutcome(opts, editionUrl, fs)
    ensures ctx.State() == old(ctx.State())
    ensures ctx.log == old(ctx.log) + Sent(opts, calls)
  {
    var suppress := !opts.verbose;
    var output: string;
    ghost var seen: Globals;
    var params := LoadParams(opts, editionUrl);
    assert old(ctx.log) == old(ctx.log) + Sent(opts, []);
    output, seen := ctx.SimulateRequest(params, suppress, scriptDir);
    var load := Call(LoadRequest(editionUrl), suppress);
    LoggedCall(opts, old(ctx.log), old(ctx.log), ctx.log, [], load);
    calls := [] + [load];
    if opts.auto {
      var distFile := FindDownloaded(fs, Basename(editionUrl));
      exitCode, calls, deleted := UnpackArchive(opts, ctx, fs, scriptDir, calls, old(ctx.log), distFile);
    } else {
      exitCode, deleted := 0, None;
    }
  }

  /** The search after a download with `--auto`: the newest of the
      edition's archives, or else of all archives and partial downloads. */
  method FindDownloaded(fs: FileSystem, base: string) returns (distFile: Option<string>)
    ensures distFile == Newest(AutoUnpackCandidates(fs, base))
    ensures distFile.None? <==> NoPositiveTime(AutoUnpackCandidates(fs, base))
  {
    var distFiles := fs.glob(EditionArchive(base));
    if distFiles == [] {
      distFiles := fs.glob(AnyArchive) + fs.glob(AnyPartialArchive);
    }
    if distFiles == [] {
      return None;
    }
    distFile := SelectNewest(distFiles);
  }

  /** Unpacking the chosen archive after the calls in `before`, whose log
      entries follow `start`: one UNPACK request, then the removal of the
      archive from the working directory; no archive is a failure. */
  method UnpackArchive(opts: Options, ctx: Context, fs: FileSystem, scriptDir: string,
                       before: seq<Call>, ghost start: seq<(Params, bool)>, distFile: Option<string>)
    returns (exitCode: int, calls: seq<Call>, deleted: Option<string>)
    requires ctx.log == start + Sent(opts, before)
    modifies ctx
    ensures Outcome(exitCode, calls, deleted, []) == UnpackStep(opts, fs, before, distFile)
    ensures ctx.State() == old(ctx.State())
    ensures ctx.log == start + Sent(opts, calls)
  {
    if distFile.None? {
      return 1, before, None;
    }
    var params := UnpackParams(distFile.value, opts.lang);
    var output: string;
    ghost var seen: Globals;
    output, seen := ctx.SimulateRequest(params, !opts.verbose, scriptDir);
    var unpack := Call(UnpackRequest(distFile.value), !opts.verbose);
    LoggedCall(opts, start, old(ctx.log), ctx.log, before, unpack);
    calls := before + [unpack];
    deleted := if distFile.value in fs.workingDirFiles then distFile else None;
    exitCode := 0;
  }

  /** The `unpack` branch. */
  method RunUnpack(opts: Options, editionUrl: string, ctx: Context, fs: FileSystem, scriptDir: string)
    returns (exitCode: int, calls: seq<Call>, deleted: Option<string>)
    modifies ctx
    ensures Outcome(exitCode, calls, deleted, []) == UnpackStep(opts, fs, [], UnpackChoice(fs, Basename(editionUrl)))
    ensures ctx.State() == old(ctx.State())
    ensures ctx.log == old(ctx.log) + Sent(opts, calls)
  {
    var distFile := SearchPatterns(fs.glob, UnpackPatterns(Basename(editionUrl)));
    if distFile.None? {
      var allTarFiles := fs.glob(AnyArchive);
      if allTarFiles != [] {
        distFile := SelectNewest(allTarFiles);
      }
    }
    assert old(ctx.log) == old(ctx.log) + Sent(opts, []);
    exitCode, calls, deleted := UnpackArchive(opts, ctx, fs, scriptDir, [], old(ctx.log), distFile);
  }

  // ---------------------------------------------------------------------
  // Properties of the dispatch

  /** An empty (or "0") action is the same as `--action=install`, and `load`
      is the same as `install`. */
  lemma EmptyActionMeansInstall(opts: Options, fs: FileSystem)
    requires opts.action in {Str(""), Str("0"), Str("load")}
    ensures CliOutcome(opts, fs) == CliOutcome(opts.(action := Str("install")), fs)
  {
  }

  /** A bare `--action` lists the editions. */
  lemma BareActionLists(opts: Options, fs: FileSystem)
    requires opts.action == True
    ensures CliOutcome(opts, fs) == CliOutcome(opts.(action := Str("list")), fs)
  {
  }

  /** With an available edition, `list` succeeds, calls nothing and prints
      every edition of the language; an unknown action fails and calls nothing. */
  lemma ListAndUnknownActions(opts: Options, fs: FileSystem)
    requires Validated(opts)
    ensures ResolveAction(opts.action) == List ==>
      CliOutcome(opts, fs) == Outcome(0, [], None, Listing(opts.lang))
    ensures ResolveAction(opts.action) == Unknown ==>
      CliOutcome(opts, fs) == Outcome(1, [], None, [])
  {
  }

  /** Without `--auto`, `install` makes exactly the LOAD call and succeeds. */
  lemma InstallWithoutAutoLoadsOnly(opts: Options, fs: FileSystem)
    requires Validated(opts) && ResolveAction(opts.action) == Install && !opts.auto
    ensures var r := CliOutcome(opts, fs);
      r.exitCode == 0 && r.deleted == None &&
      r.calls == [Call(LoadRequest(EditionPath(opts.lang, opts.edition).value), !opts.verbose)] &&
      "action_next" !in ParamsOf(opts, r.calls[0].request)
  {
  }

  /** With an available edition, `install`/`load` and `unpack` run their
      branch on the edition's path. */
  lemma ValidatedRouting(opts: Options, fs: FileSystem)
    requires Validated(opts)
    ensures var url := EditionPath(opts.lang, opts.edition).value;
      (ResolveAction(opts.action) == Install ==> CliOutcome(opts, fs) == InstallOutcome(opts, url, fs)) &&
      (ResolveAction(opts.action) == Unpack ==>
        CliOutcome(opts, fs) == UnpackStep(opts, fs, [], UnpackChoice(fs, Basename(url))))
  {
  }

  /** With `--auto`, `install` fails after the download exactly when no
      candidate archive has a positive modification time. */
  lemma {:induction false} AutoInstallNeedsArchive(opts: Options, url: string, fs: FileSystem)
    requires opts.auto
    ensures var candidates := AutoUnpackCandidates(fs, Basename(url));
      InstallOutcome(opts, url, fs).exitCode == 1 <==> NoPositiveTime(candidates)
  {
    var candidates := AutoUnpackCandidates(fs, Basename(url));
    NewestIsNoneIff(candidates);
    if candidates == [] {
      assert NewestIndex(candidates) == None;
    }
  }

  /** When `install` with `--auto` succeeds, it has asked the installer to
      continue with UNPACK and has then unpacked the newest candidate. */
  lemma {:induction false} AutoInstallUnpacksNewest(opts: Options, url: string, fs: FileSystem)
    requires opts.auto && InstallOutcome(opts, url, fs).exitCode == 0
    ensures |InstallOutcome(opts, url, fs).calls| == 2
    ensures ParamsOf(opts, InstallOutcome(opts, url, fs).calls[0].request)["action_next"] == Str("UNPACK")
    ensures exists i ::
      IsNewest(AutoUnpackCandidates(fs, Basename(url)), i) &&
      InstallOutcome(opts, url, fs).calls[1].request == UnpackRequest(AutoUnpackCandidates(fs, Basename(url))[i].name)
  {
    var candidates := AutoUnpackCandidates(fs, Basename(url));
    var name := AutoInstallUnpacksChoice(opts, url, fs);
    ChosenIsNewestMember(candidates, name);
    var i :| IsNewest(candidates, i) && candidates[i].name == name;
    assert IsNewest(candidates, i) &&
      InstallOutcome(opts, url, fs).calls[1].request == UnpackRequest(candidates[i].name);
  }

  /** A successful `--auto` install unpacks the choice of the running maximum. */
  lemma AutoInstallUnpacksChoice(opts: Options, url: string, fs: FileSystem) returns (name: string)
    requires opts.auto && InstallOutcome(opts, url, fs).exitCode == 0
    ensures Newest(AutoUnpackCandidates(fs, Basename(url))) == Some(name)
    ensures |InstallOutcome(opts, url, fs).calls| == 2
    ensures InstallOutcome(opts, url, fs).calls[1].request == UnpackRequest(name)
  {
    name := Newest(AutoUnpackCandidates(fs, Basename(url))).value;
  }

  /** The arrays `install` hands to the installer, in order: the LOAD
      array for the edition, then, after a successful `--auto` search, the
      UNPACK array for the chosen archive; the output is captured unless
      `--verbose` is given. */
  lemma InstallSends(opts: Options, url: string, fs: FileSystem)
    ensures var r := InstallOutcome(opts, url, fs);
      var log := Sent(opts, r.calls);
      log[0] == (LoadParams(opts, url), !opts.verbose) &&
      (|log| == 2 ==> log[1] == (UnpackParams(r.calls[1].request.filename, opts.lang), !opts.verbose))
  {
    SentEntries(opts, InstallOutcome(opts, url, fs).calls);
  }

  /** `unpack` fails exactly when neither the ordered patterns nor the
      fallback glob yield an archive; otherwise it makes one UNPACK call, for
      the archive of the first pattern that yields one, or else for the
      fallback glob's newest archive. */
  lemma {:induction false} UnpackNeedsArchive(opts: Options, url: string, fs: FileSystem)
    ensures var r := UnpackStep(opts, fs, [], UnpackChoice(fs, Basename(url)));
      var patterns := UnpackPatterns(Basename(url));
      (r.exitCode == 1 <==>
        (forall k :: 0 <= k < 4 ==> Newest(fs.glob(patterns[k])).None?) &&
        NoPositiveTime(fs.glob(AnyArchive))) &&
      (forall k :: FirstHit(fs.glob, patterns, k) ==>
        r.calls == [Call(UnpackRequest(Newest(fs.glob(patterns[k])).value), !opts.verbose)]) &&
      ((forall k :: 0 <= k < 4 ==> Newest(fs.glob(patterns[k])).None?) &&
        Newest(fs.glob(AnyArchive)).Some? ==>
        r.calls == [Call(UnpackRequest(Newest(fs.glob(AnyArchive)).value), !opts.verbose)])
  {
    var patterns := UnpackPatterns(Basename(url));
    var choice := UnpackChoice(fs, Basename(url));
    FirstNewestIsFirstHit(fs.glob, patterns);
    NewestIndexIsNewest(fs.glob(AnyArchive));
    if forall k :: 0 <= k < 4 ==> Newest(fs.glob(patterns[k])).None? {
      assert choice == Newest(fs.glob(AnyArchive));
    } else {
      assert choice == FirstNewest(fs.glob, patterns) && choice.Some?;
    }
  }

  /** After a successful unpack, the unpacked archive is not left in the
      working directory. */
  lemma ArchiveGoneAfterUnpack(opts: Options, fs: FileSystem, f: string)
    requires var r := CliOutcome(opts, fs);
      r.exitCode == 0 && r.calls != [] && r.calls[|r.calls| - 1].request == UnpackRequest(f)
    ensures f !in RemainingFiles(fs, CliOutcome(opts, fs))
  {
  }

  // ---------------------------------------------------------------------
  // From the command line

  /** `--help` anywhere among the arguments: exit code 0 and no installer call. */
  lemma {:induction false} HelpAnywhereExitsZero(argv: seq<string>, i: nat, fs: FileSystem)
    requires i < |argv| && Names(argv[i], "help")
    ensures ExitStatus(argv, fs) == 0
    ensures CliOutcome(ParseArgs(argv), fs).calls == []
  {
    SwitchOnIffGiven(argv, "help");
  }

  /** An edition that is not a key of the language's table fails with exit
      code 1 before any installer call, whatever the action (`list` too). */
  lemma {:induction false} UnavailableEditionFails(argv: seq<string>, i: nat, edition: string, fs: FileSystem)
    requires i < |argv| && argv[i] == "--edition=" + edition
    requires Separator !in edition && edition !in EditionKeys
    requires forall j :: i < j < |argv| ==> !Names(argv[j], "edition")
    requires forall j :: 0 <= j < |argv| ==> !Names(argv[j], "help")
    ensures ExitStatus(argv, fs) == 1
    ensures CliOutcome(ParseArgs(argv), fs).calls == []
  {
    var prefix := "--" + "edition" + [Separator];
    assert forall k :: 0 <= k < |prefix| ==> prefix[k] == "--edition="[k];
    assert argv[i] == "--" + "edition" + [Separator] + edition + "";
    FlagWithValue("edition", edition, "");
    LastOccurrenceWins(argv, i, "edition");
    SwitchOnIffGiven(argv, "help");
  }
}
