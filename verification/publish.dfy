/** The control flow of `main` (main.go:19-178): resolve the files, check the
    settings, query the existing names, run the upload loop. Environment
    reads, shell-word splitting, globbing and HTTP are inputs. */
module Publish {
  import opened Outcomes
  import opened Ordering
  import opened Dedupe
  import opened Naming
  import opened Registry
  import opened Upload

  /** The environment as main.go reads it. `patterns` is FILES after
      shell-word splitting (None when the string could not be split). */
  datatype Environment = Environment(
    reeveApi: string,
    patterns: Option<seq<string>>,
    apiUrl: string,
    apiUser: string,
    apiPassword: string,
    packageOwner: string,
    packageName: string,
    packageVersion: string,
    skipExisting: string)

  /** The outcome of expanding one pattern against the file system. */
  datatype GlobResult = Matches(paths: seq<string>) | GlobError

  /** The settings main.go:43-77 insists on, in the order it checks them. */
  datatype Setting = ApiUrl | ApiUser | ApiPassword | PackageOwner | PackageName | PackageVersion

  const REQUIRED_SETTINGS: seq<Setting> :=
    [ApiUrl, ApiUser, ApiPassword, PackageOwner, PackageName, PackageVersion]

  function Value(env: Environment, setting: Setting): string
  {
    match setting
    case ApiUrl => env.apiUrl
    case ApiUser => env.apiUser
    case ApiPassword => env.apiPassword
    case PackageOwner => env.packageOwner
    case PackageName => env.packageName
    case PackageVersion => env.packageVersion
  }

  /** Every fatal condition of main, each of which ends the process with
      exit status 1. */
  datatype Fatal =
    | NotInPipeline                                          // main.go:20-24
    | PatternListInvalid                                     // main.go:26-30
    | PatternInvalid(pattern: string)                        // main.go:33-37
    | MissingSetting(setting: Setting)                       // main.go:43-77
    | ListFailed(error: ListError)                           // main.go:84-110
    | UploadFailed(file: string, target: string, response: PutResponse)  // main.go:128-149

  /** The first of `settings` whose value is empty, if any. */
  function FirstMissing(env: Environment, settings: seq<Setting>): (r: Option<Setting>)
    ensures r.None? <==> forall i :: 0 <= i < |settings| ==> Value(env, settings[i]) != ""
    ensures r.Some? ==> exists i :: (
      && 0 <= i < |settings| && settings[i] == r.value
      && Value(env, settings[i]) == ""
      && forall j :: 0 <= j < i ==> Value(env, settings[j]) != "")
  {
    if settings == [] then None
    else if Value(env, settings[0]) == "" then Some(settings[0])
    else
      var r := FirstMissing(env, settings[1..]);
      assert forall i :: 0 < i < |settings| ==> settings[i] == settings[1..][i - 1];
      r
  }

  /** The file list main.go:31-39 builds: the matches of every pattern, in
      pattern order, or the first pattern whose expansion failed. */
  function Expand(patterns: seq<string>, glob: string -> GlobResult): Result<seq<string>, string>
  {
    if patterns == [] then Ok([])
    else match Expand(patterns[..|patterns| - 1], glob)
      case Err(p) => Err(p)
      case Ok(files) =>
        var last := patterns[|patterns| - 1];
        if glob(last).GlobError? then Err(last) else Ok(files + glob(last).paths)
  }

  /** Expansion succeeds exactly when every pattern expands, and then holds
      exactly the matched paths; otherwise it names the first pattern that
      failed. */
  lemma {:induction false} ExpandContents(patterns: seq<string>, glob: string -> GlobResult)
    ensures Expand(patterns, glob).Ok? <==> forall i :: 0 <= i < |patterns| ==> glob(patterns[i]).Matches?
    ensures Expand(patterns, glob).Ok? ==> forall f :: f in Expand(patterns, glob).value <==>
      exists i :: 0 <= i < |patterns| && glob(patterns[i]).Matches? && f in glob(patterns[i]).paths
    ensures Expand(patterns, glob).Err? ==> exists i :: (
      && 0 <= i < |patterns|
      && patterns[i] == Expand(patterns, glob).error && glob(patterns[i]).GlobError?
      && forall j :: 0 <= j < i ==> glob(patterns[j]).Matches?)
  {
    if patterns != [] {
      var init := patterns[..|patterns| - 1];
      ExpandContents(init, glob);
      assert forall i :: 0 <= i < |init| ==> init[i] == patterns[i];
    }
  }

  /** The resolved file list: expanded, de-duplicated by `distinct`, then
      ordered by `sort.Strings` (main.go:40-41). */
  function Resolve(patterns: seq<string>, glob: string -> GlobResult): Result<seq<string>, string>
  {
    match Expand(patterns, glob)
    case Err(p) => Err(p)
    case Ok(files) => Ok(SortStrings(Dedup(files)))
  }

  /** The resolved list is strictly increasing, so sorted and free of
      repeats, and holds exactly the matched paths. */
  lemma ResolvedFilesSorted(patterns: seq<string>, glob: string -> GlobResult)
    requires Resolve(patterns, glob).Ok?
    ensures StrictlyIncreasing(Resolve(patterns, glob).value)
    ensures forall f :: f in Resolve(patterns, glob).value <==> f in Expand(patterns, glob).value
  {
    var matched := Expand(patterns, glob).value;
    var files := Resolve(patterns, glob).value;
    DedupNoDuplicates(matched);
    DedupSameElements(matched);
    SortKeepsNoDuplicates(Dedup(matched));
    SortedDistinctIsStrictlyIncreasing(files);
    assert multiset(files) == multiset(Dedup(matched));
    forall f
      ensures f in files <==> f in Dedup(matched)
    {
      assert f in files <==> f in multiset(files);
      assert f in Dedup(matched) <==> f in multiset(Dedup(matched));
    }
  }

  /** File resolution of main.go:31-41. */
  method ResolveFiles(patterns: seq<string>, glob: string -> GlobResult) returns (r: Result<seq<string>, string>)
    ensures r == Resolve(patterns, glob)
  {
    var files: seq<string> := [];
    for i := 0 to |patterns|
      invariant Expand(patterns[..i], glob) == Ok(files)
    {
      assert patterns[..i + 1][..i] == patterns[..i];
      var matches := glob(patterns[i]);
      if matches.GlobError? {
        assert Expand(patterns[..i + 1], glob) == Err(patterns[i]);
        ExpandPrefixError(patterns, glob, i + 1);
        return Err(patterns[i]);
      }
      files := files + matches.paths;
    }
    assert patterns[..|patterns|] == patterns;
    files := Distinct(files);
    files := SortStrings(files);
    r := Ok(files);
  }

  /** Once a prefix of the patterns fails, the whole list fails with the
      same pattern. */
  lemma {:induction false} ExpandPrefixError(patterns: seq<string>, glob: string -> GlobResult, n: nat)
    requires n <= |patterns| && Expand(patterns[..n], glob).Err?
    ensures Expand(patterns, glob) == Expand(patterns[..n], glob)
    decreases |patterns| - n
  {
    if n < |patterns| {
      assert patterns[..n + 1][..n] == patterns[..n];
      ExpandPrefixError(patterns, glob, n + 1);
    } else {
      assert patterns[..n] == patterns;
    }
  }

  /** How a run ends: the steps of the upload loop that were taken, and the
      fatal condition that stopped the process, if any ("Done" when None). */
  datatype Report = Report(steps: seq<Step>, failure: Option<Fatal>)

  /** The phases of `main` before the upload loop (main.go:20-116): the
      resolved files and the existing names, or the first fatal condition. */
  function Prepare(env: Environment, glob: string -> GlobResult, listing: ListResponse)
    : Result<(seq<string>, Option<set<string>>), Fatal>
  {
    if env.reeveApi == "" then Err(NotInPipeline)
    else if env.patterns.None? then Err(PatternListInvalid)
    else match Resolve(env.patterns.value, glob)
      case Err(p) => Err(PatternInvalid(p))
      case Ok(files) =>
        match FirstMissing(env, REQUIRED_SETTINGS)
        case Some(setting) => Err(MissingSetting(setting))
        case None =>
          match Existing(env.skipExisting == "true", listing)
          case Err(e) => Err(ListFailed(e))
          case Ok(existing) => Ok((files, existing))
  }

  /** How the upload loop's steps end the run: the last step failed, or
      "Done". */
  function Conclude(steps: seq<Step>): Report
  {
    if steps != [] && steps[|steps| - 1].Failed? then
      var last := steps[|steps| - 1];
      Report(steps, Some(UploadFailed(last.file, last.target, last.response)))
    else Report(steps, None)
  }

  /** The behaviour of `main`, given the environment and the answers of the
      file system and the registry. */
  function Outcome(env: Environment, glob: string -> GlobResult, listing: ListResponse, put: string -> PutResponse): Report
  {
    match Prepare(env, glob, listing)
    case Err(fatal) => Report([], Some(fatal))
    case Ok((files, existing)) => Conclude(Plan(files, existing, put, TargetName))
  }

  /** The phases before the upload loop. */
  method Preflight(env: Environment, glob: string -> GlobResult, listing: ListResponse)
    returns (r: Result<(seq<string>, Option<set<string>>), Fatal>)
    ensures r == Prepare(env, glob, listing)
  {
    if env.reeveApi == "" {
      return Err(NotInPipeline);
    }
    if env.patterns.None? {
      return Err(PatternListInvalid);
    }
    var files := ResolveFiles(env.patterns.value, glob);
    if files.Err? {
      return Err(PatternInvalid(files.error));
    }
    var missing := FirstMissing(env, REQUIRED_SETTINGS);
    if missing.Some? {
      return Err(MissingSetting(missing.value));
    }
    var existing := FetchExisting(env.skipExisting == "true", listing);
    if existing.Err? {
      return Err(ListFailed(existing.error));
    }
    r := Ok((files.value, existing.value));
  }

  /** `main` (main.go:19-178), with every `os.Exit(1)` turned into a
      returned failure. */
  method Run(env: Environment, glob: string -> GlobResult, listing: ListResponse, put: string -> PutResponse)
    returns (report: Report)
    ensures report == Outcome(env, glob, listing, put)
  {
    var prepared := Preflight(env, glob, listing);
    if prepared.Err? {
      return Report([], Some(prepared.error));
    }
    var (files, existing) := prepared.value;
    var steps, done := UploadAll(files, existing, put, TargetName);
    assert Outcome(env, glob, listing, put) == Conclude(steps);
    if !done {
      var last := steps[|steps| - 1];
      report := Report(steps, Some(UploadFailed(last.file, last.target, last.response)));
    } else {
      report := Report(steps, None);
    }
  }

  /** The process exits 0 ("Done") exactly when every phase before the loop
      succeeds and every file that is not skipped is uploaded with 201. */
  lemma OutcomeDoneIff(env: Environment, glob: string -> GlobResult, listing: ListResponse, put: string -> PutResponse)
    ensures Outcome(env, glob, listing, put).failure.None? <==>
      && Prepare(env, glob, listing).Ok?
      && var (files, existing) := Prepare(env, glob, listing).value;
         forall k :: 0 <= k < |files| && !Contains(existing, TargetName(files[k])) ==>
           put(files[k]) == PutReply(201)
  {
    if Prepare(env, glob, listing).Ok? {
      var (files, existing) := Prepare(env, glob, listing).value;
      var steps := Plan(files, existing, put, TargetName);
      assert Outcome(env, glob, listing, put) == Conclude(steps);
      PlanCompletedIff(files, existing, put, TargetName);
      PlanCompletedIffLastGoesOn(files, existing, put, TargetName);
      assert Conclude(steps).failure.None? <==> Completed(files, steps);
    }
  }

  /** Once the checks pass, files are handled one by one in strictly
      increasing order, each under its sanitised base name, skipped exactly
      when that name already exists, and nothing after a failed upload is
      attempted. */
  lemma OutcomeFollowsSortedFiles(env: Environment, glob: string -> GlobResult, listing: ListResponse, put: string -> PutResponse)
    requires Prepare(env, glob, listing).Ok?
    ensures var (files, existing) := Prepare(env, glob, listing).value;
      var steps := Outcome(env, glob, listing, put).steps;
      && StrictlyIncreasing(files)
      && |steps| <= |files|
      && (forall k :: 0 <= k < |steps| ==>
            && steps[k].file == files[k]
            && steps[k].target == TargetName(files[k])
            && (steps[k].Skipped? <==> Contains(existing, TargetName(files[k]))))
      && (forall k :: 0 <= k < |steps| - 1 ==> !steps[k].Failed?)
  {
    var (files, existing) := Prepare(env, glob, listing).value;
    assert Outcome(env, glob, listing, put) == Conclude(Plan(files, existing, put, TargetName));
    ResolvedFilesSorted(env.patterns.value, glob);
    PlanFollowsFiles(files, existing, put, TargetName);
    PlanStopsAtFirstFailure(files, existing, put, TargetName);
  }

  /** A failed existing-file query ends the run before any upload. */
  lemma ListFailureStopsBeforeUploads(env: Environment, glob: string -> GlobResult, listing: ListResponse, put: string -> PutResponse)
    requires env.reeveApi != "" && env.patterns.Some? && Resolve(env.patterns.value, glob).Ok?
    requires FirstMissing(env, REQUIRED_SETTINGS).None?
    requires env.skipExisting == "true"
    requires listing.ListReply? && listing.status != 200 && listing.status != 404
    ensures Outcome(env, glob, listing, put) == Report([], Some(ListFailed(ListStatus(listing.status))))
  {
  }

  /** Without the existing-file check, or when the package version is not
      there yet (404), no file is skipped and the upload phase is reached. */
  lemma NoSkipWithoutExistingSet(env: Environment, glob: string -> GlobResult, listing: ListResponse, put: string -> PutResponse)
    requires env.reeveApi != "" && env.patterns.Some? && Resolve(env.patterns.value, glob).Ok?
    requires FirstMissing(env, REQUIRED_SETTINGS).None?
    requires env.skipExisting != "true" || (listing.ListReply? && listing.status == 404)
    ensures Prepare(env, glob, listing).Ok?
    ensures forall k :: 0 <= k < |Outcome(env, glob, listing, put).steps| ==>
      !Outcome(env, glob, listing, put).steps[k].Skipped?
  {
    var files := Resolve(env.patterns.value, glob).value;
    NoSkipWithoutExisting(files, put, TargetName);
  }

  /** The same pattern given twice resolves its file once. */
  lemma RepeatedPatternResolvesOnce(pattern: string, file: string, glob: string -> GlobResult)
    requires glob(pattern) == Matches([file])
    ensures Resolve([pattern, pattern], glob) == Ok([file])
  {
    assert [pattern, pattern][..1] == [pattern];
    assert [pattern][..0] == [];
    assert Expand([pattern], glob) == Ok([] + [file]);
    assert [] + [file] == [file] && [file] + [file] == [file, file];
    assert Expand([pattern, pattern], glob) == Ok([file, file]);
    assert [file, file][..1] == [file];
    assert [file][..0] == [];
    assert Dedup([file]) == [] + [file];
    assert Dedup([file, file]) == [file];
  }

  /** Two paths matched out of order come out sorted. */
  lemma ResolveSwapped(pattern: string, a: string, b: string, glob: string -> GlobResult)
    requires glob(pattern) == Matches([b, a]) && Less(a, b)
    ensures Resolve([pattern], glob) == Ok([a, b])
  {
    assert [pattern][..0] == [];
    assert [] + [b, a] == [b, a];
    assert Expand([pattern], glob) == Ok([b, a]);
    LessIrreflexive(a);
    assert [b, a][..1] == [b];
    assert [b][..0] == [];
    assert Dedup([b]) == [] + [b] == [b];
    assert a !in [b];
    assert Dedup([b, a]) == [b] + [a] == [b, a];
    assert [b, a][1..] == [a];
    assert SortStrings([a]) == [a];
    LessAsymmetric(a, b);
    assert Insert(b, [a]) == [a, b];
  }

  /** A run over one pattern matching two files, returned out of order:
      the smaller one is handled first, the larger one only if the first
      upload answered 201, and the run is "Done" exactly when both
      uploads answered 201. */
  lemma TwoFilesInSortedOrder(env: Environment, pattern: string, a: string, b: string,
                              glob: string -> GlobResult, listing: ListResponse, put: string -> PutResponse)
    requires env.reeveApi != "" && env.patterns == Some([pattern])
    requires FirstMissing(env, REQUIRED_SETTINGS).None? && env.skipExisting != "true"
    requires glob(pattern) == Matches([b, a]) && Less(a, b)
    ensures var r := Outcome(env, glob, listing, put);
      && 1 <= |r.steps| <= 2
      && r.steps[0].file == a && r.steps[0].target == TargetName(a)
      && (|r.steps| == 2 <==> put(a) == PutReply(201))
      && (|r.steps| == 2 ==> r.steps[1].file == b && r.steps[1].target == TargetName(b))
      && (r.failure.None? <==> put(a) == PutReply(201) && put(b) == PutReply(201))
  {
    ResolveSwapped(pattern, a, b, glob);
    var files := [a, b];
    assert Prepare(env, glob, listing) == Ok((files, None));
    var steps := Plan(files, None, put, TargetName);
    assert Outcome(env, glob, listing, put) == Conclude(steps);
    PlanOfTwo(a, b, put, TargetName);
    PlanCompletedIffLastGoesOn(files, None, put, TargetName);
  }

  /** Example: "fixtures/a.bin" sorts before "fixtures/b.bin", and each is
      uploaded under its base name. As in the other examples below, the
      strings are parameters fixed by `requires`, which keeps long literals
      out of the solver's unfolding of `Sanitize` and `Plan`. */
  lemma FixtureNames(dir: string, na: string, nb: string, a: string, b: string)
    requires dir == "fixtures" && na == "a.bin" && nb == "b.bin"
    requires a == dir + "/" + na && b == dir + "/" + nb
    ensures Less(a, b) && TargetName(a) == na && TargetName(b) == nb
  {
    assert forall i :: 0 <= i < |na| ==> IsAllowed(na[i]);
    assert forall i :: 0 <= i < |nb| ==> IsAllowed(nb[i]);
    TargetNameOfJoin(dir, na);
    TargetNameOfJoin(dir, nb);
    assert Less(na, nb);
    LessCommonPrefix(dir + "/", na, nb);
  }

  /** Example: one pattern matching "fixtures/b.bin" and "fixtures/a.bin",
      in that order, uploads "a.bin" first and then "b.bin", and the run is
      "Done" exactly when both uploads answered 201. */
  lemma FixturesExample(env: Environment, pattern: string, a: string, b: string, na: string, nb: string,
                        glob: string -> GlobResult, listing: ListResponse, put: string -> PutResponse)
    requires env.reeveApi != "" && env.patterns == Some([pattern])
    requires FirstMissing(env, REQUIRED_SETTINGS).None? && env.skipExisting != "true"
    requires na == "a.bin" && nb == "b.bin"
    requires a == "fixtures/" + na && b == "fixtures/" + nb
    requires glob(pattern) == Matches([b, a])
    ensures var r := Outcome(env, glob, listing, put);
      && 1 <= |r.steps| <= 2
      && r.steps[0].file == a && r.steps[0].target == na
      && (|r.steps| == 2 ==> r.steps[1].file == b && r.steps[1].target == nb)
      && (r.failure.None? <==> put(a) == PutReply(201) && put(b) == PutReply(201))
  {
    FixtureNames("fixtures", na, nb, a, b);
    TwoFilesInSortedOrder(env, pattern, a, b, glob, listing, put);
  }

  /** A file whose upload name is already listed is skipped without being
      uploaded, and the run goes on with the next file. */
  lemma ListedFileSkipped(dir: string, name: string, file: string, rest: seq<string>,
                          existing: Option<set<string>>, put: string -> PutResponse)
    requires dir == "out" && name == "report.txt" && file == dir + "/" + name
    requires existing == Some({name})
    ensures var steps := Plan([file] + rest, existing, put, TargetName);
      && steps[0] == Skipped(file, name)
      && steps[1..] == Plan(rest, existing, put, TargetName)
  {
    assert forall i :: 0 <= i < |name| ==> IsAllowed(name[i]);
    TargetNameOfJoin(dir, name);
    var files := [file] + rest;
    assert files[0] == file && files[1..] == rest;
    assert StepFor(file, existing, put, TargetName) == Skipped(file, name);
  }
}
