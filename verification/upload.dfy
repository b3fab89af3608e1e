/** The upload loop of main.go:118-150: files in order, each skipped when
    its target name already exists, otherwise uploaded, and the first
    upload that does not answer 201 ends the run. */
module Upload {
  import opened Outcomes
  import opened Registry

  /** What one upload attempt came back with. Opening the file, building
      the request and the transport are outside the model; only their
      failure and the status code matter to the loop. */
  datatype PutResponse =
    | OpenFailed                 // os.Open failed (main.go:128-132)
    | PutRequestError            // request creation or transport failed (main.go:134-144)
    | PutReply(status: int)


  /** What happened to one file. */
  datatype Step =
    | Skipped(file: string, target: string)
    | Uploaded(file: string, target: string)
    | Failed(file: string, target: string, response: PutResponse)

  /** The decision of one loop iteration (main.go:119-149): skip the file
      when its target name exists, otherwise upload it; only an answer of
      201 Created lets the run go on. */
  function StepFor(file: string, existing: Option<set<string>>, put: string -> PutResponse, naming: string -> string): (step: Step)
    ensures step.file == file && step.target == naming(file)
    ensures step.Skipped? <==> Contains(existing, naming(file))
    ensures step.Uploaded? ==> put(file) == PutReply(201)
    ensures step.Failed? <==> !Contains(existing, naming(file)) && put(file) != PutReply(201)
    ensures step.Failed? ==> step.response == put(file)
  {
    var target := naming(file);
    if Contains(existing, target) then Skipped(file, target)
    else if put(file) == PutReply(201) then Uploaded(file, target)
    else Failed(file, target, put(file))
  }

  /** The steps the loop takes over `files`, given the existing names and
      the answer `put` gives for each upload: one step per file, in order,
      ending early at the first failed upload. */
  function Plan(files: seq<string>, existing: Option<set<string>>, put: string -> PutResponse, naming: string -> string): seq<Step>
  {
    if files == [] then []
    else
      var step := StepFor(files[0], existing, put, naming);
      if step.Failed? then [step] else [step] + Plan(files[1..], existing, put, naming)
  }

  /** Every file was handled and no upload failed: the run gets to "Done". */
  predicate Completed(files: seq<string>, steps: seq<Step>)
  {
    |steps| == |files| && forall k :: 0 <= k < |steps| ==> !steps[k].Failed?
  }

  /** Step k is about file k, in the order of `files`, under its target
      name; a step is a skip exactly when the target name exists; an upload
      succeeded exactly when it answered 201, and a failed step records the
      answer. */
  lemma {:induction false} PlanFollowsFiles(files: seq<string>, existing: Option<set<string>>, put: string -> PutResponse, naming: string -> string)
    ensures |Plan(files, existing, put, naming)| <= |files|
    ensures forall k :: 0 <= k < |Plan(files, existing, put, naming)| ==>
      var step := Plan(files, existing, put, naming)[k];
      && step.file == files[k]
      && step.target == naming(files[k])
      && (step.Skipped? <==> Contains(existing, naming(files[k])))
      && (step.Uploaded? ==> put(files[k]) == PutReply(201))
      && (step.Failed? ==> step.response == put(files[k]) && put(files[k]) != PutReply(201))
  {
    if files != [] {
      PlanFollowsFiles(files[1..], existing, put, naming);
    }
  }

  /** A failed upload is the last step: no file after it is attempted. If
      the steps stop short of the file list, the last one failed. */
  lemma {:induction false} PlanStopsAtFirstFailure(files: seq<string>, existing: Option<set<string>>, put: string -> PutResponse, naming: string -> string)
    ensures forall k :: 0 <= k < |Plan(files, existing, put, naming)| - 1 ==> !Plan(files, existing, put, naming)[k].Failed?
    ensures |Plan(files, existing, put, naming)| < |files| ==>
      Plan(files, existing, put, naming) != [] && Plan(files, existing, put, naming)[|Plan(files, existing, put, naming)| - 1].Failed?
  {
    if files != [] {
      var steps, rest := Plan(files, existing, put, naming), Plan(files[1..], existing, put, naming);
      PlanStopsAtFirstFailure(files[1..], existing, put, naming);
      if !steps[0].Failed? {
        assert steps == [steps[0]] + rest;
      }
    }
  }

  /** The run completes exactly when every file that is not skipped gets
      201 from its upload. */
  lemma {:induction false} PlanCompletedIff(files: seq<string>, existing: Option<set<string>>, put: string -> PutResponse, naming: string -> string)
    ensures Completed(files, Plan(files, existing, put, naming)) <==>
      forall k :: 0 <= k < |files| && !Contains(existing, naming(files[k])) ==>
        put(files[k]) == PutReply(201)
  {
    if files != [] {
      var steps, rest := Plan(files, existing, put, naming), Plan(files[1..], existing, put, naming);
      PlanCompletedIff(files[1..], existing, put, naming);
      if !steps[0].Failed? {
        assert steps == [steps[0]] + rest;
        assert forall k :: 0 < k < |steps| ==> steps[k] == rest[k - 1];
        assert Completed(files, steps) <==> Completed(files[1..], rest) by {
          if Completed(files[1..], rest) {
            forall k | 0 < k < |steps|
              ensures !steps[k].Failed?
            {
              assert !rest[k - 1].Failed?;
            }
          }
          if Completed(files, steps) {
            forall k | 0 <= k < |rest|
              ensures !rest[k].Failed?
            {
              assert !steps[k + 1].Failed?;
            }
          }
        }
        assert forall k :: 0 < k < |files| ==> files[1..][k - 1] == files[k];
      }
    }
  }

  /** The run completes exactly when its last step, if any, did not fail. */
  lemma {:induction false} PlanCompletedIffLastGoesOn(files: seq<string>, existing: Option<set<string>>, put: string -> PutResponse, naming: string -> string)
    ensures var steps := Plan(files, existing, put, naming);
      Completed(files, steps) <==> steps == [] || !steps[|steps| - 1].Failed?
  {
    PlanStopsAtFirstFailure(files, existing, put, naming);
    PlanFollowsFiles(files, existing, put, naming);
  }

  /** Without a set of existing names nothing is skipped. */
  lemma {:induction false} NoSkipWithoutExisting(files: seq<string>, put: string -> PutResponse, naming: string -> string)
    ensures forall k :: 0 <= k < |Plan(files, None, put, naming)| ==> !Plan(files, None, put, naming)[k].Skipped?
  {
    PlanFollowsFiles(files, None, put, naming);
  }

  /** Planning a list whose steps all go on is planning its two halves one
      after the other. */
  lemma {:induction false} PlanAppend(a: seq<string>, b: seq<string>, existing: Option<set<string>>, put: string -> PutResponse, naming: string -> string)
    requires forall k :: 0 <= k < |Plan(a, existing, put, naming)| ==> !Plan(a, existing, put, naming)[k].Failed?
    ensures Plan(a + b, existing, put, naming) == Plan(a, existing, put, naming) + Plan(b, existing, put, naming)
  {
    if a == [] {
      assert a + b == b;
    } else {
      var steps, rest := Plan(a, existing, put, naming), Plan(a[1..], existing, put, naming);
      assert !steps[0].Failed?;
      assert steps == [steps[0]] + rest;
      assert forall k :: 0 <= k < |rest| ==> rest[k] == steps[k + 1];
      assert (a + b)[1..] == a[1..] + b;
      PlanAppend(a[1..], b, existing, put, naming);
    }
  }

  /** Two files without an existing set: the first is always attempted,
      the second only after the first answered 201, and the run completes
      exactly when both answered 201. */
  lemma PlanOfTwo(a: string, b: string, put: string -> PutResponse, naming: string -> string)
    ensures var steps := Plan([a, b], None, put, naming);
      && 1 <= |steps| <= 2
      && steps[0].file == a && steps[0].target == naming(a)
      && (|steps| == 2 <==> put(a) == PutReply(201))
      && (|steps| == 2 ==> steps[1].file == b && steps[1].target == naming(b))
      && (Completed([a, b], steps) <==> put(a) == PutReply(201) && put(b) == PutReply(201))
  {
    var files := [a, b];
    assert files[1..] == [b] && files[1..][1..] == [];
    var first := StepFor(a, None, put, naming);
    var second := StepFor(b, None, put, naming);
    if first.Failed? {
      assert Plan(files, None, put, naming) == [first];
    } else {
      assert Plan([b], None, put, naming) == [second];
      assert Plan(files, None, put, naming) == [first, second];
    }
  }

  /** The loop of main.go:118-150. */
  method UploadAll(files: seq<string>, existing: Option<set<string>>, put: string -> PutResponse, naming: string -> string)
    returns (steps: seq<Step>, done: bool)
    ensures steps == Plan(files, existing, put, naming)
    ensures done <==> Completed(files, steps)
    ensures done <==> forall k :: 0 <= k < |files| && !Contains(existing, naming(files[k])) ==>
      put(files[k]) == PutReply(201)
    ensures done <==> steps == [] || !steps[|steps| - 1].Failed?
  {
    steps := [];
    var i := 0;
    while i < |files|
      invariant 0 <= i <= |files| && |steps| == i
      invariant steps == Plan(files[..i], existing, put, naming)
      invariant forall k :: 0 <= k < |steps| ==> !steps[k].Failed?
    {
      var filename := files[i];
      var targetName := naming(filename);
      PlanAppend(files[..i], files[i..], existing, put, naming);
      PlanAppend(files[..i], [filename], existing, put, naming);
      assert files[..i] + files[i..] == files;
      assert files[..i] + [filename] == files[..i + 1];
      if Contains(existing, targetName) {
        steps := steps + [Skipped(filename, targetName)];
        i := i + 1;
        continue;
      }
      var response := put(filename);
      if response != PutReply(201) {
        steps := steps + [Failed(filename, targetName, response)];
        assert steps[|steps| - 1].Failed?;
        done := false;
        PlanCompletedIff(files, existing, put, naming);
        PlanCompletedIffLastGoesOn(files, existing, put, naming);
        return;
      }
      steps := steps + [Uploaded(filename, targetName)];
      i := i + 1;
    }
    assert files[..i] == files;
    done := true;
    PlanCompletedIff(files, existing, put, naming);
    PlanCompletedIffLastGoesOn(files, existing, put, naming);
  }
}
