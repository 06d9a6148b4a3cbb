/** The key and path logic of `scripts/state_parser.py`: remote state-file
    keys are filtered by a project-environment prefix (`parse_bucket_objects`),
    each kept key is turned into a resource-class name (`parse_res_classes`),
    and every resource class gets a backend file at
    `./generated/<environment>/<resource class>/backend.tf`
    (`generate_backend_file`), for every environment of a comma-separated
    list (`main`). The bucket listing is a given sequence of keys; the
    template rendering and the directory creation are recorded as requests. */
module StateParser {
  import opened PyStr

  datatype Option<T> = None | Some(value: T)

  datatype Result<T, E> = Ok(value: T) | Err(error: E)

  // ---------------------------------------------------------------------------
  // parse_bucket_objects: the literal prefix filter
  // ---------------------------------------------------------------------------

  /** The keys of `keys` that begin with `searchString`, in their original order.
      The source tests `re.match("^" + re.escape(searchString), key)`: `re.escape`
      makes every character of the search string stand for itself, `re.match`
      anchors at the start of the key, so the test is `key.startswith(searchString)`. */
  function MatchingKeys(keys: seq<string>, searchString: string): (r: seq<string>)
    ensures |r| <= |keys|
  {
    if keys == [] then []
    else
      var init, last := keys[..|keys| - 1], keys[|keys| - 1];
      assert keys == init + [last];
      MatchingKeys(init, searchString) + (if StartsWith(last, searchString) then [last] else [])
  }

  /** `parse_bucket_objects`, over the keys that the bucket listing returned. */
  method ParseBucketObjects(bucketKeys: seq<string>, searchString: string)
    returns (matchingObjects: seq<string>)
    ensures matchingObjects == MatchingKeys(bucketKeys, searchString)
  {
    matchingObjects := [];
    for i := 0 to |bucketKeys|
      invariant matchingObjects == MatchingKeys(bucketKeys[..i], searchString)
    {
      assert bucketKeys[..i + 1][..i] == bucketKeys[..i];
      if StartsWith(bucketKeys[i], searchString) {
        matchingObjects := matchingObjects + [bucketKeys[i]];
      }
    }
    assert bucketKeys[..|bucketKeys|] == bucketKeys;
  }

  /** A key is kept exactly when it is one of the input keys and begins with
      the search string. */
  lemma {:induction false} MatchingKeysMembership(keys: seq<string>, searchString: string, key: string)
    ensures key in MatchingKeys(keys, searchString) <==> key in keys && StartsWith(key, searchString)
  {
    if keys != [] {
      var init, last := keys[..|keys| - 1], keys[|keys| - 1];
      MatchingKeysMembership(init, searchString, key);
      assert keys == init + [last];
    }
  }

  /** The positions in `keys` of the keys that begin with `searchString`, ascending. */
  function MatchPositions(keys: seq<string>, searchString: string): seq<nat>
  {
    if keys == [] then []
    else
      MatchPositions(keys[..|keys| - 1], searchString)
        + (if StartsWith(keys[|keys| - 1], searchString) then [|keys| - 1] else [])
  }

  /** `r` is made of the elements of `keys` at the strictly ascending positions `pos`. */
  ghost predicate SelectedAt(r: seq<string>, keys: seq<string>, pos: seq<nat>)
  {
    && |pos| == |r|
    && (forall j :: 0 <= j < |pos| ==> pos[j] < |keys| && r[j] == keys[pos[j]])
    && (forall j, j' :: 0 <= j < j' < |pos| ==> pos[j] < pos[j'])
  }

  /** The filter is an order-preserving subsequence of its input that takes
      every matching position: no key is added, dropped or moved. */
  lemma {:induction false} MatchingKeysSubsequence(keys: seq<string>, searchString: string)
    ensures SelectedAt(MatchingKeys(keys, searchString), keys, MatchPositions(keys, searchString))
    ensures forall i :: 0 <= i < |keys| ==>
      (i in MatchPositions(keys, searchString) <==> StartsWith(keys[i], searchString))
  {
    if keys != [] {
      var n := |keys| - 1;
      var init, last := keys[..n], keys[n];
      MatchingKeysSubsequence(init, searchString);
      var r0, pos0 := MatchingKeys(init, searchString), MatchPositions(init, searchString);
      assert forall j :: 0 <= j < |pos0| ==> pos0[j] < n && r0[j] == keys[pos0[j]];
      if StartsWith(last, searchString) {
        var r, pos := r0 + [last], pos0 + [n];
        assert MatchingKeys(keys, searchString) == r && MatchPositions(keys, searchString) == pos;
        assert forall j :: 0 <= j < |pos0| ==> pos[j] == pos0[j] && r[j] == r0[j];
      } else {
        assert MatchingKeys(keys, searchString) == r0 && MatchPositions(keys, searchString) == pos0;
      }
    }
  }

  /** With an empty search string every key is kept, unchanged and in order. */
  lemma {:induction false} MatchingKeysEmptySearch(keys: seq<string>)
    ensures MatchingKeys(keys, "") == keys
  {
    if keys != [] {
      var init := keys[..|keys| - 1];
      MatchingKeysEmptySearch(init);
      assert StartsWith(keys[|keys| - 1], "");
      assert keys == init + [keys[|keys| - 1]];
    }
  }

  /** The keys of one environment are picked out of a mixed listing, in order. */
  lemma MatchingKeysExample()
    ensures MatchingKeys(["prod-web-app", "prod-web-db", "stage-web-app"], "prod-web")
         == ["prod-web-app", "prod-web-db"]
  {
    var keys := ["prod-web-app", "prod-web-db", "stage-web-app"];
    assert StartsWith(keys[0], "prod-web") && StartsWith(keys[1], "prod-web");
    assert !StartsWith(keys[2], "prod-web") by {
      assert keys[2][0] != 'p';
    }
    assert keys[..2][..1] == [keys[0]];
  }

  lemma StartsWithShorter(key: string, searchString: string, extension: string)
    requires StartsWith(key, searchString + extension)
    ensures StartsWith(key, searchString)
  {
    assert key[..|searchString|] == key[..|searchString + extension|][..|searchString|];
  }

  /** Searching for a longer string selects among the keys found for its
      prefix: an environment whose name begins with another environment's
      name has its keys selected for that other environment too. */
  lemma {:induction false} MatchingKeysNarrowing(keys: seq<string>, searchString: string, extension: string)
    ensures MatchingKeys(MatchingKeys(keys, searchString), searchString + extension)
         == MatchingKeys(keys, searchString + extension)
  {
    if keys != [] {
      var init, last := keys[..|keys| - 1], keys[|keys| - 1];
      var r0 := MatchingKeys(init, searchString);
      MatchingKeysNarrowing(init, searchString, extension);
      if StartsWith(last, searchString + extension) {
        StartsWithShorter(last, searchString, extension);
      }
      assert keys == init + [last];
      if StartsWith(last, searchString) {
        assert (r0 + [last])[..|r0|] == r0;
      } else {
        assert MatchingKeys(keys, searchString) == r0;
        assert MatchingKeys(keys, searchString + extension) == MatchingKeys(init, searchString + extension);
      }
    }
  }

  // ---------------------------------------------------------------------------
  // parse_res_classes: suffix removal and bounded split
  // ---------------------------------------------------------------------------

  /** The file extension of a remote state file. */
  const StateSuffix: string := ".tfstate"

  /** Where Python's `$` matches in `s` (the pattern has no MULTILINE flag): at
      the very end, and just before a newline that ends the string. */
  predicate EndAnchorAt(s: string, j: int)
  {
    j == |s| || (0 <= j && j == |s| - 1 && s[j] == '\n')
  }

  /** The pattern `\.tfstate$` matches `s` at position `i`. */
  predicate SuffixMatchAt(s: string, i: int)
  {
    0 <= i && i + |StateSuffix| <= |s| && s[i..i + |StateSuffix|] == StateSuffix
    && EndAnchorAt(s, i + |StateSuffix|)
  }

  /** `re.sub('\.tfstate$', '', s)`, by cases on how the string ends. */
  function StripStateSuffix(s: string): string
  {
    if EndsWith(s, StateSuffix) then s[..|s| - |StateSuffix|]
    else if EndsWith(s, StateSuffix + "\n") then s[..|s| - |StateSuffix| - 1] + "\n"
    else s
  }

  /** The cases agree with the regular expression: the match, if there is one,
      is deleted; without a match the string is returned as it is. */
  lemma StripStateSuffixMatches(s: string)
    ensures forall i :: SuffixMatchAt(s, i) ==> StripStateSuffix(s) == s[..i] + s[i + |StateSuffix|..]
    ensures (forall i :: !SuffixMatchAt(s, i)) ==> StripStateSuffix(s) == s
  {
    if EndsWith(s, StateSuffix) {
      assert SuffixMatchAt(s, |s| - |StateSuffix|);
    } else if EndsWith(s, StateSuffix + "\n") {
      assert s[|s| - |StateSuffix| - 1..|s| - 1] == StateSuffix;
      assert SuffixMatchAt(s, |s| - |StateSuffix| - 1);
    }
  }

  /** The pattern matches at one position at most, so `re.sub` deletes at most
      one occurrence of the suffix. */
  lemma AtMostOneSuffixMatch(s: string, i: int, j: int)
    requires SuffixMatchAt(s, i) && SuffixMatchAt(s, j)
    ensures i == j
  {
    assert s[i + |StateSuffix| - 1] == StateSuffix[|StateSuffix| - 1] == 'e';
    assert s[j + |StateSuffix| - 1] == StateSuffix[|StateSuffix| - 1] == 'e';
  }

  /** The suffix is removed when it ends the name, also when a single newline
      follows it (which stays); a name that does not end that way is unchanged. */
  lemma StripStateSuffixCases(name: string)
    ensures StripStateSuffix(name + StateSuffix) == name
    ensures StripStateSuffix(name + StateSuffix + "\n") == name + "\n"
    ensures !EndsWith(name, StateSuffix) && !EndsWith(name, StateSuffix + "\n") ==>
      StripStateSuffix(name) == name
  {
    assert (name + StateSuffix)[..|name|] == name;
    assert (name + StateSuffix + "\n")[..|name|] == name;
    var s := name + StateSuffix + "\n";
    assert s[|s| - |StateSuffix| - 1..] == StateSuffix + "\n";
    assert s[|s| - |StateSuffix|..] != StateSuffix by {
      assert s[|s| - 1] == '\n';
    }
  }

  /** What `parse_res_classes` raises: `split('-', 2)` gave fewer than three
      pieces, so indexing piece 2 is an `IndexError`. */
  datatype ResClassError = MalformedKey(name: string)

  /** `name.split('-', 2)[2]` */
  function ResClassOfName(name: string): Result<string, ResClassError>
  {
    var parts := Split(name, '-', 2);
    if |parts| < 3 then Err(MalformedKey(name)) else Ok(parts[2])
  }

  /** `parse_res_classes(state_file)` */
  function ParseResClass(stateFile: string): Result<string, ResClassError>
  {
    ResClassOfName(StripStateSuffix(stateFile))
  }

  /** The shape of a stripped state-file name: two dash-free segments, then
      the resource class, which may contain dashes of its own. */
  function StateName(project: string, environment: string, resClass: string): string
  {
    project + "-" + environment + "-" + resClass
  }

  /** A resource class is derived exactly when the name has two dashes or more. */
  lemma ResClassDefined(name: string)
    ensures ResClassOfName(name).Ok? <==> Count(name, '-') >= 2
  {
    SplitLength(name, '-', 2);
  }

  /** Round trip: a derived resource class is everything after the second dash,
      the two segments before it being dash-free. */
  lemma ResClassDecomposition(name: string)
    requires ResClassOfName(name).Ok?
    ensures exists project, environment ::
      '-' !in project && '-' !in environment &&
      name == StateName(project, environment, ResClassOfName(name).value)
  {
    var parts := Split(name, '-', 2);
    JoinSplit(name, '-', 2);
    SplitInnerPiecesFree(name, '-', 2);
    SplitLength(name, '-', 2);
    assert |parts| == 3;
    assert sep0: '-' !in parts[0];
    assert sep1: '-' !in parts[1];
    JoinCons(parts[0], parts[1..], '-');
    JoinCons(parts[1], parts[2..], '-');
    assert parts == [parts[0]] + parts[1..] && parts[1..] == [parts[1]] + parts[2..];
    assert name == StateName(parts[0], parts[1], parts[2]);
  }

  /** And back: the resource class of a name built from two dash-free
      segments is the rest of the name, dashes included. */
  lemma ResClassOfStateName(project: string, environment: string, resClass: string)
    requires '-' !in project && '-' !in environment
    ensures ResClassOfName(StateName(project, environment, resClass)) == Ok(resClass)
  {
    var tail := environment + "-" + resClass;
    assert StateName(project, environment, resClass) == project + ['-'] + tail;
    SplitAfterHead(project, '-', tail, 2);
    SplitAfterHead(environment, '-', resClass, 1);
    SplitNone(resClass, '-');
  }

  /** The state file of resource class `resClass`, `<project>-<env>-<resClass>.tfstate`,
      yields `resClass`. */
  lemma ParseStateFileName(project: string, environment: string, resClass: string)
    requires '-' !in project && '-' !in environment
    ensures ParseResClass(StateName(project, environment, resClass) + StateSuffix) == Ok(resClass)
  {
    StripStateSuffixCases(StateName(project, environment, resClass));
    ResClassOfStateName(project, environment, resClass);
  }

  /** `proj-env-res-class.tfstate` yields `res-class`. */
  lemma ParseResClassExample()
    ensures ParseResClass("proj-env-res-class.tfstate") == Ok("res-class")
  {
    assert "proj-env-res-class.tfstate" == StateName("proj", "env", "res-class") + StateSuffix;
    ParseStateFileName("proj", "env", "res-class");
  }

  /** A name with a single dash has no resource class. */
  lemma ResClassOfOneDash(project: string, rest: string)
    requires '-' !in project && '-' !in rest
    ensures ResClassOfName(project + "-" + rest) == Err(MalformedKey(project + "-" + rest))
  {
    assert project + "-" + rest == project + ['-'] + rest;
    SplitAfterHead(project, '-', rest, 2);
    SplitFree(rest, '-', 1);
  }

  /** A state file named `<project>-<rest>.tfstate` with dash-free parts, such
      as `onlytwo-segments.tfstate`, makes `parse_res_classes` raise. */
  lemma ParseOneDashStateFile(project: string, rest: string)
    requires '-' !in project && '-' !in rest
    ensures ParseResClass(project + "-" + rest + StateSuffix) == Err(MalformedKey(project + "-" + rest))
  {
    ResClassOfOneDash(project, rest);
    StripStateSuffixCases(project + "-" + rest);
  }

  // ---------------------------------------------------------------------------
  // generate_backend_file: one output path per state file
  // ---------------------------------------------------------------------------

  const GeneratedRoot: string := "./generated/"

  const BackendFileName: string := "backend.tf"

  /** `output_dir` */
  function BackendDir(environment: string, resClass: string): string
  {
    GeneratedRoot + environment + "/" + resClass + "/"
  }

  /** `output_uri` */
  function BackendUri(environment: string, resClass: string): string
  {
    BackendDir(environment, resClass) + BackendFileName
  }

  /** Read back along `/`, the output path gives the environment and the
      resource class it was made from, as long as neither contains a `/`
      (the source does not check this). */
  lemma BackendUriSegments(environment: string, resClass: string)
    requires '/' !in environment && '/' !in resClass
    ensures Split(BackendUri(environment, resClass), '/', -1)
         == [".", "generated", environment, resClass, BackendFileName]
  {
    var segments := [".", "generated", environment, resClass, BackendFileName];
    BackendUriJoin(environment, resClass);
    assert forall p :: p in segments ==> '/' !in p;
    SplitJoin(segments, '/');
  }

  /** Helper: the output path is its segments joined with `/`. */
  lemma BackendUriJoin(environment: string, resClass: string)
    ensures Join([".", "generated", environment, resClass, BackendFileName], '/') == BackendUri(environment, resClass)
  {
    var segments := [".", "generated", environment, resClass, BackendFileName];
    JoinCons(".", segments[1..], '/');
    JoinCons("generated", segments[2..], '/');
    JoinCons(environment, segments[3..], '/');
    JoinCons(resClass, segments[4..], '/');
    assert segments == [segments[0]] + segments[1..];
    assert segments[1..] == [segments[1]] + segments[2..];
    assert segments[2..] == [segments[2]] + segments[3..];
    assert segments[3..] == [segments[3]] + segments[4..];
    assert GeneratedRoot == "." + "/" + "generated" + "/";
  }

  /** Distinct slash-free (environment, resource class) pairs get distinct
      output paths. Keys that share a resource class do share a path: see
      `SharedResClassSamePath`. */
  lemma BackendUriInjective(env1: string, resClass1: string, env2: string, resClass2: string)
    requires '/' !in env1 && '/' !in resClass1 && '/' !in env2 && '/' !in resClass2
    ensures BackendUri(env1, resClass1) == BackendUri(env2, resClass2) <==>
      env1 == env2 && resClass1 == resClass2
  {
    BackendUriSegments(env1, resClass1);
    BackendUriSegments(env2, resClass2);
  }

  /** The context `backend.j2` is rendered with. */
  datatype RenderContext = RenderContext(bucket: string, key: string, region: string)

  /** One pass of the loop body: make sure `outputDir` exists, then render the
      backend template into `outputUri`. */
  datatype BackendRender = BackendRender(outputDir: string, outputUri: string, context: RenderContext)

  /** What a call did: its renders in order, and the key on which
      `parse_res_classes` raised, if one did; the keys after it are not reached. */
  datatype Generation = Generation(renders: seq<BackendRender>, failedOn: Option<string>)

  function RenderFor(bucket: string, stateFile: string, region: string, environment: string, resClass: string): BackendRender
  {
    BackendRender(BackendDir(environment, resClass), BackendUri(environment, resClass),
                  RenderContext(bucket, stateFile, region))
  }

  /** How a state file's resource class is derived; the source uses
      `ParseResClass`. The plans below are stated for any such derivation,
      which keeps the proofs about the loops apart from the string work. */
  type ClassOf = string -> Result<string, ResClassError>

  /** What `generate_backend_file` does with `stateFiles`, pass by pass: one
      render per state file, in list order, until deriving a resource class
      raises on a key; that key ends the call and the files after it are not
      reached. */
  function BackendPlan(classOf: ClassOf, bucket: string, stateFiles: seq<string>, region: string, environment: string): Generation
  {
    if stateFiles == [] then Generation([], None)
    else
      var done := BackendPlan(classOf, bucket, stateFiles[..|stateFiles| - 1], region, environment);
      var stateFile := stateFiles[|stateFiles| - 1];
      if done.failedOn.Some? then done
      else
        match classOf(stateFile)
        case Err(_) => Generation(done.renders, Some(stateFile))
        case Ok(resClass) =>
          Generation(done.renders + [RenderFor(bucket, stateFile, region, environment, resClass)], None)
  }

  /** The plan of `generate_backend_file` as the source runs it. */
  function PlanBackendFiles(bucket: string, stateFiles: seq<string>, region: string, environment: string): Generation
  {
    BackendPlan(ParseResClass, bucket, stateFiles, region, environment)
  }

  /** One output path per state file, in list order, each built from that
      file's own resource class; the call stops at the first malformed key,
      and only there. */
  lemma {:induction false} BackendPlanShape(classOf: ClassOf, bucket: string, stateFiles: seq<string>, region: string, environment: string)
    ensures var g := BackendPlan(classOf, bucket, stateFiles, region, environment);
      && |g.renders| <= |stateFiles|
      && (forall j :: 0 <= j < |g.renders| ==>
            classOf(stateFiles[j]).Ok? &&
            g.renders[j] == RenderFor(bucket, stateFiles[j], region, environment, classOf(stateFiles[j]).value))
      && (g.failedOn.None? ==> |g.renders| == |stateFiles|)
      && (g.failedOn.Some? ==>
            |g.renders| < |stateFiles| && g.failedOn.value == stateFiles[|g.renders|] &&
            classOf(stateFiles[|g.renders|]).Err?)
  {
    if stateFiles != [] {
      var init := stateFiles[..|stateFiles| - 1];
      BackendPlanShape(classOf, bucket, init, region, environment);
      forall j | 0 <= j < |init| ensures stateFiles[j] == init[j] { }
    }
  }

  /** The call stops early exactly when some state file is malformed. */
  lemma BackendPlanFails(classOf: ClassOf, bucket: string, stateFiles: seq<string>, region: string, environment: string)
    ensures BackendPlan(classOf, bucket, stateFiles, region, environment).failedOn.None? <==>
      forall k :: k in stateFiles ==> classOf(k).Ok?
  {
    var g := BackendPlan(classOf, bucket, stateFiles, region, environment);
    BackendPlanShape(classOf, bucket, stateFiles, region, environment);
    if g.failedOn.None? {
      forall k | k in stateFiles ensures classOf(k).Ok? {
        var j :| 0 <= j < |stateFiles| && stateFiles[j] == k;
        assert classOf(stateFiles[j]).Ok?;
      }
    } else {
      assert stateFiles[|g.renders|] in stateFiles;
    }
  }

  /** Once a key has raised, the files after it change nothing. */
  lemma {:induction false} BackendPlanStopped(classOf: ClassOf, bucket: string, stateFiles: seq<string>, i: nat, region: string, environment: string)
    requires i <= |stateFiles|
    requires BackendPlan(classOf, bucket, stateFiles[..i], region, environment).failedOn.Some?
    ensures BackendPlan(classOf, bucket, stateFiles, region, environment)
         == BackendPlan(classOf, bucket, stateFiles[..i], region, environment)
  {
    if i < |stateFiles| {
      var init := stateFiles[..|stateFiles| - 1];
      assert init[..i] == stateFiles[..i];
      BackendPlanStopped(classOf, bucket, init, i, region, environment);
    } else {
      assert stateFiles[..i] == stateFiles;
    }
  }

  /** `generate_backend_file`, with the directory creation and the template
      rendering recorded as `BackendRender` requests; the exception raised on a
      malformed key is returned as that key. */
  method GenerateBackendFiles(bucket: string, stateFiles: seq<string>, region: string, environment: string)
    returns (renders: seq<BackendRender>, failedOn: Option<string>)
    ensures Generation(renders, failedOn) == PlanBackendFiles(bucket, stateFiles, region, environment)
  {
    renders := [];
    for i := 0 to |stateFiles|
      invariant PlanBackendFiles(bucket, stateFiles[..i], region, environment) == Generation(renders, None)
    {
      var stateFile := stateFiles[i];
      assert stateFiles[..i + 1][..i] == stateFiles[..i];
      match ParseResClass(stateFile)
      case Err(_) =>
        BackendPlanStopped(ParseResClass, bucket, stateFiles, i + 1, region, environment);
        return renders, Some(stateFile);
      case Ok(resClass) =>
        var outputDir := BackendDir(environment, resClass);
        var outputUri := outputDir + BackendFileName;
        renders := renders + [BackendRender(outputDir, outputUri, RenderContext(bucket, stateFile, region))];
    }
    assert stateFiles[..|stateFiles|] == stateFiles;
    failedOn := None;
  }

  /** Two state files with the same resource class are rendered into the same
      output path, so the second render overwrites the first one's file. */
  lemma SharedResClassSamePath(bucket: string, k1: string, k2: string, region: string, environment: string)
    requires ParseResClass(k1).Ok? && ParseResClass(k2) == ParseResClass(k1)
    ensures var g := PlanBackendFiles(bucket, [k1, k2], region, environment);
      && g.failedOn.None? && |g.renders| == 2
      && g.renders[0].outputUri == g.renders[1].outputUri
      && g.renders[0].context.key == k1 && g.renders[1].context.key == k2
  {
    var files := [k1, k2];
    BackendPlanShape(ParseResClass, bucket, files, region, environment);
    assert files[0] == k1 && files[1] == k2;
    BackendPlanFails(ParseResClass, bucket, files, region, environment);
  }

  /** The prefix filter for environment `<project>-<env>` also picks the keys
      of environment `<project>-<env><more>`; a key of each with the same
      resource class is rendered into the same path, with two different keys.
      For example `proj-prod-web.tfstate` and `proj-prod2-web.tfstate` both
      go to `./generated/proj-prod/web/backend.tf`. */
  lemma {:induction false} PrefixNeighbourOverwrites(bucket: string, region: string, project: string, env: string, more: string, resClass: string)
    requires '-' !in project && '-' !in env && '-' !in more && more != []
    ensures var environment := project + "-" + env;
      var k1 := StateName(project, env, resClass) + StateSuffix;
      var k2 := StateName(project, env + more, resClass) + StateSuffix;
      var g := PlanBackendFiles(bucket, MatchingKeys([k1, k2], environment), region, environment);
      && MatchingKeys([k1, k2], environment) == [k1, k2]
      && k1 != k2
      && |g.renders| == 2
      && g.renders[0].outputUri == g.renders[1].outputUri == BackendUri(environment, resClass)
  {
    var environment := project + "-" + env;
    var k1 := StateName(project, env, resClass) + StateSuffix;
    var k2 := StateName(project, env + more, resClass) + StateSuffix;
    NeighbourKeysShape(project, env, more, resClass);
    BothPicked(k1, k2, environment);
    assert '-' !in env + more;
    ParseStateFileName(project, env, resClass);
    ParseStateFileName(project, env + more, resClass);
    SharedResClassSamePath(bucket, k1, k2, region, environment);
    BackendPlanShape(ParseResClass, bucket, [k1, k2], region, environment);
  }

  /** Helper: both keys begin with the environment name, and the second is longer. */
  lemma NeighbourKeysShape(project: string, env: string, more: string, resClass: string)
    requires more != []
    ensures var environment := project + "-" + env;
      var k1 := StateName(project, env, resClass) + StateSuffix;
      var k2 := StateName(project, env + more, resClass) + StateSuffix;
      StartsWith(k1, environment) && StartsWith(k2, environment) && |k1| < |k2|
  {
    var environment := project + "-" + env;
    var k1 := StateName(project, env, resClass) + StateSuffix;
    var k2 := StateName(project, env + more, resClass) + StateSuffix;
    assert k1 == environment + ("-" + resClass + StateSuffix);
    assert k2 == environment + (more + "-" + resClass + StateSuffix);
  }

  /** Helper: two keys that both begin with the search string are both kept. */
  lemma BothPicked(k1: string, k2: string, searchString: string)
    requires StartsWith(k1, searchString) && StartsWith(k2, searchString)
    ensures MatchingKeys([k1, k2], searchString) == [k1, k2]
  {
    assert [k1, k2][..1] == [k1];
  }

  // ---------------------------------------------------------------------------
  // main: every configured environment in turn
  // ---------------------------------------------------------------------------

  /** What the loop of `main` does over the environments `projects`, each one
      searched for among the same bucket keys: the renders of each environment
      in turn, until one of them stops on a malformed key, which ends the run. */
  function RunPlan(classOf: ClassOf, bucketKeys: seq<string>, projects: seq<string>, bucket: string, region: string): Generation
  {
    if projects == [] then Generation([], None)
    else
      var done := RunPlan(classOf, bucketKeys, projects[..|projects| - 1], bucket, region);
      var project := projects[|projects| - 1];
      if done.failedOn.Some? then done
      else
        var g := BackendPlan(classOf, bucket, MatchingKeys(bucketKeys, project), region, project);
        Generation(done.renders + g.renders, g.failedOn)
  }

  /** The run of `main` as the source does it. */
  function PlanEnvironments(bucketKeys: seq<string>, projects: seq<string>, bucket: string, region: string): Generation
  {
    RunPlan(ParseResClass, bucketKeys, projects, bucket, region)
  }

  /** Once an environment has stopped the run, the environments after it
      change nothing. */
  lemma {:induction false} RunPlanStopped(classOf: ClassOf, bucketKeys: seq<string>, projects: seq<string>, i: nat, bucket: string, region: string)
    requires i <= |projects|
    requires RunPlan(classOf, bucketKeys, projects[..i], bucket, region).failedOn.Some?
    ensures RunPlan(classOf, bucketKeys, projects, bucket, region) == RunPlan(classOf, bucketKeys, projects[..i], bucket, region)
  {
    if i < |projects| {
      var init := projects[..|projects| - 1];
      assert init[..i] == projects[..i];
      RunPlanStopped(classOf, bucketKeys, init, i, bucket, region);
    } else {
      assert projects[..i] == projects;
    }
  }

  /** One more environment: its call is appended to a run that has not stopped. */
  lemma RunPlanStep(classOf: ClassOf, bucketKeys: seq<string>, projects: seq<string>, i: nat, bucket: string, region: string)
    requires i < |projects|
    requires RunPlan(classOf, bucketKeys, projects[..i], bucket, region).failedOn.None?
    ensures var g := BackendPlan(classOf, bucket, MatchingKeys(bucketKeys, projects[i]), region, projects[i]);
      RunPlan(classOf, bucketKeys, projects[..i + 1], bucket, region)
        == Generation(RunPlan(classOf, bucketKeys, projects[..i], bucket, region).renders + g.renders, g.failedOn)
  {
    assert projects[..i + 1][..i] == projects[..i];
  }

  /** The loop of `main` over `projectEnvironments.split(',')`, given the keys
      the bucket listing returns. */
  method ProcessEnvironments(bucketKeys: seq<string>, projectEnvironments: string, bucket: string, region: string)
    returns (renders: seq<BackendRender>, failedOn: Option<string>)
    ensures Generation(renders, failedOn) ==
      PlanEnvironments(bucketKeys, Split(projectEnvironments, ',', -1), bucket, region)
  {
    var projects := Split(projectEnvironments, ',', -1);
    renders := [];
    for i := 0 to |projects|
      invariant PlanEnvironments(bucketKeys, projects[..i], bucket, region) == Generation(renders, None)
    {
      var project := projects[i];
      var stateFileList := ParseBucketObjects(bucketKeys, project);
      var generated, failed := GenerateBackendFiles(bucket, stateFileList, region, project);
      RunPlanStep(ParseResClass, bucketKeys, projects, i, bucket, region);
      renders := renders + generated;
      if failed.Some? {
        RunPlanStopped(ParseResClass, bucketKeys, projects, i + 1, bucket, region);
        return renders, failed;
      }
    }
    assert projects[..|projects|] == projects;
    failedOn := None;
  }

  /** Every bucket key that begins with the environment name `p` has a
      resource class. */
  ghost predicate KeysParse(classOf: ClassOf, bucketKeys: seq<string>, p: string)
  {
    forall k :: k in bucketKeys && StartsWith(k, p) ==> classOf(k).Ok?
  }

  /** The key on which the call for environment `p` stopped is a bucket key
      that begins with `p` and is malformed. */
  lemma EnvironmentStopKey(classOf: ClassOf, bucketKeys: seq<string>, p: string, bucket: string, region: string) returns (k: string)
    requires BackendPlan(classOf, bucket, MatchingKeys(bucketKeys, p), region, p).failedOn.Some?
    ensures k == BackendPlan(classOf, bucket, MatchingKeys(bucketKeys, p), region, p).failedOn.value
    ensures k in bucketKeys && StartsWith(k, p) && classOf(k).Err?
  {
    var files := MatchingKeys(bucketKeys, p);
    var g := BackendPlan(classOf, bucket, files, region, p);
    BackendPlanShape(classOf, bucket, files, region, p);
    k := g.failedOn.value;
    assert k == files[|g.renders|] && k in files;
    MatchingKeysMembership(bucketKeys, p, k);
  }

  /** A call for environment `p` that did not stop renders the backend file
      of every bucket key that begins with `p`. */
  lemma EnvironmentRendersKey(classOf: ClassOf, bucketKeys: seq<string>, p: string, bucket: string, region: string, k: string)
    requires BackendPlan(classOf, bucket, MatchingKeys(bucketKeys, p), region, p).failedOn.None?
    requires k in bucketKeys && StartsWith(k, p)
    ensures classOf(k).Ok?
    ensures RenderFor(bucket, k, region, p, classOf(k).value)
      in BackendPlan(classOf, bucket, MatchingKeys(bucketKeys, p), region, p).renders
  {
    var files := MatchingKeys(bucketKeys, p);
    var g := BackendPlan(classOf, bucket, files, region, p);
    BackendPlanShape(classOf, bucket, files, region, p);
    MatchingKeysMembership(bucketKeys, p, k);
    var j :| 0 <= j < |files| && files[j] == k;
    assert g.renders[j] in g.renders;
  }

  /** One environment's call finishes exactly when its keys all parse. */
  lemma EnvironmentFinishes(classOf: ClassOf, bucketKeys: seq<string>, p: string, bucket: string, region: string)
    ensures BackendPlan(classOf, bucket, MatchingKeys(bucketKeys, p), region, p).failedOn.None?
      <==> KeysParse(classOf, bucketKeys, p)
  {
    if BackendPlan(classOf, bucket, MatchingKeys(bucketKeys, p), region, p).failedOn.Some? {
      var k := EnvironmentStopKey(classOf, bucketKeys, p, bucket, region);
    } else {
      forall k | k in bucketKeys && StartsWith(k, p) ensures classOf(k).Ok? {
        EnvironmentRendersKey(classOf, bucketKeys, p, bucket, region, k);
      }
    }
  }

  /** The run stops early exactly when a key that begins with one of the
      environment names is malformed. */
  lemma {:induction false} RunPlanFails(classOf: ClassOf, bucketKeys: seq<string>, projects: seq<string>, bucket: string, region: string)
    ensures RunPlan(classOf, bucketKeys, projects, bucket, region).failedOn.None? <==>
      AllKeysParse(classOf, bucketKeys, projects)
  {
    if projects != [] {
      var init := projects[..|projects| - 1];
      var p := projects[|projects| - 1];
      var done := RunPlan(classOf, bucketKeys, init, bucket, region);
      var last := BackendPlan(classOf, bucket, MatchingKeys(bucketKeys, p), region, p);
      RunPlanFails(classOf, bucketKeys, init, bucket, region);
      EnvironmentFinishes(classOf, bucketKeys, p, bucket, region);
      assert RunPlan(classOf, bucketKeys, projects, bucket, region).failedOn
          == if done.failedOn.Some? then done.failedOn else last.failedOn;
      AllKeysParseSnoc(classOf, bucketKeys, projects);
    }
  }

  /** The keys of every environment in `projects` parse. */
  ghost predicate AllKeysParse(classOf: ClassOf, bucketKeys: seq<string>, projects: seq<string>)
  {
    forall i :: 0 <= i < |projects| ==> KeysParse(classOf, bucketKeys, projects[i])
  }

  /** Helper: the keys of every environment parse exactly when those of all
      but the last do and those of the last do. */
  lemma AllKeysParseSnoc(classOf: ClassOf, bucketKeys: seq<string>, projects: seq<string>)
    requires projects != []
    ensures AllKeysParse(classOf, bucketKeys, projects) <==>
      AllKeysParse(classOf, bucketKeys, projects[..|projects| - 1])
      && KeysParse(classOf, bucketKeys, projects[|projects| - 1])
  {
    var init := projects[..|projects| - 1];
    assert forall i :: 0 <= i < |init| ==> projects[i] == init[i];
  }

  /** Without a malformed key the run renders, for every environment and every
      key that begins with its name, that key's backend file. */
  lemma {:induction false} RunPlanComplete(classOf: ClassOf, bucketKeys: seq<string>, projects: seq<string>, bucket: string, region: string)
    requires RunPlan(classOf, bucketKeys, projects, bucket, region).failedOn.None?
    ensures forall i, k :: 0 <= i < |projects| && k in bucketKeys && StartsWith(k, projects[i]) ==>
      classOf(k).Ok? &&
      RenderFor(bucket, k, region, projects[i], classOf(k).value)
        in RunPlan(classOf, bucketKeys, projects, bucket, region).renders
  {
    if projects != [] {
      var init := projects[..|projects| - 1];
      var p := projects[|projects| - 1];
      var done := RunPlan(classOf, bucketKeys, init, bucket, region);
      var last := BackendPlan(classOf, bucket, MatchingKeys(bucketKeys, p), region, p);
      var g := RunPlan(classOf, bucketKeys, projects, bucket, region);
      assert done.failedOn.None? && last.failedOn.None?;
      assert g.renders == done.renders + last.renders;
      RunPlanComplete(classOf, bucketKeys, init, bucket, region);
      forall i, k | 0 <= i < |projects| && k in bucketKeys && StartsWith(k, projects[i])
        ensures classOf(k).Ok?
        ensures RenderFor(bucket, k, region, projects[i], classOf(k).value) in g.renders
      {
        if i < |init| {
          assert projects[i] == init[i];
          assert RenderFor(bucket, k, region, init[i], classOf(k).value) in done.renders;
        } else {
          EnvironmentRendersKey(classOf, bucketKeys, p, bucket, region, k);
        }
      }
    }
  }

  /** `r` is the backend file of a bucket key under an environment of
      `projects` whose name begins that key, built from the key's own
      resource class. */
  ghost predicate RenderedFrom(classOf: ClassOf, bucketKeys: seq<string>, projects: seq<string>, bucket: string, region: string, r: BackendRender)
  {
    exists i, k :: 0 <= i < |projects| && k in bucketKeys && StartsWith(k, projects[i]) && classOf(k).Ok? &&
      r == RenderFor(bucket, k, region, projects[i], classOf(k).value)
  }

  /** Everything the run renders is the backend file of a bucket key under an
      environment of the list whose name begins that key, built from that
      key's own resource class; a key that stops the run is a malformed bucket
      key of some environment of the list, and every environment before that
      one had only well-formed keys, so it was rendered in full. */
  lemma {:induction false} RunPlanSound(classOf: ClassOf, bucketKeys: seq<string>, projects: seq<string>, bucket: string, region: string)
    ensures forall r :: r in RunPlan(classOf, bucketKeys, projects, bucket, region).renders ==>
      RenderedFrom(classOf, bucketKeys, projects, bucket, region, r)
    ensures RunPlan(classOf, bucketKeys, projects, bucket, region).failedOn.Some? ==>
      var k := RunPlan(classOf, bucketKeys, projects, bucket, region).failedOn.value;
      exists i :: 0 <= i < |projects| && k in bucketKeys && StartsWith(k, projects[i]) && classOf(k).Err? &&
        AllKeysParse(classOf, bucketKeys, projects[..i])
  {
    if projects != [] {
      var init := projects[..|projects| - 1];
      var p := projects[|projects| - 1];
      var done := RunPlan(classOf, bucketKeys, init, bucket, region);
      var g := RunPlan(classOf, bucketKeys, projects, bucket, region);
      RunPlanSound(classOf, bucketKeys, init, bucket, region);
      if done.failedOn.Some? {
        assert g == done;
        var k := done.failedOn.value;
        var i :| 0 <= i < |init| && k in bucketKeys && StartsWith(k, init[i]) && classOf(k).Err? &&
          AllKeysParse(classOf, bucketKeys, init[..i]);
        assert init[..i] == projects[..i];
        assert projects[i] == init[i];
        forall r | r in g.renders ensures RenderedFrom(classOf, bucketKeys, projects, bucket, region, r) {
          RenderedFromInit(classOf, bucketKeys, projects, bucket, region, r);
        }
      } else {
        var files := MatchingKeys(bucketKeys, p);
        var last := BackendPlan(classOf, bucket, files, region, p);
        assert g.renders == done.renders + last.renders;
        BackendPlanShape(classOf, bucket, files, region, p);
        forall r | r in g.renders ensures RenderedFrom(classOf, bucketKeys, projects, bucket, region, r) {
          if r in done.renders {
            RenderedFromInit(classOf, bucketKeys, projects, bucket, region, r);
          } else {
            var j :| 0 <= j < |last.renders| && last.renders[j] == r;
            assert files[j] in files;
            MatchingKeysMembership(bucketKeys, p, files[j]);
            assert StartsWith(files[j], projects[|projects| - 1]);
          }
        }
        if last.failedOn.Some? {
          var k := EnvironmentStopKey(classOf, bucketKeys, p, bucket, region);
          RunPlanFails(classOf, bucketKeys, init, bucket, region);
          assert projects[..|projects| - 1] == init;
          assert StartsWith(k, projects[|projects| - 1]);
        }
      }
    }
  }

  /** Helper: a render from the environments before the last one comes from
      an environment of the whole list. */
  lemma RenderedFromInit(classOf: ClassOf, bucketKeys: seq<string>, projects: seq<string>, bucket: string, region: string, r: BackendRender)
    requires projects != []
    requires RenderedFrom(classOf, bucketKeys, projects[..|projects| - 1], bucket, region, r)
    ensures RenderedFrom(classOf, bucketKeys, projects, bucket, region, r)
  {
    var init := projects[..|projects| - 1];
    var i, k :| 0 <= i < |init| && k in bucketKeys && StartsWith(k, init[i]) && classOf(k).Ok? &&
      r == RenderFor(bucket, k, region, init[i], classOf(k).value);
    assert projects[i] == init[i];
  }
}
