# state_parser: remote-state keys to backend files

This project models the key and path logic of `scripts/state_parser.py`, a
script that prepares Terraform backend configurations from the remote state
files kept in an S3 bucket. For each environment named in a comma-separated
configuration value, the script does four things:

1. It picks the bucket keys that begin with the environment name
   (`parse_bucket_objects`).
2. It turns each picked key such as `proj-env-res-class.tfstate` into a
   resource-class name such as `res-class` (`parse_res_classes`).
3. It renders one `backend.tf` per key into
   `./generated/<environment>/<resource class>/` (`generate_backend_file`).
4. It repeats this for every environment in the list (`main`).

The project has two modules:

- `PyStr` (`py_str.dfy`) defines `str.split(sep, maxsplit)` as the script
  calls it (`:55`, `:97`). It also defines `startswith`, `endswith`, `count`
  and `sep.join`, which the script does not call. They are there to state
  what `re.match`, `re.sub` and `split` do. The module proves how `split` and
  `join` relate.
- `StateParser` (`state_parser.dfy`) holds the script itself:
  - the prefix filter, as a function and as the loop method that computes it;
  - the `.tfstate` removal, including the way Python's `$` also matches
    before a final newline;
  - the bounded `split('-', 2)[2]`, whose `IndexError` becomes
    `Err(MalformedKey(name))`;
  - the output paths;
  - the two loops of `generate_backend_file` and `main`, as methods.

  The two loop methods are proved equal to the plan functions `BackendPlan`
  and `RunPlan`. These functions are written for any way `classOf` of
  deriving a resource class. The script's own plans, `PlanBackendFiles` and
  `PlanEnvironments`, take `classOf := ParseResClass`, so every lemma about a
  plan holds for the script.

The model gives the bucket listing as a sequence of keys. A render of the
template is recorded as a `BackendRender` value with three parts: the
directory to create, the file to write, and the template context (bucket,
key, region).

A tool like this might be expected to skip a key that has no resource class
and carry on with the other keys and environments. The code does not do
that, and the model follows the code. In the code, `parse_res_classes` raises `IndexError` on such a key, and nothing
catches it. That exception ends `generate_backend_file` and the whole of
`main`. The model returns the renders done before that key, together with the
key itself (`failedOn`). The lemmas `BackendPlanStopped` and `RunPlanStopped`
prove that nothing after that key is processed.

Two keys can get the same output path, because the resource class drops the
first two segments of a key. Two keys of one environment with the same
resource class are rendered into the same `backend.tf`, and the later render
overwrites the earlier file. The prefix filter makes this reachable: for the
environment `proj-prod` it also picks `proj-prod2-web.tfstate`, which is
rendered into the same path as `proj-prod-web.tfstate`. The model records
both renders in order and proves the collision (`SharedResClassSamePath`,
`PrefixNeighbourOverwrites`). It does not model file contents, so it does
not show which key's backend ends up in the file.

## Model

| member | source | states |
|---|---|---|
| PyStr.JoinSplit | scripts/state_parser.py:55 | joining the pieces of `s.split(sep, maxsplit)` with `sep` gives `s` back, for every budget |
| PyStr.SplitLength | scripts/state_parser.py:55 | `split(sep, maxsplit)` makes `min(count, maxsplit)` splits (all of them when the budget is negative), so it yields one piece more than that |
| PyStr.SplitInnerPiecesFree | scripts/state_parser.py:55 | every piece of a split except the last is free of the separator |
| PyStr.SplitLastPieceFree | scripts/state_parser.py:97 | when the budget was not used up (always for `split(',')`), the last piece is free of the separator too |
| PyStr.SplitFree | scripts/state_parser.py:97 | a string without the separator comes back as the only piece |
| PyStr.SplitNone | scripts/state_parser.py:55 | with a budget of 0 the string comes back unsplit |
| PyStr.SplitAfterHead | scripts/state_parser.py:55 | a separator-free head before the first separator becomes the first piece, and the rest is split with one split less |
| PyStr.SplitJoin | scripts/state_parser.py:97 | separator-free pieces joined with the separator and split without limit come back unchanged (inverse of `JoinSplit`) |
| StateParser.MatchingKeys | scripts/state_parser.py:34-41 | the filter never returns more keys than the listing holds |
| StateParser.ParseBucketObjects | scripts/state_parser.py:23-41 | the loop returns exactly `MatchingKeys` of the listing |
| StateParser.MatchingKeysMembership | scripts/state_parser.py:35-39 | a key is returned if and only if it is in the listing and begins with the search string, `re.escape` making the pattern a literal prefix |
| StateParser.MatchingKeysSubsequence | scripts/state_parser.py:37-39 | the result is the listing's keys at exactly the matching positions, in ascending order, so it is an order-preserving subsequence |
| StateParser.MatchingKeysEmptySearch | scripts/state_parser.py:35-39 | an empty search string keeps every key, in order |
| StateParser.StartsWithShorter | scripts/state_parser.py:38 | a key that begins with a longer search string begins with each prefix of it |
| StateParser.MatchingKeysNarrowing | scripts/state_parser.py:35-39 | filtering the keys of `p` by `p + q` gives the keys of `p + q`, so an environment's keys are also picked for every environment whose name is a prefix of its name |
| StateParser.MatchingKeysExample | scripts/state_parser.py:23-41 | from `prod-web-app`, `prod-web-db` and `stage-web-app`, the search `prod-web` keeps the first two, in order |
| StateParser.StripStateSuffixMatches | scripts/state_parser.py:54 | the suffix removal deletes the match of `\.tfstate$` when there is one, with `$` at the end or before a final newline, and otherwise returns the name unchanged |
| StateParser.AtMostOneSuffixMatch | scripts/state_parser.py:54 | the pattern matches at one position at most, so at most one occurrence is removed |
| StateParser.StripStateSuffixCases | scripts/state_parser.py:54 | `name.tfstate` becomes `name`; `name.tfstate` followed by a newline becomes `name` followed by a newline; a name not ending in the suffix is unchanged |
| StateParser.ResClassDefined | scripts/state_parser.py:55 | `split('-', 2)[2]` exists if and only if the name contains at least two dashes |
| StateParser.ResClassDecomposition | scripts/state_parser.py:55 | a derived resource class is what follows two dash-free segments and their dashes, and it keeps its own dashes |
| StateParser.ResClassOfStateName | scripts/state_parser.py:55 | the converse: the name `project-env-resClass` with dash-free `project` and `env` yields `resClass` |
| StateParser.ParseStateFileName | scripts/state_parser.py:43-57 | `project-env-resClass.tfstate` yields `resClass` |
| StateParser.ParseResClassExample | scripts/state_parser.py:43-57 | `proj-env-res-class.tfstate` yields `res-class` |
| StateParser.ResClassOfOneDash | scripts/state_parser.py:55 | a name with a single dash has no third piece, so it is `MalformedKey` |
| StateParser.ParseOneDashStateFile | scripts/state_parser.py:43-57 | a key like `onlytwo-segments.tfstate` raises, as `MalformedKey("onlytwo-segments")` |
| StateParser.BackendUriJoin | scripts/state_parser.py:68-70 | the output path is `.`, `generated`, the environment, the resource class and `backend.tf`, joined with `/` |
| StateParser.BackendUriSegments | scripts/state_parser.py:68-70 | read back along `/`, the output path gives exactly those five segments when the environment and the resource class contain no `/` |
| StateParser.BackendUriInjective | scripts/state_parser.py:68-70 | slash-free (environment, resource class) pairs get the same output path if and only if they are equal (distinct keys with the same resource class still collide; see `SharedResClassSamePath`) |
| StateParser.SharedResClassSamePath | scripts/state_parser.py:66-78 | two state files with the same resource class are both rendered, in order, into the same output path, so the second `dump` overwrites the first one's file |
| StateParser.PrefixNeighbourOverwrites | scripts/state_parser.py:35-38 | the filter for `<project>-<env>` keeps the keys `<project>-<env>-<rc>.tfstate` and `<project>-<env><more>-<rc>.tfstate`; they are distinct keys rendered into the same path `./generated/<project>-<env>/<rc>/backend.tf` |
| StateParser.NeighbourKeysShape | scripts/state_parser.py:38 | both of those keys begin with `<project>-<env>`, and the second is longer |
| StateParser.BothPicked | scripts/state_parser.py:37-39 | two keys that both begin with the search string are both kept, in order |
| StateParser.BackendPlanShape | scripts/state_parser.py:66-78 | a call renders state file `j` (in list order) into the path built from its own resource class with context (bucket, key, region); it stops exactly at the first key without a resource class |
| StateParser.BackendPlanFails | scripts/state_parser.py:66-67 | a call stops early if and only if one of its state files has no resource class |
| StateParser.BackendPlanStopped | scripts/state_parser.py:66-67 | once a key has raised, the state files after it change nothing |
| StateParser.GenerateBackendFiles | scripts/state_parser.py:60-80 | the loop returns exactly `PlanBackendFiles`: its renders and the key that raised, if any |
| StateParser.RunPlanStopped | scripts/state_parser.py:97-105 | once an environment has raised, the environments after it change nothing |
| StateParser.ProcessEnvironments | scripts/state_parser.py:97-105 | the loop over `project_environments.split(',')` returns exactly `PlanEnvironments` of those names |
| StateParser.EnvironmentStopKey | scripts/state_parser.py:99-105 | the key that stops an environment is a bucket key that begins with the environment name and has no resource class |
| StateParser.EnvironmentRendersKey | scripts/state_parser.py:99-105 | an environment that does not stop renders the backend file of every bucket key that begins with its name |
| StateParser.EnvironmentFinishes | scripts/state_parser.py:99-105 | an environment's call finishes if and only if all of its keys have a resource class |
| StateParser.RunPlanFails | scripts/state_parser.py:97-105 | the run stops early if and only if some environment has a key without a resource class |
| StateParser.RunPlanComplete | scripts/state_parser.py:97-105 | a run that does not stop renders, for every environment and every bucket key that begins with its name, that key's backend file under that environment |
| StateParser.RunPlanSound | scripts/state_parser.py:97-105 | every render is the backend file of a bucket key under an environment of the list whose name begins that key, at the path of that key's own resource class, with the configured bucket and region; a key that stops the run is a bucket key without a resource class that begins with the name of some environment of the list, and every environment before that one had only keys with a resource class |

## Left out

- The S3 listing (`scripts/state_parser.py:37`, `:94-95`) is a given sequence of keys, and each environment sees the same sequence. A listing that changes between environments, paging, and listing errors are not modelled.
- The Jinja2 template (`:61-64`, `:75-78`) is not rendered. Each render is recorded with its directory, output path and context, and the file contents are not modelled. Template and write errors are not modelled.
- The directory check and creation (`:72-73`) are recorded as the render's `outputDir`. The file system and its errors are not modelled.
- `re.escape` and `re.match` (`:35`, `:38`) are not modelled as a regular-expression engine. The pattern `^` plus an escaped string matches exactly the keys that begin with that string, so the model uses `StartsWith`. `re.sub` (`:54`) is modelled only for its one fixed pattern.
- Logging (`:8-20`, `:80`, `:98`) and the configuration file (`:84-90`) are left out; the region, the bucket and the environment list are parameters.
- The script does not sanitise environment or resource-class names. A `/` or `..` in either leads to other paths, so the path lemmas require slash-free parts and make no claim about staying under `./generated/`.
- Running `terraform init` and `state pull` in the generated directories, concurrently, is not part of `scripts/state_parser.py` and is not modelled.
- Skipping malformed keys and carrying on is not modelled, because the code does not do it: it stops at the first malformed key (see above).
