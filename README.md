# Verified model of the Lovelace component updater

`update_components.py` keeps a set of Home Assistant Lovelace front-end
components in step with their GitHub repositories. A JSON configuration
maps each component name to a repository URL, a list of files (a source
path in the repository and a destination under the component's directory)
and a `use_releases` flag. For each component the updater does the
following:

- It finds the upstream state: the latest release, or the head commit of
  `master` (retried on `main`).
- It compares that state with the component's `version.json` record.
- When they differ, it downloads the files in order and stops at the first
  failure.
- Once every download succeeds, it rewrites the record with the version,
  the file list and the file hashes.

`check_for_updates` makes the same comparison without downloading
anything.

The project is organised in five modules:

- `wrappers.dfy`, module `Wrappers`: `Option`.
- `pystr.dfy`, module `PyStr`: the Python string and POSIX path operations
  the script relies on, with Python's edge cases. These are `str.replace`,
  which removes every occurrence, `str.split`, which always yields at least
  one piece, `os.path.basename`, `os.path.join`, where an absolute second
  argument wins, and `s[:n]`.
- `github.dfy`, module `GitHub`, covering three things:
  - repository-URL parsing and the API URLs;
  - the latest-release lookup, and the latest-commit lookup with its
    `master` to `main` retry;
  - the choice between release and commit, the version string, and the
    choice of download URL.
- `reconcile.dfy`, module `Reconcile`: the behaviour of `update_component`,
  `update_all_components` and `check_for_updates` as functions on a value
  `Store`, which holds the files by path and the version records by
  component. The lemmas state what these operations promise.
- `updater.dfy`, module `Updater`: the imperative form. Class `Disk` is the
  filesystem, updated in place. Class `ComponentUpdater` has one method
  per operation, and each method is proved to leave exactly the state and
  return exactly the result that `Reconcile` specifies.

The GitHub API and file downloads are a `Network` value of three maps:

- a releases API URL maps to a release;
- a commits API URL maps to a commit;
- a download URL maps to a body.

A URL that is absent stands for a failed request. The timestamp and the
SHA-256 function are parameters.

## Model

| member | source | states |
|---|---|---|
| PyStr.RemoveAll | update_components.py:54 | `replace` with an empty replacement never lengthens the string; what it removes is stated by `PyStr.RemoveAllAbsent`, `PyStr.RemoveAllFirst` and `PyStr.RemoveLeading` |
| PyStr.RemoveAllAbsent | update_components.py:54 | a string holding no occurrence of the prefix comes back from the replace unchanged |
| PyStr.RemoveAllFirst | update_components.py:54 | the first occurrence of the prefix is deleted, the text before it is kept, and the replace resumes right after it; with `PyStr.RemoveAllAbsent` this determines the result on every string |
| PyStr.RemoveLeading | update_components.py:54 | on a URL whose remainder holds no further `https://github.com/`, the replace strips exactly the prefix |
| PyStr.Split | update_components.py:54 | `split('/')` gives at least one piece, no piece contains `/`, and there is exactly one piece iff the string has no `/` |
| PyStr.SplitJoin | update_components.py:54 | splitting loses nothing: joining the pieces with `/` gives back the string |
| PyStr.Basename | update_components.py:174 | the basename has no `/`, is a suffix of the path, and is preceded by `/` when shorter than the path |
| PyStr.PathJoin | update_components.py:167 | the joined path ends with the destination; an absolute destination replaces the component name; otherwise it starts with the name followed by a separator, which is added only when the name is non-empty and does not already end in `/`, so the length is exact |
| PyStr.Take | update_components.py:153 | `sha[:8]` is the first eight characters, or all of a shorter string |
| GitHub.RepoPath | update_components.py:54 | defined by its body (the replace of `https://github.com/`); see `PyStr.RemoveLeading` and `GitHub.ParseGithubUrl` |
| GitHub.ReleaseApiUrl | update_components.py:60 | defined by its body, the `releases/latest` API URL; see `GitHub.LatestRelease` |
| GitHub.CommitApiUrl | update_components.py:77 | defined by its body, the `commits/{branch}` API URL; see `GitHub.CommitFallback` |
| GitHub.ParseRepo | update_components.py:54-59 | no owner/repo exactly when the stripped path has no `/` (fewer than two segments); owner and repo contain no `/` |
| GitHub.ParseRepoSegments | update_components.py:54-59 | owner and repo are the two leading segments: the path starts with `owner/repo` and ends there or continues with `/` |
| GitHub.ParseGithubUrl | update_components.py:54-60 | conversely, `https://github.com/owner/repo[/...]` parses to exactly that owner and repo |
| GitHub.LatestRelease | update_components.py:51-68 | a release is returned iff the URL parses and the `releases/latest` API URL for its owner and repo answers, and it is exactly that API answer |
| GitHub.LatestCommit | update_components.py:70-88 | defined by its body, with the retry as a recursive call; see `GitHub.CommitFallback` |
| GitHub.CommitFallback | update_components.py:70-88 | the commit lookup returns nothing for an unparsable URL; otherwise it returns the `master` head when that request succeeds, else the `main` head, else nothing |
| GitHub.FetchLatest | update_components.py:133-146 | a release is used iff releases are configured and one is found; otherwise the result is the commit lookup's |
| GitHub.LatestVersion | update_components.py:148-154 | the version is the release tag, or an 8-character (at most) prefix of the commit SHA |
| GitHub.FirstMatch | update_components.py:172-176 | the asset found is the first whose name matches: every earlier asset has another name |
| GitHub.DownloadUrl | update_components.py:170-183 | defined by its body; see `GitHub.DownloadUrlAsset`, `GitHub.DownloadUrlNoAsset`, `GitHub.DownloadUrlCommit` and `Updater.ComponentUpdater.DownloadUrlFor` |
| GitHub.RawUrl | update_components.py:180-183 | defined by its body: `{repo_url}/raw/{ref}/{source}`; see `GitHub.DownloadUrlNoAsset` and `GitHub.DownloadUrlCommit` |
| GitHub.DownloadUrlAsset | update_components.py:170-180 | with a matching asset, the URL is that asset's `browser_download_url`, or the raw URL at the tag when it is empty |
| GitHub.DownloadUrlNoAsset | update_components.py:170-180 | with no matching asset, the URL is `{repo_url}/raw/{tag_name}/{source}` |
| GitHub.DownloadUrlCommit | update_components.py:181-183 | in commit mode the URL is `{repo_url}/raw/{sha}/{source}` with the full SHA |
| Reconcile.Current | update_components.py:42-49 | defined by its body: the component's record, or none when `version.json` is missing |
| Reconcile.Recorded | update_components.py:148-155 | defined by its body: `version` in release mode, `commit_hash` in commit mode, none without a record; see `Reconcile.PendingSpec` |
| Reconcile.ComponentConfig.UsesReleases | update_components.py:133 | defined by its body: `use_releases` when present, true when the key is missing; see `GitHub.FetchLatest` |
| Reconcile.LatestFor | update_components.py:133-146 | defined by its body: the upstream lookup with the component's URL and release mode, shared by the update and the check; see `GitHub.FetchLatest` |
| Reconcile.Outdated | update_components.py:144-159 | defined by its body: configured, upstream state obtained, record differs; see `Reconcile.PendingSpec` |
| Reconcile.StepFor | update_components.py:165-183 | defined by its body: one download from `DownloadUrl` to `component/destination`; see `Reconcile.PlanDests` and `GitHub.DownloadUrlCommit` |
| Reconcile.Plan | update_components.py:164-183 | one download per configured file, in order; the destinations are stated by `Reconcile.PlanDests` |
| Reconcile.WriteAll | update_components.py:185-186 | defined by its body: the downloads performed in order, a later one to the same path overwriting an earlier; see `Reconcile.ApplySuccessFiles` |
| Reconcile.Report | update_components.py:240-244 | defined by its body: the recorded value, `N/A` when it is missing or empty, the latest version and the URL; see `Reconcile.PendingSpec` |
| Reconcile.UpToDate | update_components.py:157-159 | defined by its body, the equality test; see `Reconcile.UpdateNoOp` and `Reconcile.UpdateIdempotent` |
| Reconcile.FileHash | update_components.py:106-115 | defined by its body: the hash of the file's contents, or the empty string for a missing file; see `Reconcile.ApplySuccessRecord` |
| Reconcile.NewRecord | update_components.py:192-199 | defined by its body; see `Reconcile.ApplySuccessRecord`, which states every field |
| Reconcile.Apply | update_components.py:164-201 | defined by its body; see `Reconcile.ApplyFailure`, `Reconcile.ApplySuccessFiles`, `Reconcile.ApplySuccessRecord` and `Reconcile.ApplyFrame` |
| Reconcile.Update | update_components.py:117-203 | defined by its body; see `Reconcile.UpdateNoOp`, `Reconcile.UpdateFrame`, `Reconcile.UpdateIdempotent` and `Updater.ComponentUpdater.UpdateComponent` |
| Reconcile.Succeeded | update_components.py:164-189 | the downloads that happen are a prefix of the plan, all of them succeed, and the next one, if any, fails |
| Reconcile.UpdateNoOp | update_components.py:119-159 | an unknown component, a failed lookup or an up-to-date record changes nothing; the result is false for the first two and true for the third |
| Reconcile.ApplyFailure | update_components.py:164-189 | after a failed download the result is false, no record changes, and only the destinations already downloaded have changed |
| Reconcile.ApplyFailureKeepsFiles | update_components.py:185-189 | files downloaded before the failure stay in place: nothing is rolled back |
| Reconcile.PlanDests | update_components.py:164-167 | the destinations of the downloads are exactly `component/destination` for the configured files |
| Reconcile.ApplySuccessFiles | update_components.py:164-189 | once every download succeeds, each destination holds its last download and no other path changed |
| Reconcile.ApplySuccessRecord | update_components.py:191-201 | once every download succeeds, only this component's record is replaced, with the version (also as `commit_hash` in commit mode), the URL, the timestamp, the destinations in configuration order and the hash of each file as it now is |
| Reconcile.ApplyFrame | update_components.py:164-201 | the downloads and the record write touch only the component's own record and its own destinations |
| Reconcile.UpdateFrame | update_components.py:117-203 | an update never changes another component's record or any path outside its own destinations |
| Reconcile.UpdateIdempotent | update_components.py:148-203 | after a successful update, the next update against the same upstream state finds the component current and writes nothing |
| Reconcile.Pending | update_components.py:212-246 | defined by its body; see `Reconcile.PendingSpec` and `Updater.ComponentUpdater.CheckForUpdates` |
| Reconcile.PendingAmong | update_components.py:216-244 | defined by its body, the check loop as a fold; see `Reconcile.PendingAmongAt` and `Reconcile.PendingInOrder` |
| Reconcile.PendingSpec | update_components.py:212-246 | a component is reported iff it is configured, its upstream state was obtained and its record differs; the report holds the recorded value (`N/A` when missing or empty), the latest version and the URL |
| Reconcile.PendingAmongAt | update_components.py:216-244 | the check loop reports exactly the outdated names it visited, each with its own report, whatever the order |
| Reconcile.PendingInOrder | update_components.py:216-244 | visiting every configured name in order yields the full report |
| Reconcile.PendingAgreesWithUpdate | update_components.py:148-159 | a component the check does not report is left unchanged by the update; for a reported one, a successful update records the version the check gave as latest |
| Reconcile.UpdateResolvesPending | update_components.py:191-201 | after a successful update the check no longer reports the component |
| Reconcile.RunAll | update_components.py:205-210 | defined by its body; see `Reconcile.RunAllKeys`, `Reconcile.RunAllResult` and `Reconcile.RunAllIndependent` |
| Reconcile.RunAllKeys | update_components.py:205-210 | the results of `update_all_components` have exactly the configured names as keys |
| Reconcile.RunAllResult | update_components.py:205-210 | each result is what `update_component` returned for that name, on the store the earlier names left |
| Reconcile.UpdateOkLocal | update_components.py:117-203 | whether an update succeeds depends only on the component's own record, the configuration and the network |
| Reconcile.RunAllKeepsRecord | update_components.py:205-210 | the updates of other components leave a component's record as it was |
| Reconcile.RunAllIndependent | update_components.py:205-210 | with distinct names, each result is what `update_component` returns on the initial store: one component's failure or success does not change another's result |
| Reconcile.NothingPendingNothingWritten | update_components.py:205-210 | when the check would report nothing, updating everything writes nothing |
| Updater.Disk.Download | update_components.py:90-104 | the download succeeds iff the URL answers, and then exactly the destination changes, to the body |
| Updater.Disk.SaveVersionInfo | update_components.py:34-40 | exactly the component's record is overwritten |
| Updater.ComponentUpdater.constructor | update_components.py:21-32 | the configuration is the loaded one, or empty when the file is missing |
| Updater.ComponentUpdater.DownloadUrlFor | update_components.py:170-183 | the asset search loop, which stops at the first match, computes the download URL |
| Updater.ComponentUpdater.FetchFile | update_components.py:165-189 | one pass of the download loop: it writes the file's destination iff its URL answers |
| Updater.ComponentUpdater.DownloadFiles | update_components.py:164-189 | the loop performs the planned downloads up to the first failure, and lists all destinations when none fails |
| Updater.ComponentUpdater.UpdateComponent | update_components.py:117-203 | the result and the new disk are those of `Reconcile.Update` on the old disk |
| Updater.ComponentUpdater.UpdateAllComponents | update_components.py:205-210 | the results have exactly the configured names as keys, and the results and disk are those of `Reconcile.RunAll` |
| Updater.ComponentUpdater.CheckForUpdates | update_components.py:212-246 | the report is `Reconcile.Pending` of the current records, and nothing is written |

## Left out

- HTTP requests, JSON decoding and the timeout. The `Network` maps stand in
  for them, and these are fixed for one run: the same URL gets the same
  answer each time it is requested.
- Malformed API answers: a missing `tag_name` or `sha` key, or a body that
  is not JSON. A release answer that decodes to an empty object is falsy in
  Python and would trigger the commit fallback. The model's releases are
  always records with a tag.
- Write errors: `os.makedirs` and `open` failing in `_download_file` or
  `_save_version_info` raise exceptions the script does not catch, and the
  model has none.
- Read errors. A `version.json` that is not valid JSON makes `json.load`
  raise, and the script does not catch it (update_components.py:47). A
  configuration entry that lacks `source_url`, `files`, `source` or
  `destination` raises `KeyError` (update_components.py:124-125, 166-167).
  Either error aborts `update_all_components`, so the components after it
  are never processed. The model's records and configuration are always
  well formed, so `Reconcile.RunAllKeys` holds only under that assumption.
- Reconcile.UpdateFrame: paths are compared as strings, with no
  normalisation and no symbolic links. `os.path.join` keeps `..`, `.` and
  repeated `/`. So a destination such as `../other/card.js`, or an absolute
  one, can name another component's file, or its `version.json`, on disk
  while being a different key in the model. The frame lemmas
  (`Reconcile.UpdateFrame`, `Reconcile.ApplyFrame`) say nothing about such
  aliasing.
- A destination that coincides with the component's `version.json`. Records
  and files are kept apart.
- The filesystem path of the record and of the configuration file. The
  configuration arrives already parsed; a JSON object has distinct keys, so
  the loaded configuration is assumed to list each name once.
- SHA-256 and `datetime.now()`. They are parameters `hash` and `now`.
- Reconcile.RunAll: one `now` is passed to every component. The script
  reads the clock once for each successful `update_component`
  (update_components.py:195), so records written in one run may carry
  different timestamps.
- The contents of a hashed file are the bytes just downloaded, read back
  from the modelled disk.
- `main`, argument parsing, `print` and logging.
- Rollback and version ordering. The code keeps the files already
  downloaded when a later download fails, and it compares versions for
  equality only. The model does the same: `Reconcile.ApplyFailureKeepsFiles`
  states that nothing is rolled back, and `Reconcile.UpToDate` is
  equality.
