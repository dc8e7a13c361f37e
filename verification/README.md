# nexus-clone-pip-rep, modelled in Dafny

`copy-pip-repo.py` clones a hosted PyPI repository on a Nexus server. It
creates the destination repository and lists the source repository's
components page by page. For every package name it keeps the download URL of
the asset whose version has the greatest trailing dot-segment read as an
integer. It then downloads each of those files into the temporary directory
and uploads it to the destination. It can also delete a repository unless the
name is protected. Each HTTP status code is mapped to a message.

This project models the logic of the script as pure functions over
immutable data. The HTTP responses, status codes and temporary directory are
inputs. The modules are:

- `Results`: the `Option` and `Result` types.
- `Text`: `str.split(sep)`, taking its last piece, and Python's `int()` on a string.
- `OrderedDict`: an insertion-ordered dict, as Python's `dict` is, plus the
  first-occurrence order of a sequence.
- `Listing`: `get_last_packages_urls_in_repo`.
  - A response is a `Page`: its components and its continuation token.
  - The two loops are a fold (`Step`, `Run`) over the assets of a page.
  - `Walk` is the pagination loop.
  - The fold is written for any comparison key (`VersionKey`) and used with
    `TrailingNumber`, which is `int(version.split('.')[-1])`.
  - `ListingMeetsSpec` describes the result independently of the loop: one
    URL per name, in discovery order, taken from the first asset with the
    greatest key. It also states when the listing raises and how many
    responses it reads.
- `Transfer`: the saved file's name and path, the sequential download loop,
  the files it leaves in the temporary directory (a later download to the
  same path overwrites an earlier one), the failure to save a file whose
  name is empty, `.` or `..`, the upload status branches and
  `copy_download_packages_and_upload_to_repo`.
- `Lifecycle`: the body `create_repo` posts, the create and delete status
  branches, the protected-name guard, the `--source` default and the
  `--make` dispatch.
- `Scenarios`: runs of the model on small listings, stated for arbitrary
  names, versions and URLs: two versions of one package and one of another,
  `1.2.3` against `1.2.10`, equal trailing numbers, a single non-numeric
  version, a repeated non-numeric version, three pages, an empty repository,
  two packages whose URLs end in the same file name, and a URL ending in `/`.

Two behaviours of the command line:

- The help text of `--make` (copy-pip-repo.py:29) names `create` and `delete`,
  but the parser does not restrict the value, and any other value does
  nothing (`Lifecycle.Dispatch`).
- The help text of `--source` (copy-pip-repo.py:30) gives `production` as an
  example. The script falls back to `production` when the option is absent
  and also when it is the empty string, since it tests the value's truth
  (`Lifecycle.SourceRepo`).

## Model

| member | source | states |
|---|---|---|
| `Text.LastSegment` | copy-pip-repo.py:56 | `s.split(sep)[-1]`: holds no `sep`, is a suffix of `s`, and is preceded by `sep` whenever it is shorter than `s` |
| `Text.Split` | copy-pip-repo.py:56 | `str.split` yields at least one piece and no piece holds the separator |
| `Text.JoinSplit` | copy-pip-repo.py:56 | joining the pieces of a split with the separator gives back the original string |
| `Text.LastSegmentIsLastPiece` | copy-pip-repo.py:56 | `LastSegment` is exactly the last element of `Split`, i.e. `split(sep)[-1]` |
| `Text.LastSegmentAfterSeparator` | copy-pip-repo.py:56 | whatever follows the last separator is the last segment, whatever precedes it |
| `Text.Strip` | copy-pip-repo.py:56 | the whitespace `int()` skips around an ASCII numeral (space and `\t` to `\r`, not `\x1c` to `\x1f`): the result is a slice of the input with only such whitespace outside it and none at either end |
| `Text.SeparatorIsNotSpace` | copy-pip-repo.py:56 | `int()` rejects a numeral preceded or followed by an information separator such as `\x1c` |
| `Text.ParsedCharacters` | copy-pip-repo.py:56 | a string `int()` accepts holds a digit and consists only of digits, whitespace, signs and underscores, so `rc1`, `post1` or `dev0` raise |
| `Text.ParseInt` | copy-pip-repo.py:56 | `int()` succeeds only on a string that is not blank once stripped and has at most 4300 digits, Python's default limit for decimal conversion; a negative result comes from a leading `-` |
| `Text.ParseShowInt` | copy-pip-repo.py:56 | `int(str(n))` succeeds iff `n` has at most 4300 digits, and then gives back `n`, negative `n` included |
| `Text.ParseDigitString` | copy-pip-repo.py:56 | a non-empty run of decimal digits parses to the number it spells, leading zeros allowed, when it has at most 4300 digits, and raises when it has more |
| `Text.ParseNegatedDigits` | copy-pip-repo.py:56 | a `-` before a run of decimal digits parses iff there are at most 4300 digits, and gives the negated number |
| `OrderedDict.Dict.Put` | copy-pip-repo.py:53-58 | assignment to a dict key: the key maps to the new value, every other entry is unchanged, an existing key keeps its position, and a new key goes last |
| `OrderedDict.Dict.Items` | copy-pip-repo.py:75 | `dict.items()` lists every key once, in insertion order, with its value |
| `OrderedDict.Dedup` | copy-pip-repo.py:53-55 | the keys a dict ends with after inserting a sequence: distinct, and exactly the elements of the sequence |
| `OrderedDict.DedupFollowsFirstOccurrence` | copy-pip-repo.py:53-55 | those keys are ordered strictly by the position of each element's first occurrence |
| `Listing.HasMore` | copy-pip-repo.py:61-62 | the loop asks for another response iff the token is neither JSON `null` nor the empty string |
| `Listing.TrailingNumber` | copy-pip-repo.py:56 | a version without `.` is parsed whole, and a version ending in `.` has no trailing number (`int('')` raises) |
| `Listing.Start` | copy-pip-repo.py:42-43 | the listing starts from two empty dicts with the same keys |
| `Listing.Record` | copy-pip-repo.py:54-58 | the paired assignment to `assets` and `downloads` keeps the two dicts keyed alike, overwrites the name's entry, leaves every other entry alone, and appends only a new name |
| `Listing.Step` | copy-pip-repo.py:52-60 | one asset: untagged leaves the state unchanged, a new name never fails, a failure is a version whose key is missing, and the name is present afterwards |
| `Listing.Run` | copy-pip-repo.py:50-60 | the asset loops keep both dicts keyed alike, and any error they raise is a version without a key |
| `Listing.Walk` | copy-pip-repo.py:48-63 | the loop from response `i` reads at least one response when any remain and never more than are supplied; every response before the last one read carried a token; success means the last one read had none and the dict is well formed; running out means the supply ended on a token; any other failure is a version without a key |
| `Listing.GetLastPackagesUrls` | copy-pip-repo.py:41-64 | the same from the first response, with `int()` of the last dot-segment as the key: no response is read only when none is supplied, and a failure other than running out is a version whose trailing segment `int()` rejects |
| `Listing.StepUntagged` | copy-pip-repo.py:52-60 | an asset without `pypi` keeps the loop invariant |
| `Listing.StepNew` | copy-pip-repo.py:53-55 | the first asset of a name is recorded without parsing any version, and it becomes that name's current winner |
| `Listing.StepKnown` | copy-pip-repo.py:56-58 | a repeated name fails exactly when the stored or the new version has no key; otherwise the invariant holds after the step |
| `Listing.WinnerAfterKnown` | copy-pip-repo.py:56-58 | after a repeated name the winner is the new asset if its key is strictly greater, and otherwise the earlier winner (ties keep the first) |
| `Listing.StepKeepsInv` | copy-pip-repo.py:50-60 | one asset fails exactly when the assets seen stop being well versioned; otherwise the invariant (keys in discovery order, each entry its winner's) is preserved |
| `Listing.RunKeepsInv` | copy-pip-repo.py:50-60 | the same for a whole run of assets |
| `Listing.InvGivesLatest` | copy-pip-repo.py:64 | the returned `downloads` dict holds one entry per discovered name, in discovery order, each the URL of that name's winner |
| `Listing.ListingMeetsSpec` | copy-pip-repo.py:41-64 | with page `k` the first whose token is empty or null: at most `k+1` responses are read, exactly `k+1` on success; the call succeeds iff every repeated name has numeric trailing segments; the result is as in `InvGivesLatest`; any failure is a bad version |
| `Listing.LaterPagesIgnored` | copy-pip-repo.py:61-63 | responses after the first final page are never read: changing them changes neither the result nor the number of fetches |
| `Listing.ListingWithoutEnd` | copy-pip-repo.py:48-63 | responses that all carry a token never end the listing normally; if no version fails, the loop asks for one response more than there are |
| `Listing.UntaggedContributeNothing` | copy-pip-repo.py:52-60 | dropping the assets without `pypi` changes neither the result nor the error of the asset loops |
| `Transfer.LocalFileName` | copy-pip-repo.py:68 | the saved file's name holds no `/`, and a URL ending in `/` gives the empty name |
| `Transfer.JoinPath` | copy-pip-repo.py:68 | `os.path.join(dir, name)` for a name without `/` starts with `dir` and has `name` as its last path segment |
| `Transfer.TempFilePath` | copy-pip-repo.py:68 | the save path lies under the temporary directory and its last segment is the URL's last segment |
| `Transfer.SavePaths` | copy-pip-repo.py:68 | one save path per dict item, in the dict's order, each under the temporary directory and named after its URL |
| `Transfer.FirstUnsavable` | copy-pip-repo.py:68-69 | the first item at or after `k` whose file name is empty, `.` or `..`, every item before it having a name `open(path, 'wb')` can create |
| `Transfer.DownloadPackages` | copy-pip-repo.py:66-78 | the downloads succeed iff every item's file name can be saved, and then give the save paths in the dict's order; otherwise the first item whose name is empty, `.` or `..` raises `IsADirectoryError` at line 69, and the error carries its URL |
| `Transfer.ClassifyUpload` | copy-pip-repo.py:91-98 | 400 means already uploaded, 204 uploaded, 500 the known server bug, and any other code is reported as it is; each of these holds iff the status is that code |
| `Transfer.UploadClassifierIsBijective` | copy-pip-repo.py:91-98 | the upload classifier loses no status code: classifying then reading back the code is the identity, in both directions |
| `Transfer.LastSaveOfIsLast` | copy-pip-repo.py:69-71 | the save whose file is left at a path goes to that path, and no later save does |
| `Transfer.SaveAll` | copy-pip-repo.py:75-77 | once every download has finished, each save path holds the URL saved there last: a later download to the same path overwrites the file |
| `Transfer.UploadAll` | copy-pip-repo.py:89-98 | every file is uploaded, whatever happened to earlier ones; each report keeps its path and the content found there, and its outcome is the classifier's for its server status |
| `Transfer.Mirror` | copy-pip-repo.py:88-90 | all downloads happen before the first upload, so each upload reports its path, the URL saved at that path last, and the classified status |
| `Transfer.CopyDownloadPackagesAndUploadToRepo` | copy-pip-repo.py:66-99 | the copy succeeds iff every entry's file name can be saved; a failure carries the URL of an entry whose name cannot be, and nothing is uploaded; on success there is one upload per entry of `downloads`, in the dict's order, upload `i` goes to the save path of entry `i`'s URL, and its outcome is the classifier's for status `i` |
| `Transfer.MirrorSendsOwnSave` | copy-pip-repo.py:88-90 | an upload sends the URL saved at its path when no later save goes there |
| `Transfer.MirrorSendsLaterSave` | copy-pip-repo.py:88-90 | of two saves to one path, the earlier one's upload sends the later one's URL when nothing after it goes there |
| `Transfer.LastSaveOfShared` | copy-pip-repo.py:75-77 | of two saves to one path, the later one is the save left there when nothing after it goes there |
| `Transfer.DistinctNamesLastSave` | copy-pip-repo.py:68-69 | a save is the last to its path when no later URL ends in the same file name |
| `Transfer.UploadsOwnDownload` | copy-pip-repo.py:87-90 | when the copy succeeds, upload `i` sends entry `i`'s download when no later entry's URL ends in the same file name |
| `Transfer.SameFileNameUploadsLaterDownload` | copy-pip-repo.py:68-90 | when the copy succeeds, two entries whose URLs end in the same file name share a save path, so both uploads send the later entry's download |
| `Lifecycle.CreateRequest` | copy-pip-repo.py:119-134 | the repository body carries the requested name, is online with strict content validation and proprietary components, uses blob store `default` and write policy `allow`, and lists the single cleanup policy `string` |
| `Lifecycle.CreateRequestVariesOnlyInName` | copy-pip-repo.py:119-134 | two creation bodies differ in nothing but the name |
| `Lifecycle.ClassifyCreate` | copy-pip-repo.py:137-141 | 415 means the repository exists and 201 that it was created; any other code prints nothing; each holds iff the status is that code |
| `Lifecycle.ClassifyDelete` | copy-pip-repo.py:104-115 | 404, 204, 401, 403 and 500 each get their own message, iff the status is that code, and every other code is unhandled |
| `Lifecycle.ClassifiersAreBijective` | copy-pip-repo.py:104-141 | neither the create nor the delete classifier loses the status code, in both directions |
| `Lifecycle.DeleteIssued` | copy-pip-repo.py:158 | a delete is issued iff no protected name equals the destination |
| `Lifecycle.NothingProtectedAsShipped` | copy-pip-repo.py:144-145 | with the shipped, empty protected list every destination is deleted |
| `Lifecycle.SourceRepo` | copy-pip-repo.py:147-150 | the source is `--source` when it is given and non-empty, and `production` otherwise |
| `Lifecycle.Dispatch` | copy-pip-repo.py:146-159 | `create` clones from the chosen source into the destination; `delete` deletes the destination iff it is not protected and otherwise does nothing; any other value does nothing |
| `Lifecycle.SourceRepoSettles` | copy-pip-repo.py:147-150 | the chosen source is never empty, and passing it back as `--source` chooses it again |
| `Lifecycle.SourceOnlyMattersToCreate` | copy-pip-repo.py:146-159 | for any `--make` other than `create`, the action is the same whatever `--source` is |
| `Lifecycle.DispatchTouchesOnlyDest` | copy-pip-repo.py:146-159 | every clone or delete is of `--dest`, and a protected destination is never deleted |
| `Scenarios.TrailingNumberOfDecimal` | copy-pip-repo.py:56 | a version ending in `.N`, with `N` written in decimal, has trailing number `N`, whatever comes before, unless `N` has more than 4300 digits, when it has none |
| `Scenarios.TwoVersionsAndAnother` | copy-pip-repo.py:41-64 | `alpha` twice and `beta` once: one fetch, keys `[alpha, beta]`, `alpha` mapped to its greater version's URL, and, when both URLs name a file that can be saved, two files mirrored, not three |
| `Scenarios.CopyTwo` | copy-pip-repo.py:66-90 | copying two entries succeeds iff both URLs name a file that can be saved, and then reports two uploads |
| `Scenarios.OnlyTrailingSegmentCounts` | copy-pip-repo.py:56-58 | a later version whose trailing number is not greater does not replace the first, whatever the earlier segments say; a tie keeps the first (for trailing numbers of at most 4300 digits) |
| `Scenarios.NumericNotLexicographic` | copy-pip-repo.py:56-58 | trailing numbers compare as integers: of `1.2.3` and `1.2.10` the latter wins (for trailing numbers of at most 4300 digits) |
| `Scenarios.SingleNonNumericVersionIsKept` | copy-pip-repo.py:53-55 | a name seen once is kept even when its version does not parse |
| `Scenarios.RepeatedNonNumericVersionAborts` | copy-pip-repo.py:56 | a repeated name whose new version does not parse aborts the whole listing with that version |
| `Scenarios.OverlongTrailingNumberAborts` | copy-pip-repo.py:56 | a repeated name whose new trailing number has more than 4300 digits aborts the listing with that version |
| `Scenarios.ThreePagesThreeFetches` | copy-pip-repo.py:48-63 | two pages with tokens and a final one: exactly three responses are read |
| `Scenarios.EmptyRepositoryMirrorsNothing` | copy-pip-repo.py:153-154 | an empty source repository leads to no download and no upload |
| `Scenarios.SameFileNameMirrorsLaterPackage` | copy-pip-repo.py:41-90 | two packages whose URLs end in the same file name `f` are both listed; the copy succeeds iff `f` can be saved, and then both uploads send the second one's file |
| `Scenarios.TrailingSlashStopsCopy` | copy-pip-repo.py:66-69 | a package whose URL ends in `/` is listed, but saving it opens the temporary directory itself and the copy fails with that URL |

## Left out

- HTTP requests, JSON decoding and file reads and writes are I/O. Responses
  are given as decoded `Page`s, upload statuses as a sequence, and the
  temporary directory as a string. A saved file's content is represented by
  the URL it was downloaded from.
- A response that lacks the `items`, `assets`, `name`, `version`,
  `downloadUrl` or `continuationToken` key would raise `KeyError`. Decoded
  pages always carry these fields, so this is not modelled. A JSON `null`
  token is `None`. A `pypi` key whose value is `null` would raise `TypeError`;
  the model only has "key present, with a name and version" or "key absent".
- The script would keep requesting pages as long as tokens arrive. The model's
  supply of responses is finite. Running out while a token still asks for
  more is the error `PagesExhausted`, and the fetch count says how many
  responses were read.
- `Text.Strip` only strips space and `\t` to `\r`, which is what `int()`
  skips in an all-ASCII string. When a string holds a non-ASCII character,
  CPython first turns every non-ASCII whitespace character into a space and
  every non-ASCII decimal digit into its ASCII digit; ASCII characters,
  `\x1c` to `\x1f` included, are left as they are. For versions holding
  non-ASCII whitespace or digits the model reports a parse failure where
  Python would not.
- `Text.ParseInt` carries the same gap: it reads ASCII digits only, so a
  version whose trailing segment uses non-ASCII digits or is padded with
  non-ASCII whitespace fails to parse in the model and parses in Python.
- `Text.MaxStrDigits` is Python's default limit of 4300 digits for `int()`
  on a decimal string. `sys.set_int_max_str_digits` or
  `PYTHONINTMAXSTRDIGITS` can change it, and Python releases before 3.11
  without the 2022 security fix have no limit; the model uses the default.
- `Text.ShowInt` is `str(n)` without Python's matching limit on converting
  integers of more than 4300 digits to text. It only serves to state
  `Text.ParseShowInt`; the script never calls `str()` on a number.
- `Listing.TrailingNumber` is a plain function (`int()` of the last segment),
  so the model has no exceptions. A failed parse is the error `BadVersion`,
  carrying the version that failed.
- `delete_repository` formats its URL with one argument for two placeholders
  and passes a three-element `auth` (line 102). Python raises at that line
  before any request is sent. This plumbing defect is not modelled: the
  delete classifier is modelled as the branches at lines 104-115 intend.
- Argument parsing and merging credentials from the environment with the
  command line (lines 20-39) are process state with no logic; the parsed
  `--make`, `--source` and `--dest` values are parameters of `Lifecycle.Dispatch`.
- Printing, `pprint` of skipped assets, `KeyboardInterrupt` handling and the
  exit codes (lines 60, 155-160) are not modelled. The classifiers return the
  message kind instead of printing it.
- `Transfer.DownloadPackages` models one I/O failure only: a file name that
  is empty, `.` or `..`, where `open(path, 'wb')` meets a directory. Other
  failures are not modelled: a directory of the same name already in the
  temporary directory, a full disk, a failed `requests.get`. The model
  assumes the temporary directory itself exists and is writable. The failed
  item's request at line 67 is sent before the failure; the model records
  only the error.
- `Transfer.JoinPath` is `posixpath.join`, so the model assumes a POSIX
  system. On Windows `os.path` is `ntpath`, which also splits on `\`
  and treats drive letters specially.
- There is no concurrency: `download_packages_with_threads` is sequential and
  is modelled as a plain loop.
- The create-and-mirror sequence in `__main__` (lines 151-154) is modelled by
  its parts, not by one function: `Lifecycle.Dispatch` chooses it, and
  `Listing.GetLastPackagesUrls` and
  `Transfer.CopyDownloadPackagesAndUploadToRepo` do the work.
  `Scenarios.EmptyRepositoryMirrorsNothing` and `Scenarios.TwoVersionsAndAnother`
  compose them.
