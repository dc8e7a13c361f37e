/** `copy_download_packages_and_upload_to_repo` and its helpers: each selected
    URL is downloaded to a file in the temporary directory named after the URL's
    last path segment, then every downloaded file is uploaded to the destination
    repository and the upload's status code is reported. Two URLs with the same
    last segment share a save path, and the later download overwrites the
    earlier one before anything is uploaded. A URL whose last segment is empty,
    `.` or `..` cannot be saved, and the copy stops there with an error before
    any upload. The transfers themselves are I/O;
    here the temporary directory and the status code of each upload are inputs,
    and a saved file's content is the URL it came from. */
module Transfer {
  import opened Results
  import opened Text
  import opened OrderedDict

  /** `pkg_url.split("/")[-1]`: the name the downloaded file is saved under. */
  function LocalFileName(url: string): (name: string)
    ensures '/' !in name
    ensures |url| > 0 && url[|url| - 1] == '/' ==> name == ""
  {
    LastSegment(url, '/')
  }

  /** `os.path.join(dir, name)` on POSIX: an absolute `name` replaces `dir`;
      otherwise a `/` is inserted unless `dir` is empty or already ends in one. */
  function JoinPath(dir: string, name: string): (path: string)
    ensures '/' !in name ==> dir <= path && LastSegment(path, '/') == name
  {
    if |name| > 0 && name[0] == '/' then name
    else if |dir| == 0 then name
    else if dir[|dir| - 1] == '/' then
      assert dir + name == dir[..|dir| - 1] + ['/'] + name;
      LastSegmentOfJoin(dir[..|dir| - 1], name);
      dir + name
    else
      LastSegmentOfJoin(dir, name);
      dir + "/" + name
  }

  lemma LastSegmentOfJoin(dir: string, name: string)
    ensures '/' !in name ==> LastSegment(dir + ['/'] + name, '/') == name
  {
    if '/' !in name {
      LastSegmentAfterSeparator(dir, '/', name);
    }
  }

  /** `download_package`'s save path: inside the temporary directory, with the
      URL's last segment as its file name. */
  function TempFilePath(tmp: string, url: string): (path: string)
    ensures tmp <= path
    ensures LastSegment(path, '/') == LocalFileName(url)
  {
    JoinPath(tmp, LocalFileName(url))
  }

  /** The save path of every `(name, url)` item, in order: the `i`-th lies in
      the temporary directory and is named after the `i`-th URL. */
  function SavePaths(tmp: string, items: seq<(string, string)>): (paths: seq<string>)
    ensures |paths| == |items|
    ensures forall i :: 0 <= i < |paths| ==> paths[i] == TempFilePath(tmp, items[i].1)
    ensures forall i :: 0 <= i < |paths| ==>
      tmp <= paths[i] && LastSegment(paths[i], '/') == LocalFileName(items[i].1)
  {
    seq(|items|, i requires 0 <= i < |items| => TempFilePath(tmp, items[i].1))
  }

  /** A file name `open(path, 'wb')` can create inside the temporary directory.
      The empty name, `.` and `..` make the save path the directory itself or
      its parent, and opening a directory for writing raises
      `IsADirectoryError`. */
  predicate Savable(name: string) {
    name != "" && name != "." && name != ".."
  }

  /** The uncaught exception a download raises: the URL whose file could not be saved. */
  datatype SaveError = CannotSave(url: string)

  /** The first item at or after `k` whose file cannot be saved, or `|items|`. */
  function FirstUnsavable(items: seq<(string, string)>, k: nat): (j: nat)
    requires k <= |items|
    ensures k <= j <= |items|
    ensures j < |items| ==> !Savable(LocalFileName(items[j].1))
    ensures forall m :: k <= m < j ==> Savable(LocalFileName(items[m].1))
    decreases |items| - k
  {
    if k == |items| || !Savable(LocalFileName(items[k].1)) then k else FirstUnsavable(items, k + 1)
  }

  /** `download_packages_with_threads`: one download per `(name, url)` item,
      strictly in order, each saved at its save path. The first item whose file
      name cannot be saved raises, and nothing after it is downloaded. */
  function DownloadPackages(tmp: string, items: seq<(string, string)>): (r: Result<seq<string>, SaveError>)
    ensures r.Ok? <==> forall i :: 0 <= i < |items| ==> Savable(LocalFileName(items[i].1))
    ensures r.Ok? ==> r.value == SavePaths(tmp, items)
    ensures r.Err? ==> exists k :: (0 <= k < |items| && r.error.url == items[k].1
      && !Savable(LocalFileName(items[k].1))
      && forall j :: 0 <= j < k ==> Savable(LocalFileName(items[j].1)))
  {
    var k := FirstUnsavable(items, 0);
    if k < |items| then Err(CannotSave(items[k].1)) else Ok(SavePaths(tmp, items))
  }

  /** What the script prints for an upload's status code. */
  datatype UploadOutcome =
    | AlreadyUploaded              // 400
    | Uploaded                     // 204
    | KnownServerBug               // 500
    | OtherUploadStatus(status: int)

  /** The upload branch: total over status codes, one outcome per code, and an
      unexpected code is reported as it is. */
  function ClassifyUpload(status: int): (o: UploadOutcome)
    ensures o == AlreadyUploaded <==> status == 400
    ensures o == Uploaded <==> status == 204
    ensures o == KnownServerBug <==> status == 500
    ensures o.OtherUploadStatus? <==> status != 400 && status != 204 && status != 500
    ensures o.OtherUploadStatus? ==> o.status == status
  {
    if status == 400 then AlreadyUploaded
    else if status == 204 then Uploaded
    else if status == 500 then KnownServerBug
    else OtherUploadStatus(status)
  }

  /** An outcome the classifier can produce. */
  predicate IsUploadOutcome(o: UploadOutcome) {
    o.OtherUploadStatus? ==> o.status != 400 && o.status != 204 && o.status != 500
  }

  /** The status code an outcome stands for. */
  function UploadStatus(o: UploadOutcome): int {
    match o
    case AlreadyUploaded => 400
    case Uploaded => 204
    case KnownServerBug => 500
    case OtherUploadStatus(s) => s
  }

  /** The classifier loses nothing: outcomes and status codes correspond one to one. */
  lemma UploadClassifierIsBijective(status: int, o: UploadOutcome)
    ensures UploadStatus(ClassifyUpload(status)) == status
    ensures IsUploadOutcome(ClassifyUpload(status))
    ensures IsUploadOutcome(o) ==> ClassifyUpload(UploadStatus(o)) == o
  {
  }

  /** No later save goes to the path of the `i`-th one. */
  predicate LastSave(paths: seq<string>, i: int)
    requires 0 <= i < |paths|
  {
    forall j :: i < j < |paths| ==> paths[j] != paths[i]
  }

  /** The last save at or after the `i`-th that goes to the same path, looked
      for from index `k` down, when nothing after `k` goes there. */
  function LastSaveFrom(paths: seq<string>, i: nat, k: nat): (j: nat)
    requires i <= k < |paths|
    requires forall m :: k < m < |paths| ==> paths[m] != paths[i]
    ensures i <= j <= k
    decreases k - i
  {
    if paths[k] == paths[i] then k else LastSaveFrom(paths, i, k - 1)
  }

  /** The index of the save whose file is at the `i`-th path once all saves are done. */
  function LastSaveOf(paths: seq<string>, i: nat): (j: nat)
    requires i < |paths|
    ensures i <= j < |paths|
  {
    LastSaveFrom(paths, i, |paths| - 1)
  }

  lemma {:induction false} LastSaveFromIsLast(paths: seq<string>, i: nat, k: nat)
    requires i <= k < |paths|
    requires forall m :: k < m < |paths| ==> paths[m] != paths[i]
    ensures var j := LastSaveFrom(paths, i, k); paths[j] == paths[i] && LastSave(paths, j)
    decreases k - i
  {
    if paths[k] != paths[i] {
      LastSaveFromIsLast(paths, i, k - 1);
    }
  }

  /** `LastSaveOf` finds a save to the same path after which no save goes there. */
  lemma LastSaveOfIsLast(paths: seq<string>, i: nat)
    requires i < |paths|
    ensures var j := LastSaveOf(paths, i); paths[j] == paths[i] && LastSave(paths, j)
  {
    LastSaveFromIsLast(paths, i, |paths| - 1);
  }

  /** Removing a last save to another path does not move the last save of `i`. */
  lemma {:induction false} LastSaveFromPrefix(paths: seq<string>, i: nat, k: nat)
    requires i <= k < |paths| - 1
    requires forall m :: k < m < |paths| ==> paths[m] != paths[i]
    ensures LastSaveFrom(paths, i, k) == LastSaveFrom(paths[..|paths| - 1], i, k)
    decreases k - i
  {
    if paths[k] != paths[i] {
      LastSaveFromPrefix(paths, i, k - 1);
    }
  }

  /** The temporary directory once every download has finished: each download
      to a path overwrites the one before, so the file at the `i`-th path holds
      the URL of the last save there. `urls[i]` is what is saved at `paths[i]`. */
  function SaveAll(paths: seq<string>, urls: seq<string>): (disk: map<string, string>)
    requires |urls| == |paths|
    ensures forall i :: 0 <= i < |paths| ==> paths[i] in disk
    ensures forall i, j :: 0 <= i < |paths| && j == LastSaveOf(paths, i) ==> disk[paths[i]] == urls[j]
    decreases |paths|
  {
    if |paths| == 0 then map[]
    else
      var n := |paths| - 1;
      var before := SaveAll(paths[..n], urls[..n]);
      var disk := before[paths[n] := urls[n]];
      assert forall i, j :: 0 <= i < |paths| && j == LastSaveOf(paths, i) ==> disk[paths[i]] == urls[j] by {
        forall i, j | 0 <= i < |paths| && j == LastSaveOf(paths, i)
          ensures disk[paths[i]] == urls[j]
        {
          if paths[i] != paths[n] {
            LastSaveFromPrefix(paths, i, n - 1);
            assert paths[..n][i] == paths[i];
            assert before[paths[..n][i]] == urls[..n][j];
          }
        }
      }
      disk
  }

  /** One reported upload: the path, the URL whose download the file there
      holds, and what the script printed for the server's answer. */
  datatype Transferred = Transferred(path: string, content: string, outcome: UploadOutcome)

  /** The upload loop: every path is uploaded, whatever happened to earlier ones;
      the file sent is what `disk` holds at that path, and `statuses[i]` is the
      server's answer to the `i`-th upload. */
  function UploadAll(paths: seq<string>, disk: map<string, string>, statuses: seq<int>): (report: seq<Transferred>)
    requires |statuses| == |paths|
    requires forall i :: 0 <= i < |paths| ==> paths[i] in disk
    ensures |report| == |paths|
    ensures forall i :: 0 <= i < |report| ==>
      && report[i].path == paths[i]
      && report[i].content == disk[paths[i]]
      && report[i].outcome == ClassifyUpload(statuses[i])
      && UploadStatus(report[i].outcome) == statuses[i]
    decreases |paths|
  {
    if |paths| == 0 then []
    else [Transferred(paths[0], disk[paths[0]], ClassifyUpload(statuses[0]))]
         + UploadAll(paths[1..], disk, statuses[1..])
  }

  /** The path of every reported upload, in order. */
  function Paths(report: seq<Transferred>): (paths: seq<string>)
    ensures |paths| == |report|
    ensures forall i :: 0 <= i < |report| ==> paths[i] == report[i].path
  {
    seq(|report|, i requires 0 <= i < |report| => report[i].path)
  }

  /** `copy_download_packages_and_upload_to_repo(downloads, repository)`: every
      entry of `downloads` is downloaded, in the dict's order, and only then is
      each save path uploaded, in the same order. An upload sends the URL of
      the last entry saved at its path: its own unless a later entry's URL ends
      in the same file name. A file name that cannot be saved raises during the
      downloads, before any upload. */
  function CopyDownloadPackagesAndUploadToRepo(tmp: string, downloads: Dict<string, string>,
                                               statuses: seq<int>): (r: Result<seq<Transferred>, SaveError>)
    requires downloads.Valid() && |statuses| == |downloads.keys|
    ensures r.Ok? <==> forall i :: 0 <= i < |downloads.keys| ==>
      downloads.keys[i] in downloads.entries && Savable(LocalFileName(downloads.entries[downloads.keys[i]]))
    ensures r.Err? ==> exists k :: (0 <= k < |downloads.keys| && downloads.keys[k] in downloads.entries
      && r.error.url == downloads.entries[downloads.keys[k]]
      && !Savable(LocalFileName(downloads.entries[downloads.keys[k]])))
    ensures r.Ok? ==> |r.value| == |downloads.keys|
    ensures r.Ok? ==> forall i :: 0 <= i < |r.value| ==>
      && downloads.keys[i] in downloads.entries
      && r.value[i].path == TempFilePath(tmp, downloads.entries[downloads.keys[i]])
      && r.value[i].outcome == ClassifyUpload(statuses[i])
      && UploadStatus(r.value[i].outcome) == statuses[i]
  {
    var items := downloads.Items();
    match DownloadPackages(tmp, items)
    case Err(e) => Err(e)
    case Ok(paths) => Ok(Mirror(paths, Urls(items), statuses))
  }

  /** The URL of each `(name, url)` item. */
  function Urls(items: seq<(string, string)>): (urls: seq<string>)
    ensures |urls| == |items|
    ensures forall i :: 0 <= i < |items| ==> urls[i] == items[i].1
  {
    seq(|items|, i requires 0 <= i < |items| => items[i].1)
  }

  /** Save every URL at its path, then upload every path in the same order. */
  function Mirror(paths: seq<string>, urls: seq<string>, statuses: seq<int>): (report: seq<Transferred>)
    requires |urls| == |paths| && |statuses| == |paths|
    ensures |report| == |paths| && Paths(report) == paths
    ensures forall i :: 0 <= i < |report| ==>
      && report[i].path == paths[i]
      && report[i].outcome == ClassifyUpload(statuses[i])
      && UploadStatus(report[i].outcome) == statuses[i]
    ensures forall i, j :: 0 <= i < |report| && j == LastSaveOf(paths, i) ==> report[i].content == urls[j]
  {
    var report := UploadAll(paths, SaveAll(paths, urls), statuses);
    assert Paths(report) == paths;
    report
  }

  /** An upload sends the URL saved at its path when no later save goes there. */
  lemma MirrorSendsOwnSave(paths: seq<string>, urls: seq<string>, statuses: seq<int>, i: nat)
    requires |urls| == |paths| && |statuses| == |paths|
    requires i < |paths| && LastSave(paths, i)
    ensures Mirror(paths, urls, statuses)[i].content == urls[i]
  {
    LastSaveOfIsLast(paths, i);
    var j := LastSaveOf(paths, i);
    assert Mirror(paths, urls, statuses)[i].content == urls[j];
  }

  /** Of two saves to one path, the earlier one's upload sends the later one's
      URL when nothing after the later one goes there. */
  lemma MirrorSendsLaterSave(paths: seq<string>, urls: seq<string>, statuses: seq<int>, i: nat, j: nat)
    requires |urls| == |paths| && |statuses| == |paths|
    requires i < j < |paths| && paths[i] == paths[j] && LastSave(paths, j)
    ensures Mirror(paths, urls, statuses)[i].content == urls[j]
  {
    LastSaveOfShared(paths, i, j);
    assert Mirror(paths, urls, statuses)[i].content == urls[LastSaveOf(paths, i)];
  }

  /** The save path of an item is saved to last when no later item's URL ends
      in the same file name. */
  lemma DistinctNamesLastSave(tmp: string, items: seq<(string, string)>, i: nat)
    requires i < |items|
    requires forall k :: i < k < |items| ==> LocalFileName(items[k].1) != LocalFileName(items[i].1)
    ensures LastSave(SavePaths(tmp, items), i)
  {
  }

  /** Of two saves to one path, the later one is the last save of the earlier
      one when nothing after it goes there. */
  lemma LastSaveOfShared(paths: seq<string>, i: nat, j: nat)
    requires i < j < |paths| && paths[i] == paths[j] && LastSave(paths, j)
    ensures LastSaveOf(paths, i) == j
  {
    LastSaveOfIsLast(paths, i);
  }

  /** A successful copy is the mirror of the save paths and URLs of the dict's items. */
  lemma CopyIsMirror(tmp: string, downloads: Dict<string, string>, statuses: seq<int>)
    requires downloads.Valid() && |statuses| == |downloads.keys|
    ensures var r := CopyDownloadPackagesAndUploadToRepo(tmp, downloads, statuses);
      r.Ok? ==> r.value == Mirror(SavePaths(tmp, downloads.Items()), Urls(downloads.Items()), statuses)
  {
  }

  /** When every file can be saved, an upload sends its own entry's download
      unless a later entry's URL ends in the same file name. */
  lemma UploadsOwnDownload(tmp: string, downloads: Dict<string, string>, statuses: seq<int>, i: nat)
    requires downloads.Valid() && |statuses| == |downloads.keys|
    requires i < |downloads.keys|
    requires forall k :: i < k < |downloads.keys| ==>
      LocalFileName(downloads.entries[downloads.keys[k]]) != LocalFileName(downloads.entries[downloads.keys[i]])
    ensures var r := CopyDownloadPackagesAndUploadToRepo(tmp, downloads, statuses);
      r.Ok? ==> r.value[i].content == downloads.entries[downloads.keys[i]]
  {
    var items := downloads.Items();
    CopyIsMirror(tmp, downloads, statuses);
    DistinctNamesLastSave(tmp, items, i);
    MirrorSendsOwnSave(SavePaths(tmp, items), Urls(items), statuses, i);
  }

  /** Two entries whose URLs end in the same file name: the earlier one's upload
      sends the later one's download, provided no entry after the later one
      ends in that name too and every file can be saved. */
  lemma SameFileNameUploadsLaterDownload(tmp: string, downloads: Dict<string, string>, statuses: seq<int>,
                                          i: nat, j: nat)
    requires downloads.Valid() && |statuses| == |downloads.keys|
    requires i < j < |downloads.keys|
    requires LocalFileName(downloads.entries[downloads.keys[i]]) == LocalFileName(downloads.entries[downloads.keys[j]])
    requires forall k :: j < k < |downloads.keys| ==>
      LocalFileName(downloads.entries[downloads.keys[k]]) != LocalFileName(downloads.entries[downloads.keys[j]])
    ensures var r := CopyDownloadPackagesAndUploadToRepo(tmp, downloads, statuses);
      r.Ok? ==> r.value[i].content == r.value[j].content == downloads.entries[downloads.keys[j]]
  {
    var items := downloads.Items();
    var paths := SavePaths(tmp, items);
    CopyIsMirror(tmp, downloads, statuses);
    DistinctNamesLastSave(tmp, items, j);
    MirrorSendsOwnSave(paths, Urls(items), statuses, j);
    MirrorSendsLaterSave(paths, Urls(items), statuses, i, j);
  }
}
