/** `get_last_packages_urls_in_repo`: walk the paginated components listing of a
    repository and keep, per package name, the download URL of the asset whose
    version has the greatest trailing dot-segment. The HTTP requests and JSON
    decoding are outside the model: the listing is given as the sequence of
    decoded responses the server would send, first page first. */
module Listing {
  import opened Results
  import opened Text
  import opened OrderedDict

  /** The `pypi` object of an asset. */
  datatype PypiInfo = PypiInfo(name: string, version: string)

  /** One asset of a component; `pypi` is `None` when the asset has no `pypi` key. */
  datatype Asset = Asset(pypi: Option<PypiInfo>, downloadUrl: string)

  datatype Component = Component(assets: seq<Asset>)

  /** One decoded listing response: its `items` and its `continuationToken`,
      where `None` stands for JSON `null`. */
  datatype Page = Page(items: seq<Component>, continuationToken: Option<string>)

  /** The token is truthy, so the loop asks for another page: JSON `null` and
      the empty string end the listing, any other string continues it. */
  predicate HasMore(p: Page)
    ensures HasMore(p) <==> p.continuationToken != None && p.continuationToken != Some("")
  {
    p.continuationToken.Some? && p.continuationToken.value != ""
  }

  datatype ListError =
    | BadVersion(version: string)  // `int()` raised ValueError on this version's last segment
    | PagesExhausted               // the supplied responses end while a token still asks for more

  /** The listing's two dicts: `assets` (name to version) and `downloads` (name to URL). */
  datatype State = State(versions: Dict<string, string>, downloads: Dict<string, string>)

  /** Both dicts are well formed and always hold the same keys in the same order. */
  ghost predicate Valid(st: State) {
    && st.versions.Valid()
    && st.downloads.Valid()
    && st.versions.keys == st.downloads.keys
  }

  function Start(): (st: State)
    ensures Valid(st) && st.versions.keys == []
  {
    State(Empty(), Empty())
  }

  /** `int(version.split('.')[-1])`, `None` where it raises: the comparison
      key of the listing. */
  function TrailingNumber(version: string): (r: Option<int>)
    ensures '.' !in version ==> r == ParseInt(version)
    ensures |version| > 0 && version[|version| - 1] == '.' ==> r.None?
  {
    ParseInt(LastSegment(version, '.'))
  }

  /** The listing below is written for any comparison key and used with
      `TrailingNumber`; keeping the key a parameter keeps the proofs about the
      fold apart from the proofs about parsing. */
  type VersionKey = string -> Option<int>

  /** The asset has a `pypi` entry for package `n`. */
  predicate Tagged(a: Asset, n: string) {
    a.pypi.Some? && a.pypi.value.name == n
  }

  function Num(a: Asset, key: VersionKey): Option<int>
    requires a.pypi.Some?
  {
    key(a.pypi.value.version)
  }

  /** The body of the inner loop for one asset. An untagged asset is skipped; a
      new name is recorded; a known name is replaced only when the new key is
      strictly greater. The key is computed only for a known name, the stored
      version first. */
  function Step(st: State, a: Asset, key: VersionKey): (r: Result<State, ListError>)
    requires Valid(st)
    ensures r.Ok? ==> Valid(r.value)
    ensures a.pypi.None? ==> r == Ok(st)
    ensures a.pypi.Some? && a.pypi.value.name !in st.versions.entries ==> r.Ok?
    ensures r.Err? ==> r.error.BadVersion? && key(r.error.version).None?
    ensures r.Ok? && a.pypi.Some? ==> a.pypi.value.name in r.value.versions.entries
  {
    match a.pypi
    case None => Ok(st)
    case Some(info) =>
      var record := Record(st, a);
      if info.name !in st.versions.entries then Ok(record)
      else
        var kept := st.versions.entries[info.name];
        match key(kept)
        case None => Err(BadVersion(kept))
        case Some(keptNum) =>
          match key(info.version)
          case None => Err(BadVersion(info.version))
          case Some(newNum) => if keptNum < newNum then Ok(record) else Ok(st)
  }

  /** `assets[name] = version; downloads[name] = url` for asset `a`: both dicts
      get `a`'s entry, every other entry stays, and the key order changes only
      by appending a name not seen before. */
  function Record(st: State, a: Asset): (r: State)
    requires Valid(st) && a.pypi.Some?
    ensures Valid(r)
    ensures var m := a.pypi.value.name;
      && m in r.versions.entries && m in r.downloads.entries
      && r.versions.entries[m] == a.pypi.value.version
      && r.downloads.entries[m] == a.downloadUrl
    ensures forall n :: n != a.pypi.value.name ==>
      && (n in r.versions.entries <==> n in st.versions.entries)
      && (n in st.versions.entries ==>
            && n in r.downloads.entries && n in st.downloads.entries
            && r.versions.entries[n] == st.versions.entries[n]
            && r.downloads.entries[n] == st.downloads.entries[n])
    ensures a.pypi.value.name in st.versions.entries ==> r.versions.keys == st.versions.keys
    ensures a.pypi.value.name !in st.versions.entries ==>
      r.versions.keys == st.versions.keys + [a.pypi.value.name]
  {
    State(st.versions.Put(a.pypi.value.name, a.pypi.value.version),
          st.downloads.Put(a.pypi.value.name, a.downloadUrl))
  }

  /** The inner loops over a run of assets; the first error aborts. */
  function Run(st: State, xs: seq<Asset>, key: VersionKey): (r: Result<State, ListError>)
    requires Valid(st)
    ensures r.Ok? ==> Valid(r.value)
    ensures r.Err? ==> r.error.BadVersion? && key(r.error.version).None?
    decreases |xs|
  {
    if |xs| == 0 then Ok(st)
    else
      match Step(st, xs[0], key)
      case Err(e) => Err(e)
      case Ok(next) => Run(next, xs[1..], key)
  }

  /** The assets of a list of components, in listing order. */
  function ComponentAssets(items: seq<Component>): seq<Asset>
    decreases |items|
  {
    if |items| == 0 then [] else items[0].assets + ComponentAssets(items[1..])
  }

  function PageAssets(p: Page): seq<Asset> {
    ComponentAssets(p.items)
  }

  /** Every asset of `pages`, page after page. */
  function AllAssets(pages: seq<Page>): seq<Asset>
    decreases |pages|
  {
    if |pages| == 0 then []
    else AllAssets(pages[..|pages| - 1]) + PageAssets(pages[|pages| - 1])
  }

  /** How many responses were read, and what the function returned or raised. */
  datatype Listed = Listed(fetches: nat, result: Result<Dict<string, string>, ListError>)

  /** The `while True` loop from response `i` on. */
  function Walk(pages: seq<Page>, i: nat, st: State, key: VersionKey): (r: Listed)
    requires i <= |pages| && Valid(st)
    ensures i <= r.fetches <= |pages|
    ensures r.fetches == i ==> i == |pages| && r.result == Err(PagesExhausted)
    ensures forall j :: i <= j < r.fetches - 1 ==> HasMore(pages[j])
    ensures r.result.Ok? ==> i < r.fetches && !HasMore(pages[r.fetches - 1]) && r.result.value.Valid()
    ensures r.result == Err(PagesExhausted) ==> r.fetches == |pages| && (i < |pages| ==> HasMore(pages[|pages| - 1]))
    ensures r.result.Err? && r.result.error.BadVersion? ==> key(r.result.error.version).None?
    decreases |pages| - i
  {
    if i == |pages| then Listed(i, Err(PagesExhausted))
    else
      match Run(st, PageAssets(pages[i]), key)
      case Err(e) => Listed(i + 1, Err(e))
      case Ok(next) =>
        if HasMore(pages[i]) then Walk(pages, i + 1, next, key)
        else Listed(i + 1, Ok(next.downloads))
  }

  /** `get_last_packages_urls_in_repo` over the responses `pages`. */
  function GetLastPackagesUrls(pages: seq<Page>): (r: Listed)
    ensures r.fetches <= |pages|
    ensures r.fetches == 0 ==> pages == [] && r.result == Err(PagesExhausted)
    ensures forall j :: 0 <= j < r.fetches - 1 ==> HasMore(pages[j])
    ensures r.result.Ok? ==> 0 < r.fetches && !HasMore(pages[r.fetches - 1]) && r.result.value.Valid()
    ensures r.result.Err? && r.result.error.BadVersion? ==> TrailingNumber(r.result.error.version).None?
  {
    Walk(pages, 0, Start(), TrailingNumber)
  }

  // ----- What the result means -----

  /** The package names of the tagged assets among `xs`, in order, repeats kept. */
  function TaggedNames(xs: seq<Asset>): seq<string>
    decreases |xs|
  {
    if |xs| == 0 then []
    else
      var last := xs[|xs| - 1];
      TaggedNames(xs[..|xs| - 1]) + (if last.pypi.Some? then [last.pypi.value.name] else [])
  }

  /** The package names of `xs` in the order they were first seen. */
  function Discovered(xs: seq<Asset>): seq<string> {
    Dedup(TaggedNames(xs))
  }

  /** Both assets are tagged, with the same package name. */
  predicate SameName(a: Asset, b: Asset) {
    a.pypi.Some? && Tagged(b, a.pypi.value.name)
  }

  /** Every version of every package that occurs more than once has a key; a
      package seen once may have any version. */
  ghost predicate WellVersioned(xs: seq<Asset>, key: VersionKey) {
    forall i, j :: 0 <= i < |xs| && 0 <= j < |xs| && i != j && SameName(xs[i], xs[j]) ==> Num(xs[i], key).Some?
  }

  /** `xs[i]` is the asset of package `n` the listing keeps: the first one whose
      key is the greatest among all of `n`'s assets. */
  ghost predicate IsWinner(xs: seq<Asset>, n: string, i: int, key: VersionKey) {
    && 0 <= i < |xs|
    && Tagged(xs[i], n)
    && forall j :: 0 <= j < |xs| && j != i && Tagged(xs[j], n) ==>
      && Num(xs[i], key).Some?
      && Num(xs[j], key).Some?
      && (if j < i then Num(xs[j], key).value < Num(xs[i], key).value
          else Num(xs[j], key).value <= Num(xs[i], key).value)
  }

  /** Package `n`'s version and URL in `st` are those of asset `xs[i]`, the winner. */
  ghost predicate Keeps(st: State, xs: seq<Asset>, n: string, i: int, key: VersionKey)
    requires n in st.versions.entries && n in st.downloads.entries
  {
    && IsWinner(xs, n, i, key)
    && st.versions.entries[n] == xs[i].pypi.value.version
    && st.downloads.entries[n] == xs[i].downloadUrl
  }

  /** Package `n`'s entry in `st` comes from its winning asset. */
  ghost predicate Chosen(st: State, xs: seq<Asset>, n: string, key: VersionKey) {
    && n in st.versions.entries
    && n in st.downloads.entries
    && exists i :: Keeps(st, xs, n, i, key)
  }

  /** `st` is what the loop holds after the assets `xs`. */
  ghost predicate Inv(st: State, xs: seq<Asset>, key: VersionKey) {
    && Valid(st)
    && st.versions.keys == Discovered(xs)
    && WellVersioned(xs, key)
    && forall n :: n in st.versions.entries ==> Chosen(st, xs, n, key)
  }

  /** The returned `downloads` dict for the assets `xs`: one entry per package
      name in order of discovery, each the URL of that package's winner. */
  ghost predicate Latest(d: Dict<string, string>, xs: seq<Asset>, key: VersionKey) {
    && d.Valid()
    && d.keys == Discovered(xs)
    && forall n :: n in d.entries ==> exists i :: IsWinner(xs, n, i, key) && d.entries[n] == xs[i].downloadUrl
  }

  lemma TaggedNamesSnoc(xs: seq<Asset>, a: Asset)
    ensures TaggedNames(xs + [a]) == TaggedNames(xs) + (if a.pypi.Some? then [a.pypi.value.name] else [])
  {
    assert (xs + [a])[..|xs|] == xs;
  }

  lemma {:induction false} TaggedNamesMembers(xs: seq<Asset>, n: string)
    ensures n in TaggedNames(xs) <==> exists i :: 0 <= i < |xs| && Tagged(xs[i], n)
    decreases |xs|
  {
    if |xs| > 0 {
      var init := xs[..|xs| - 1];
      TaggedNamesMembers(init, n);
      assert xs == init + [xs[|xs| - 1]];
      TaggedNamesSnoc(init, xs[|xs| - 1]);
      if exists i :: 0 <= i < |xs| && Tagged(xs[i], n) {
        var i :| 0 <= i < |xs| && Tagged(xs[i], n);
        if i < |init| {
          assert init[i] == xs[i];
        }
      }
    }
  }

  lemma DedupSnoc(ys: seq<string>, m: string)
    ensures Dedup(ys + [m]) == if m in Dedup(ys) then Dedup(ys) else Dedup(ys) + [m]
  {
    assert (ys + [m])[..|ys|] == ys;
  }

  /** A winner stays the winner when an asset of another package is appended. */
  lemma WinnerExtends(xs: seq<Asset>, a: Asset, n: string, i: int, key: VersionKey)
    requires IsWinner(xs, n, i, key) && !Tagged(a, n)
    ensures IsWinner(xs + [a], n, i, key)
  {
    var ys := xs + [a];
    forall j | 0 <= j < |ys| && j != i && Tagged(ys[j], n)
      ensures Num(ys[i], key).Some? && Num(ys[j], key).Some?
      ensures if j < i then Num(ys[j], key).value < Num(ys[i], key).value
              else Num(ys[j], key).value <= Num(ys[i], key).value
    {
      assert j < |xs| && ys[j] == xs[j] && ys[i] == xs[i];
    }
  }

  /** The entry of a package other than `a`'s survives appending `a`. */
  lemma ChosenExtends(st: State, st': State, xs: seq<Asset>, a: Asset, n: string, key: VersionKey)
    requires Chosen(st, xs, n, key) && !Tagged(a, n)
    requires n in st'.versions.entries && st'.versions.entries[n] == st.versions.entries[n]
    requires n in st'.downloads.entries && st'.downloads.entries[n] == st.downloads.entries[n]
    ensures Chosen(st', xs + [a], n, key)
  {
    var i :| Keeps(st, xs, n, i, key);
    WinnerExtends(xs, a, n, i, key);
    assert (xs + [a])[i] == xs[i];
    assert Keeps(st', xs + [a], n, i, key);
  }

  /** Appending one asset never turns ill-versioned assets well versioned. */
  lemma WellVersionedPrefix(xs: seq<Asset>, ys: seq<Asset>, key: VersionKey)
    requires WellVersioned(xs + ys, key)
    ensures WellVersioned(xs, key)
  {
    var zs := xs + ys;
    forall i, j | 0 <= i < |xs| && 0 <= j < |xs| && i != j && SameName(xs[i], xs[j])
      ensures Num(xs[i], key).Some?
    {
      assert zs[i] == xs[i] && zs[j] == xs[j];
      assert SameName(zs[i], zs[j]);
    }
  }

  /** An untagged asset leaves the state alone and the invariant intact. */
  lemma StepUntagged(st: State, xs: seq<Asset>, a: Asset, key: VersionKey)
    requires Inv(st, xs, key) && a.pypi.None?
    ensures WellVersioned(xs + [a], key)
    ensures Inv(st, xs + [a], key)
  {
    var ys := xs + [a];
    TaggedNamesSnoc(xs, a);
    assert TaggedNames(ys) == TaggedNames(xs);
    forall p, q | 0 <= p < |ys| && 0 <= q < |ys| && p != q && SameName(ys[p], ys[q])
      ensures Num(ys[p], key).Some?
    {
      assert p < |xs| && q < |xs| && ys[p] == xs[p] && ys[q] == xs[q];
      assert SameName(xs[p], xs[q]);
    }
    forall n | n in st.versions.entries ensures Chosen(st, ys, n, key) {
      ChosenExtends(st, st, xs, a, n, key);
    }
  }

  /** An asset of a package not seen before is recorded at the end of both dicts. */
  lemma StepNew(st: State, xs: seq<Asset>, a: Asset, key: VersionKey)
    requires Inv(st, xs, key) && a.pypi.Some? && a.pypi.value.name !in st.versions.entries
    ensures WellVersioned(xs + [a], key)
    ensures Step(st, a, key).Ok? && Inv(Step(st, a, key).value, xs + [a], key)
  {
    var ys := xs + [a];
    var m := a.pypi.value.name;
    TaggedNamesSnoc(xs, a);
    DedupSnoc(TaggedNames(xs), m);
    TaggedNamesMembers(xs, m);
    NewNameAlone(xs, a, key);
    assert Step(st, a, key) == Ok(Record(st, a));
    ChosenAfterRecord(st, xs, a, key);
  }

  /** An asset whose name no earlier asset carries is its package's winner and
      keeps the assets well versioned. */
  lemma NewNameAlone(xs: seq<Asset>, a: Asset, key: VersionKey)
    requires WellVersioned(xs, key) && a.pypi.Some?
    requires forall j :: 0 <= j < |xs| ==> !Tagged(xs[j], a.pypi.value.name)
    ensures WellVersioned(xs + [a], key)
    ensures IsWinner(xs + [a], a.pypi.value.name, |xs|, key)
  {
    var ys := xs + [a];
    var m := a.pypi.value.name;
    forall p, q | 0 <= p < |ys| && 0 <= q < |ys| && p != q && SameName(ys[p], ys[q])
      ensures Num(ys[p], key).Some?
    {
      if p < |xs| && q < |xs| {
        assert ys[p] == xs[p] && ys[q] == xs[q];
        assert SameName(xs[p], xs[q]);
      }
    }
    forall j | 0 <= j < |ys| && j != |xs| ensures !Tagged(ys[j], m) {
      assert ys[j] == xs[j];
    }
  }

  /** An asset of a known package: the step fails exactly when the stored or the
      new version has no key, and otherwise keeps the invariant. */
  lemma StepKnown(st: State, xs: seq<Asset>, a: Asset, key: VersionKey)
    requires Inv(st, xs, key) && a.pypi.Some? && a.pypi.value.name in st.versions.entries
    ensures Step(st, a, key).Ok? <==> WellVersioned(xs + [a], key)
    ensures Step(st, a, key).Ok? ==> Inv(Step(st, a, key).value, xs + [a], key)
  {
    var ys := xs + [a];
    var m := a.pypi.value.name;
    assert Chosen(st, xs, m, key);
    var i :| Keeps(st, xs, m, i, key);
    assert ys[i] == xs[i] && ys[|xs|] == a;
    if Num(xs[i], key).None? {
      assert Step(st, a, key).Err?;
      assert SameName(ys[i], ys[|xs|]);
    } else if Num(a, key).None? {
      assert Step(st, a, key).Err?;
      assert SameName(ys[|xs|], ys[i]);
    } else {
      WellVersionedSnoc(xs, a, i, key);
      StepKnownOk(st, xs, a, i, key);
    }
  }

  /** The winner after an asset of a known package whose stored winner is `xs[i]`:
      the new asset if its key is strictly greater, `xs[i]` otherwise. */
  lemma WinnerAfterKnown(xs: seq<Asset>, a: Asset, i: int, key: VersionKey)
    requires a.pypi.Some? && IsWinner(xs, a.pypi.value.name, i, key)
    requires Num(xs[i], key).Some? && Num(a, key).Some?
    ensures IsWinner(xs + [a], a.pypi.value.name,
                     if Num(xs[i], key).value < Num(a, key).value then |xs| else i, key)
  {
    var ys := xs + [a];
    var m := a.pypi.value.name;
    var w := if Num(xs[i], key).value < Num(a, key).value then |xs| else i;
    assert ys[i] == xs[i] && ys[|xs|] == a;
    forall j | 0 <= j < |ys| && j != w && Tagged(ys[j], m)
      ensures Num(ys[w], key).Some? && Num(ys[j], key).Some?
      ensures if j < w then Num(ys[j], key).value < Num(ys[w], key).value
              else Num(ys[j], key).value <= Num(ys[w], key).value
    {
      if j < |xs| {
        assert ys[j] == xs[j];
      }
    }
  }

  lemma StepKnownOk(st: State, xs: seq<Asset>, a: Asset, i: int, key: VersionKey)
    requires Inv(st, xs, key) && a.pypi.Some? && a.pypi.value.name in st.versions.entries
    requires Keeps(st, xs, a.pypi.value.name, i, key)
    requires Num(xs[i], key).Some? && Num(a, key).Some?
    requires WellVersioned(xs + [a], key)
    ensures Step(st, a, key).Ok? && Inv(Step(st, a, key).value, xs + [a], key)
  {
    DiscoveredKnown(xs, a);
    WinnerAfterKnown(xs, a, i, key);
    assert key(st.versions.entries[a.pypi.value.name]) == Num(xs[i], key);
    if Num(xs[i], key).value < Num(a, key).value {
      assert Step(st, a, key) == Ok(Record(st, a));
      ChosenAfterRecord(st, xs, a, key);
    } else {
      assert Step(st, a, key) == Ok(st);
      ChosenAfterKeep(st, xs, a, i, key);
    }
  }

  /** A repeated name does not change the order of discovery. */
  lemma DiscoveredKnown(xs: seq<Asset>, a: Asset)
    requires a.pypi.Some? && a.pypi.value.name in Discovered(xs)
    ensures Discovered(xs + [a]) == Discovered(xs)
  {
    TaggedNamesSnoc(xs, a);
    DedupSnoc(TaggedNames(xs), a.pypi.value.name);
  }

  /** When the appended asset is its package's winner, recording it leaves
      every entry chosen. */
  lemma ChosenAfterRecord(st: State, xs: seq<Asset>, a: Asset, key: VersionKey)
    requires Inv(st, xs, key) && a.pypi.Some?
    requires IsWinner(xs + [a], a.pypi.value.name, |xs|, key)
    ensures forall n :: n in Record(st, a).versions.entries ==> Chosen(Record(st, a), xs + [a], n, key)
  {
    var r := Record(st, a);
    var m := a.pypi.value.name;
    assert (xs + [a])[|xs|] == a;
    forall n | n in r.versions.entries ensures Chosen(r, xs + [a], n, key) {
      if n == m {
        assert Keeps(r, xs + [a], m, |xs|, key);
      } else {
        assert Chosen(st, xs, n, key);
        ChosenExtends(st, r, xs, a, n, key);
      }
    }
  }

  /** When the stored asset `xs[i]` stays its package's winner, keeping the
      state leaves every entry chosen. */
  lemma ChosenAfterKeep(st: State, xs: seq<Asset>, a: Asset, i: int, key: VersionKey)
    requires Inv(st, xs, key) && a.pypi.Some? && a.pypi.value.name in st.versions.entries
    requires Keeps(st, xs, a.pypi.value.name, i, key)
    requires IsWinner(xs + [a], a.pypi.value.name, i, key)
    ensures forall n :: n in st.versions.entries ==> Chosen(st, xs + [a], n, key)
  {
    var m := a.pypi.value.name;
    assert (xs + [a])[i] == xs[i];
    forall n | n in st.versions.entries ensures Chosen(st, xs + [a], n, key) {
      if n == m {
        assert Keeps(st, xs + [a], m, i, key);
      } else {
        assert Chosen(st, xs, n, key);
        ChosenExtends(st, st, xs, a, n, key);
      }
    }
  }

  /** Appending an asset of a known package whose stored winner and own version
      both have keys keeps the assets well versioned. */
  lemma WellVersionedSnoc(xs: seq<Asset>, a: Asset, i: int, key: VersionKey)
    requires WellVersioned(xs, key) && a.pypi.Some? && IsWinner(xs, a.pypi.value.name, i, key)
    requires Num(xs[i], key).Some? && Num(a, key).Some?
    ensures WellVersioned(xs + [a], key)
  {
    var ys := xs + [a];
    var m := a.pypi.value.name;
    forall p, q | 0 <= p < |ys| && 0 <= q < |ys| && p != q && SameName(ys[p], ys[q])
      ensures Num(ys[p], key).Some?
    {
      if p == |xs| {
      } else if q == |xs| {
        assert ys[p] == xs[p] && Tagged(xs[p], m);
      } else {
        assert ys[p] == xs[p] && ys[q] == xs[q];
        assert SameName(xs[p], xs[q]);
      }
    }
  }

  /** One asset: the step fails exactly when the assets seen stop being well
      versioned, and otherwise keeps the invariant. */
  lemma StepKeepsInv(st: State, xs: seq<Asset>, a: Asset, key: VersionKey)
    requires Inv(st, xs, key)
    ensures Step(st, a, key).Ok? <==> WellVersioned(xs + [a], key)
    ensures Step(st, a, key).Ok? ==> Inv(Step(st, a, key).value, xs + [a], key)
  {
    if a.pypi.None? {
      StepUntagged(st, xs, a, key);
    } else if a.pypi.value.name !in st.versions.entries {
      StepNew(st, xs, a, key);
    } else {
      StepKnown(st, xs, a, key);
    }
  }

  /** A run of assets: it fails exactly when the assets seen so far stop being
      well versioned, and otherwise keeps the invariant. */
  lemma {:induction false} RunKeepsInv(st: State, seen: seq<Asset>, xs: seq<Asset>, key: VersionKey)
    requires Inv(st, seen, key)
    ensures Run(st, xs, key).Ok? <==> WellVersioned(seen + xs, key)
    ensures Run(st, xs, key).Ok? ==> Inv(Run(st, xs, key).value, seen + xs, key)
    decreases |xs|
  {
    if |xs| == 0 {
      assert seen + xs == seen;
    } else {
      var ys := seen + [xs[0]];
      assert ys + xs[1..] == seen + xs;
      StepKeepsInv(st, seen, xs[0], key);
      match Step(st, xs[0], key)
      case Err(_) =>
        assert Run(st, xs, key).Err?;
        if WellVersioned(seen + xs, key) {
          WellVersionedPrefix(ys, xs[1..], key);
        }
      case Ok(next) =>
        assert Run(st, xs, key) == Run(next, xs[1..], key);
        RunKeepsInv(next, ys, xs[1..], key);
    }
  }


  lemma AllAssetsSnoc(pages: seq<Page>, i: nat)
    requires i < |pages|
    ensures AllAssets(pages[..i + 1]) == AllAssets(pages[..i]) + PageAssets(pages[i])
  {
    assert pages[..i + 1][..i] == pages[..i];
  }

  lemma {:induction false} AllAssetsPrefix(pages: seq<Page>, i: nat, k: nat)
    requires i <= k <= |pages|
    ensures exists ys :: AllAssets(pages[..k]) == AllAssets(pages[..i]) + ys
    decreases k - i
  {
    if i == k {
      assert AllAssets(pages[..k]) == AllAssets(pages[..i]) + [];
    } else {
      AllAssetsPrefix(pages, i + 1, k);
      AllAssetsSnoc(pages, i);
      var ys :| AllAssets(pages[..k]) == AllAssets(pages[..i + 1]) + ys;
      assert AllAssets(pages[..k]) == AllAssets(pages[..i]) + (PageAssets(pages[i]) + ys);
    }
  }

  /** If the assets of the first `k` pages are well versioned, so are those of
      the first `i <= k` pages. */
  lemma WellVersionedPages(pages: seq<Page>, i: nat, k: nat, key: VersionKey)
    requires i <= k <= |pages| && WellVersioned(AllAssets(pages[..k]), key)
    ensures WellVersioned(AllAssets(pages[..i]), key)
  {
    AllAssetsPrefix(pages, i, k);
    var ys :| AllAssets(pages[..k]) == AllAssets(pages[..i]) + ys;
    WellVersionedPrefix(AllAssets(pages[..i]), ys, key);
  }

  /** Page `k` is the first response whose token is empty or null. */
  ghost predicate EndsAt(pages: seq<Page>, k: int) {
    && 0 <= k < |pages|
    && !HasMore(pages[k])
    && forall j :: 0 <= j < k ==> HasMore(pages[j])
  }

  /** What the listing promises when page `k` is the first final page and the
      loop entered page `i`. */
  ghost predicate ListedAsSpecified(r: Listed, xs: seq<Asset>, k: int, i: int, key: VersionKey) {
    && i < r.fetches <= k + 1
    && (r.result.Ok? <==> WellVersioned(xs, key))
    && (r.result.Ok? ==> r.fetches == k + 1 && Latest(r.result.value, xs, key))
    && (r.result.Err? ==> r.result.error.BadVersion?)
  }

  lemma {:induction false} WalkMeetsSpec(pages: seq<Page>, k: int, i: nat, st: State, key: VersionKey)
    requires EndsAt(pages, k) && i <= k
    requires Inv(st, AllAssets(pages[..i]), key)
    ensures ListedAsSpecified(Walk(pages, i, st, key), AllAssets(pages[..k + 1]), k, i, key)
    decreases k - i
  {
    var r := Run(st, PageAssets(pages[i]), key);
    if r.Err? {
      WalkPageFails(pages, k, i, st, key);
    } else if i == k {
      WalkFinalPage(pages, k, st, key);
    } else {
      WalkNextPage(pages, i, st, key);
      WalkMeetsSpec(pages, k, i + 1, r.value, key);
    }
  }

  /** After page `i` (not final) the loop goes on with the state the page left. */
  lemma WalkNextPage(pages: seq<Page>, i: nat, st: State, key: VersionKey)
    requires i < |pages| && HasMore(pages[i])
    requires Inv(st, AllAssets(pages[..i]), key)
    ensures Run(st, PageAssets(pages[i]), key).Ok? ==>
      && Inv(Run(st, PageAssets(pages[i]), key).value, AllAssets(pages[..i + 1]), key)
      && Walk(pages, i, st, key) == Walk(pages, i + 1, Run(st, PageAssets(pages[i]), key).value, key)
  {
    RunKeepsInv(st, AllAssets(pages[..i]), PageAssets(pages[i]), key);
    AllAssetsSnoc(pages, i);
  }

  /** A page whose assets raise ends the listing with that error. */
  lemma WalkPageFails(pages: seq<Page>, k: int, i: nat, st: State, key: VersionKey)
    requires EndsAt(pages, k) && i <= k
    requires Inv(st, AllAssets(pages[..i]), key)
    requires Run(st, PageAssets(pages[i]), key).Err?
    ensures ListedAsSpecified(Walk(pages, i, st, key), AllAssets(pages[..k + 1]), k, i, key)
  {
    var e := Run(st, PageAssets(pages[i]), key).error;
    assert Walk(pages, i, st, key) == Listed(i + 1, Err(e));
    PageFailsIllVersioned(pages, k, i, st, key);
  }

  /** A page whose assets raise leaves the assets up to the final page ill versioned. */
  lemma PageFailsIllVersioned(pages: seq<Page>, k: int, i: nat, st: State, key: VersionKey)
    requires i <= k < |pages|
    requires Inv(st, AllAssets(pages[..i]), key)
    requires Run(st, PageAssets(pages[i]), key).Err?
    ensures !WellVersioned(AllAssets(pages[..k + 1]), key)
  {
    RunKeepsInv(st, AllAssets(pages[..i]), PageAssets(pages[i]), key);
    AllAssetsSnoc(pages, i);
    if WellVersioned(AllAssets(pages[..k + 1]), key) {
      WellVersionedPages(pages, i + 1, k + 1, key);
    }
  }

  /** The final page, processed without error, returns the `downloads` dict. */
  lemma WalkFinalPage(pages: seq<Page>, k: int, st: State, key: VersionKey)
    requires EndsAt(pages, k)
    requires Inv(st, AllAssets(pages[..k]), key)
    requires Run(st, PageAssets(pages[k]), key).Ok?
    ensures ListedAsSpecified(Walk(pages, k, st, key), AllAssets(pages[..k + 1]), k, k, key)
  {
    RunKeepsInv(st, AllAssets(pages[..k]), PageAssets(pages[k]), key);
    AllAssetsSnoc(pages, k);
    InvGivesLatest(Run(st, PageAssets(pages[k]), key).value, AllAssets(pages[..k + 1]), key);
  }

  /** The loop's final `downloads` dict meets the description of the result. */
  lemma InvGivesLatest(st: State, xs: seq<Asset>, key: VersionKey)
    requires Inv(st, xs, key)
    ensures Latest(st.downloads, xs, key)
  {
    forall n | n in st.downloads.entries
      ensures exists j :: IsWinner(xs, n, j, key) && st.downloads.entries[n] == xs[j].downloadUrl
    {
      assert Chosen(st, xs, n, key);
      var j :| Keeps(st, xs, n, j, key);
    }
  }

  /** The listing over responses whose first final page is `k`: it reads pages
      `0..k` and no more, fails exactly when a package occurring more than once
      has a version whose trailing segment is not an integer, and otherwise
      returns one URL per package name, in order of first discovery, taken
      from that package's first asset with the greatest trailing number. */
  lemma ListingMeetsSpec(pages: seq<Page>, k: int)
    requires EndsAt(pages, k)
    ensures var r := GetLastPackagesUrls(pages);
      var xs := AllAssets(pages[..k + 1]);
      && 1 <= r.fetches <= k + 1
      && (r.result.Ok? <==> WellVersioned(xs, TrailingNumber))
      && (r.result.Ok? ==> r.fetches == k + 1 && Latest(r.result.value, xs, TrailingNumber))
      && (r.result.Err? ==> r.result.error.BadVersion?)
  {
    assert AllAssets(pages[..0]) == [];
    assert TaggedNames([]) == [];
    WalkMeetsSpec(pages, k, 0, Start(), TrailingNumber);
  }

  lemma {:induction false} WalkIgnoresLaterPages(pages: seq<Page>, other: seq<Page>, k: int, i: nat,
                                                 st: State, key: VersionKey)
    requires EndsAt(pages, k) && i <= k < |other| && other[..k + 1] == pages[..k + 1]
    requires Valid(st)
    ensures Walk(other, i, st, key) == Walk(pages, i, st, key)
    decreases k - i
  {
    assert other[i] == other[..k + 1][i] == pages[..k + 1][i] == pages[i];
    if i < k {
      match Run(st, PageAssets(pages[i]), key)
      case Err(_) =>
      case Ok(next) => WalkIgnoresLaterPages(pages, other, k, i + 1, next, key);
    }
  }

  /** Nothing after the first final page is read: any responses that agree up to
      it give the same result and the same number of fetches. */
  lemma LaterPagesIgnored(pages: seq<Page>, other: seq<Page>, k: int)
    requires EndsAt(pages, k) && k < |other| && other[..k + 1] == pages[..k + 1]
    ensures GetLastPackagesUrls(other) == GetLastPackagesUrls(pages)
  {
    WalkIgnoresLaterPages(pages, other, k, 0, Start(), TrailingNumber);
  }

  lemma {:induction false} WalkWithoutEnd(pages: seq<Page>, i: nat, st: State, key: VersionKey)
    requires i <= |pages| && Inv(st, AllAssets(pages[..i]), key)
    requires forall j :: 0 <= j < |pages| ==> HasMore(pages[j])
    ensures Walk(pages, i, st, key).result.Err?
    ensures WellVersioned(AllAssets(pages), key) ==> Walk(pages, i, st, key) == Listed(|pages|, Err(PagesExhausted))
    decreases |pages| - i
  {
    assert pages[..|pages|] == pages;
    if i < |pages| {
      RunKeepsInv(st, AllAssets(pages[..i]), PageAssets(pages[i]), key);
      AllAssetsSnoc(pages, i);
      match Run(st, PageAssets(pages[i]), key)
      case Err(_) =>
        if WellVersioned(AllAssets(pages), key) {
          WellVersionedPages(pages, i + 1, |pages|, key);
        }
      case Ok(next) => WalkWithoutEnd(pages, i + 1, next, key);
    }
  }

  /** Without a final page among the responses the listing never returns: it
      either raises on a version or asks for a response past the last one. */
  lemma ListingWithoutEnd(pages: seq<Page>)
    requires forall j :: 0 <= j < |pages| ==> HasMore(pages[j])
    ensures GetLastPackagesUrls(pages).result.Err?
    ensures WellVersioned(AllAssets(pages), TrailingNumber) ==>
      GetLastPackagesUrls(pages) == Listed(|pages|, Err(PagesExhausted))
  {
    assert AllAssets(pages[..0]) == [];
    assert TaggedNames([]) == [];
    WalkWithoutEnd(pages, 0, Start(), TrailingNumber);
  }

  /** The tagged assets of `xs`, in order. */
  function TaggedOnly(xs: seq<Asset>): (r: seq<Asset>)
    ensures forall i :: 0 <= i < |r| ==> r[i].pypi.Some?
    decreases |xs|
  {
    if |xs| == 0 then []
    else if xs[0].pypi.None? then TaggedOnly(xs[1..])
    else [xs[0]] + TaggedOnly(xs[1..])
  }

  /** Assets without a `pypi` key contribute nothing: dropping them changes
      neither the result nor the error. */
  lemma {:induction false} UntaggedContributeNothing(st: State, xs: seq<Asset>, key: VersionKey)
    requires Valid(st)
    ensures Run(st, xs, key) == Run(st, TaggedOnly(xs), key)
    decreases |xs|
  {
    if |xs| > 0 {
      if xs[0].pypi.None? {
        UntaggedContributeNothing(st, xs[1..], key);
      } else {
        var t := [xs[0]] + TaggedOnly(xs[1..]);
        assert t[0] == xs[0] && t[1..] == TaggedOnly(xs[1..]);
        match Step(st, xs[0], key)
        case Err(_) =>
        case Ok(next) => UntaggedContributeNothing(next, xs[1..], key);
      }
    }
  }
}
