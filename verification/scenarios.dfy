/** Runs of the model on small listings, stated for arbitrary names, versions
    and URLs: two versions of one package and one of another, trailing numbers
    compared as numbers, non-numeric versions, pagination, an empty repository,
    two packages whose URLs end in the same file name, and a URL ending in
    `/`. */
module Scenarios {
  import opened Results
  import opened Text
  import opened OrderedDict
  import opened Listing
  import opened Transfer

  function Pkg(name: string, version: string, url: string): Asset {
    Asset(Some(PypiInfo(name, version)), url)
  }

  /** `prefix.N` for a natural number `N` written in decimal has trailing
      number `N`, unless `N` has more digits than `int()` converts. */
  lemma TrailingNumberOfDecimal(prefix: string, n: nat)
    ensures TrailingNumber(prefix + "." + NatDigits(n))
         == if |NatDigits(n)| <= MaxStrDigits then Some(n) else None
  {
    var tail := NatDigits(n);
    assert '.' !in tail;
    LastSegmentAfterSeparator(prefix, '.', tail);
    assert prefix + "." + tail == prefix + ['.'] + tail;
    ParseDigitString(tail);
    DigitsValueOfNatDigits(n);
  }

  /** A listing that is a single final page. */
  lemma SinglePage(items: seq<Component>, key: VersionKey)
    ensures var r := Walk([Page(items, None)], 0, Start(), key);
      match Run(Start(), ComponentAssets(items), key)
      case Ok(st) => r == Listed(1, Ok(st.downloads))
      case Err(e) => r == Listed(1, Err(e))
  {
  }

  /** The state after exactly one package has been recorded. */
  function One(name: string, v: string, u: string): State {
    State(Dict([name], map[name := v]), Dict([name], map[name := u]))
  }

  /** The first asset of a listing opens the entry for its package. */
  lemma FirstStep(name: string, v: string, u: string, key: VersionKey)
    ensures Step(Start(), Pkg(name, v, u), key)
         == Ok(One(name, v, u))
  {
    var e: Dict<string, string> := Empty();
    assert e.keys + [name] == [name];
    assert e.entries[name := v] == map[name := v];
    assert e.entries[name := u] == map[name := u];
  }

  /** The inner loops over one, two or three assets that `Step` accepts in turn. */
  lemma RunOne(st: State, a1: Asset, key: VersionKey)
    requires Valid(st) && Step(st, a1, key).Ok?
    ensures Run(st, [a1], key) == Step(st, a1, key)
  {
    assert [a1][1..] == [];
  }

  lemma RunTwo(st: State, a1: Asset, a2: Asset, key: VersionKey)
    requires Valid(st) && Step(st, a1, key).Ok?
    ensures Run(st, [a1, a2], key) == Run(Step(st, a1, key).value, [a2], key)
  {
    assert [a1, a2][1..] == [a2];
  }

  lemma RunThree(st: State, a1: Asset, a2: Asset, a3: Asset, key: VersionKey)
    requires Valid(st) && Step(st, a1, key).Ok?
    ensures Run(st, [a1, a2, a3], key) == Run(Step(st, a1, key).value, [a2, a3], key)
  {
    assert [a1, a2, a3][1..] == [a2, a3];
  }


  /** A later version with a greater trailing number replaces the entry in place. */
  lemma GreaterReplaces(name: string, v1: string, v2: string, u1: string, u2: string, key: VersionKey)
    requires key(v1).Some? && key(v2).Some? && key(v1).value < key(v2).value
    ensures Step(One(name, v1, u1), Pkg(name, v2, u2), key) == Ok(One(name, v2, u2))
  {
    assert map[name := v1][name := v2] == map[name := v2];
    assert map[name := u1][name := u2] == map[name := u2];
  }

  /** A second package goes after the first. */
  lemma SecondPackage(alpha: string, beta: string, v: string, w: string, u: string, x: string, key: VersionKey)
    requires alpha != beta
    ensures Step(One(alpha, v, u), Pkg(beta, w, x), key)
         == Ok(State(Dict([alpha, beta], map[alpha := v, beta := w]),
                     Dict([alpha, beta], map[alpha := u, beta := x])))
  {
    assert [alpha] + [beta] == [alpha, beta];
  }

  /** The run behind `TwoVersionsAndAnother`, for any comparison key. */
  lemma TwoVersionsAndAnotherFor(alpha: string, beta: string, v1: string, v2: string, v3: string,
                                 u1: string, u2: string, u3: string, key: VersionKey)
    requires alpha != beta
    requires key(v1).Some? && key(v2).Some? && key(v1).value < key(v2).value
    ensures var r := Walk([Page([Component([Pkg(alpha, v1, u1)]),
                                 Component([Pkg(alpha, v2, u2)]),
                                 Component([Pkg(beta, v3, u3)])], None)], 0, Start(), key);
      && r.fetches == 1
      && r.result.Ok?
      && r.result.value.keys == [alpha, beta]
      && r.result.value.entries == map[alpha := u2, beta := u3]
  {
    var a1, a2, a3 := Pkg(alpha, v1, u1), Pkg(alpha, v2, u2), Pkg(beta, v3, u3);
    ThreeComponents(a1, a2, a3);
    TwoVersionsAndAnotherRun(alpha, beta, v1, v2, v3, u1, u2, u3, key);
    SinglePage([Component([a1]), Component([a2]), Component([a3])], key);
  }

  lemma ThreeComponents(a1: Asset, a2: Asset, a3: Asset)
    ensures ComponentAssets([Component([a1]), Component([a2]), Component([a3])]) == [a1, a2, a3]
  {
    var items := [Component([a1]), Component([a2]), Component([a3])];
    assert ComponentAssets(items[2..]) == [a3];
    assert ComponentAssets(items[1..]) == [a2, a3];
  }

  lemma TwoVersionsAndAnotherRun(alpha: string, beta: string, v1: string, v2: string, v3: string,
                                 u1: string, u2: string, u3: string, key: VersionKey)
    requires alpha != beta
    requires key(v1).Some? && key(v2).Some? && key(v1).value < key(v2).value
    ensures Run(Start(), [Pkg(alpha, v1, u1), Pkg(alpha, v2, u2), Pkg(beta, v3, u3)], key)
         == Ok(State(Dict([alpha, beta], map[alpha := v2, beta := v3]),
                     Dict([alpha, beta], map[alpha := u2, beta := u3])))
  {
    var a1, a2, a3 := Pkg(alpha, v1, u1), Pkg(alpha, v2, u2), Pkg(beta, v3, u3);
    FirstStep(alpha, v1, u1, key);
    GreaterReplaces(alpha, v1, v2, u1, u2, key);
    SecondPackage(alpha, beta, v2, v3, u2, u3, key);
    RunThree(Start(), a1, a2, a3, key);
    RunTwo(One(alpha, v1, u1), a2, a3, key);
    RunOne(One(alpha, v2, u2), a3, key);
  }

  /** Two versions of one package and one of another: the greater trailing
      number wins, the first package keeps its place, and two files are
      mirrored when both URLs name a file that can be saved. */
  lemma TwoVersionsAndAnother(alpha: string, beta: string, v1: string, v2: string, v3: string,
                              u1: string, u2: string, u3: string, tmp: string, s1: int, s2: int)
    requires alpha != beta
    requires TrailingNumber(v1).Some? && TrailingNumber(v2).Some?
    requires TrailingNumber(v1).value < TrailingNumber(v2).value
    ensures var r := GetLastPackagesUrls([Page([Component([Pkg(alpha, v1, u1)]),
                                                Component([Pkg(alpha, v2, u2)]),
                                                Component([Pkg(beta, v3, u3)])], None)]);
      && r.fetches == 1
      && r.result.Ok?
      && r.result.value.keys == [alpha, beta]
      && r.result.value.entries == map[alpha := u2, beta := u3]
      && var c := CopyDownloadPackagesAndUploadToRepo(tmp, r.result.value, [s1, s2]);
         && (c.Ok? <==> Savable(LocalFileName(u2)) && Savable(LocalFileName(u3)))
         && (c.Ok? ==> |c.value| == 2)
  {
    TwoVersionsAndAnotherFor(alpha, beta, v1, v2, v3, u1, u2, u3, TrailingNumber);
    CopyTwo(alpha, beta, u2, u3, tmp, s1, s2);
  }

  /** A later asset whose key is not greater leaves the first one in place. */
  lemma KeepsEarlierOnTieOrLessFor(name: string, v1: string, v2: string, u1: string, u2: string,
                                   key: VersionKey)
    requires key(v1).Some? && key(v2).Some? && key(v2).value <= key(v1).value
    ensures var r := Walk([Page([Component([Pkg(name, v1, u1), Pkg(name, v2, u2)])], None)], 0, Start(), key);
      r.result.Ok? && r.result.value.entries == map[name := u1]
  {
    var a1, a2 := Pkg(name, v1, u1), Pkg(name, v2, u2);
    var items := [Component([a1, a2])];
    assert ComponentAssets(items) == [a1, a2] by {
      assert ComponentAssets(items[1..]) == [];
    }
    var st1 := One(name, v1, u1);
    FirstStep(name, v1, u1, key);
    assert Step(st1, a2, key) == Ok(st1);
    RunTwo(Start(), a1, a2, key);
    RunOne(st1, a2, key);
    SinglePage(items, key);
  }

  /** Only the trailing segment counts: whatever precedes it, `p2.m` does not
      replace an earlier `p1.n` when `m <= n`, so `1.2.9` is kept over `2.0.1`,
      and of two equal trailing numbers the first asset stays. Both numbers are
      within the digits `int()` converts. */
  lemma OnlyTrailingSegmentCounts(name: string, p1: string, p2: string, n: nat, m: nat,
                                  u1: string, u2: string)
    requires m <= n
    ensures |NatDigits(n)| <= MaxStrDigits && |NatDigits(m)| <= MaxStrDigits ==>
      var r := GetLastPackagesUrls([Page([Component([Pkg(name, p1 + "." + NatDigits(n), u1),
                                                     Pkg(name, p2 + "." + NatDigits(m), u2)])], None)]);
      r.result.Ok? && r.result.value.entries == map[name := u1]
  {
    if |NatDigits(n)| <= MaxStrDigits && |NatDigits(m)| <= MaxStrDigits {
      TrailingNumberOfDecimal(p1, n);
      TrailingNumberOfDecimal(p2, m);
      KeepsEarlierOnTieOrLessFor(name, p1 + "." + NatDigits(n), p2 + "." + NatDigits(m), u1, u2,
                                 TrailingNumber);
    }
  }

  /** A later asset whose key is strictly greater replaces the first one. */
  lemma GreaterWinsFor(name: string, v1: string, v2: string, u1: string, u2: string, key: VersionKey)
    requires key(v1).Some? && key(v2).Some? && key(v1).value < key(v2).value
    ensures var r := Walk([Page([Component([Pkg(name, v1, u1), Pkg(name, v2, u2)])], None)], 0, Start(), key);
      r.result.Ok? && r.result.value.keys == [name] && r.result.value.entries == map[name := u2]
  {
    var a1, a2 := Pkg(name, v1, u1), Pkg(name, v2, u2);
    var items := [Component([a1, a2])];
    assert ComponentAssets(items) == [a1, a2] by {
      assert ComponentAssets(items[1..]) == [];
    }
    FirstStep(name, v1, u1, key);
    GreaterReplaces(name, v1, v2, u1, u2, key);
    RunTwo(Start(), a1, a2, key);
    RunOne(One(name, v1, u1), a2, key);
    SinglePage(items, key);
  }

  /** The comparison is numeric, not textual: of `1.2.3` and `1.2.10` (any
      prefix, any `n < m` within the digits `int()` converts) the later,
      greater `m` wins. */
  lemma NumericNotLexicographic(name: string, prefix: string, n: nat, m: nat, u1: string, u2: string)
    requires n < m
    ensures |NatDigits(m)| <= MaxStrDigits ==>
      var r := GetLastPackagesUrls([Page([Component([Pkg(name, prefix + "." + NatDigits(n), u1),
                                                     Pkg(name, prefix + "." + NatDigits(m), u2)])], None)]);
      r.result.Ok? && r.result.value.entries == map[name := u2]
  {
    if |NatDigits(m)| <= MaxStrDigits {
      NatDigitsGrow(n, m);
      TrailingNumberOfDecimal(prefix, n);
      TrailingNumberOfDecimal(prefix, m);
      GreaterWinsFor(name, prefix + "." + NatDigits(n), prefix + "." + NatDigits(m), u1, u2, TrailingNumber);
    }
  }

  /** A greater number has at least as many decimal digits. */
  lemma {:induction false} NatDigitsGrow(n: nat, m: nat)
    requires n <= m
    ensures |NatDigits(n)| <= |NatDigits(m)|
    decreases m
  {
    if n >= 10 {
      NatDigitsGrow(n / 10, m / 10);
    }
  }

  /** A repeated package whose new trailing number has more digits than `int()`
      converts aborts the listing, as a non-numeric one does. */
  lemma OverlongTrailingNumberAborts(name: string, p1: string, p2: string, n: nat, m: nat,
                                     u1: string, u2: string)
    requires |NatDigits(n)| <= MaxStrDigits < |NatDigits(m)|
    ensures var r := GetLastPackagesUrls([Page([Component([Pkg(name, p1 + "." + NatDigits(n), u1)]),
                                                Component([Pkg(name, p2 + "." + NatDigits(m), u2)])], None)]);
      r == Listed(1, Err(BadVersion(p2 + "." + NatDigits(m))))
  {
    TrailingNumberOfDecimal(p1, n);
    TrailingNumberOfDecimal(p2, m);
    RepeatedNonNumericVersionAbortsFor(name, p1 + "." + NatDigits(n), p2 + "." + NatDigits(m), u1, u2,
                                       TrailingNumber);
  }

  /** A package seen once is recorded whatever its version. */
  lemma SingleNonNumericVersionIsKeptFor(name: string, version: string, url: string, key: VersionKey)
    ensures var r := Walk([Page([Component([Pkg(name, version, url)])], None)], 0, Start(), key);
      r.result.Ok? && r.result.value.entries == map[name := url]
  {
    var a := Pkg(name, version, url);
    var items := [Component([a])];
    assert ComponentAssets(items) == [a] by {
      assert ComponentAssets(items[1..]) == [];
    }
    FirstStep(name, version, url, key);
    RunOne(Start(), a, key);
    SinglePage(items, key);
  }

  /** A package seen once never has its version parsed: a non-numeric suffix
      such as `1.0rc1` is harmless. */
  lemma SingleNonNumericVersionIsKept(name: string, version: string, url: string)
    requires TrailingNumber(version).None?
    ensures var r := GetLastPackagesUrls([Page([Component([Pkg(name, version, url)])], None)]);
      r.result.Ok? && r.result.value.entries == map[name := url]
  {
    SingleNonNumericVersionIsKeptFor(name, version, url, TrailingNumber);
  }

  /** A repeated package whose new version has no key aborts the page. */
  lemma RepeatedNonNumericVersionAbortsFor(name: string, v1: string, v2: string, u1: string, u2: string,
                                           key: VersionKey)
    requires key(v1).Some? && key(v2).None?
    ensures var r := Walk([Page([Component([Pkg(name, v1, u1)]),
                                 Component([Pkg(name, v2, u2)])], None)], 0, Start(), key);
      r == Listed(1, Err(BadVersion(v2)))
  {
    var a1, a2 := Pkg(name, v1, u1), Pkg(name, v2, u2);
    var items := [Component([a1]), Component([a2])];
    assert ComponentAssets(items) == [a1, a2] by {
      assert ComponentAssets(items[1..]) == [a2];
    }
    var st1 := One(name, v1, u1);
    FirstStep(name, v1, u1, key);
    assert Step(st1, a2, key) == Err(BadVersion(v2));
    assert Run(st1, [a2], key) == Err(BadVersion(v2));
    RunTwo(Start(), a1, a2, key);
    SinglePage(items, key);
  }

  /** The same package seen again with a non-numeric suffix aborts the whole listing. */
  lemma RepeatedNonNumericVersionAborts(name: string, v1: string, v2: string, u1: string, u2: string)
    requires TrailingNumber(v1).Some? && TrailingNumber(v2).None?
    ensures var r := GetLastPackagesUrls([Page([Component([Pkg(name, v1, u1)]),
                                                Component([Pkg(name, v2, u2)])], None)]);
      r == Listed(1, Err(BadVersion(v2)))
  {
    RepeatedNonNumericVersionAbortsFor(name, v1, v2, u1, u2, TrailingNumber);
  }

  /** Three pages of which only the last has no token: three requests are made. */
  lemma ThreePagesThreeFetches(t1: string, t2: string)
    requires t1 != "" && t2 != ""
    ensures var r := GetLastPackagesUrls([Page([], Some(t1)), Page([], Some(t2)), Page([], None)]);
      r.fetches == 3 && r.result.Ok? && r.result.value.keys == []
  {
    var pages := [Page([], Some(t1)), Page([], Some(t2)), Page([], None)];
    var st := Start();
    assert PageAssets(pages[0]) == [] && PageAssets(pages[1]) == [] && PageAssets(pages[2]) == [];
    assert Walk(pages, 2, st, TrailingNumber) == Listed(3, Ok(st.downloads));
    assert Walk(pages, 1, st, TrailingNumber) == Listed(3, Ok(st.downloads));
  }

  /** Copying a listing of two packages: it succeeds iff both URLs name a file
      that can be saved, and then reports one upload per package. */
  lemma CopyTwo(alpha: string, beta: string, u: string, x: string, tmp: string, s1: int, s2: int)
    requires alpha != beta
    ensures var c := CopyDownloadPackagesAndUploadToRepo(tmp, Dict([alpha, beta], map[alpha := u, beta := x]), [s1, s2]);
      && (c.Ok? <==> Savable(LocalFileName(u)) && Savable(LocalFileName(x)))
      && (c.Ok? ==> |c.value| == 2)
  {
    var d := Dict([alpha, beta], map[alpha := u, beta := x]);
    assert d.Valid();
    assert d.keys[0] == alpha && d.keys[1] == beta;
  }

  /** An empty source repository: nothing to download, nothing to upload. */
  lemma EmptyRepositoryMirrorsNothing(tmp: string)
    ensures var r := GetLastPackagesUrls([Page([], None)]);
      r.result.Ok? && CopyDownloadPackagesAndUploadToRepo(tmp, r.result.value, []) == Ok([])
  {
    SinglePage([], TrailingNumber);
  }

  /** The run behind `SameFileNameMirrorsLaterPackage`, for any comparison key. */
  lemma TwoPackagesFor(alpha: string, beta: string, v: string, w: string, u: string, x: string,
                       key: VersionKey)
    requires alpha != beta
    ensures Walk([Page([Component([Pkg(alpha, v, u)]), Component([Pkg(beta, w, x)])], None)], 0, Start(), key)
         == Listed(1, Ok(Dict([alpha, beta], map[alpha := u, beta := x])))
  {
    var a1, a2 := Pkg(alpha, v, u), Pkg(beta, w, x);
    var items := [Component([a1]), Component([a2])];
    assert ComponentAssets(items) == [a1, a2] by {
      assert ComponentAssets(items[1..]) == [a2];
    }
    FirstStep(alpha, v, u, key);
    SecondPackage(alpha, beta, v, w, u, x, key);
    RunTwo(Start(), a1, a2, key);
    RunOne(One(alpha, v, u), a2, key);
    SinglePage(items, key);
  }

  /** Two packages whose URLs end in the same file name `f`: both are listed,
      but both downloads are saved to one file, so both uploads send the
      second package. A file name that cannot be saved stops the copy. */
  lemma SameFileNameMirrorsLaterPackage(alpha: string, beta: string, v: string, w: string,
                                        p1: string, p2: string, f: string,
                                        tmp: string, s1: int, s2: int)
    requires alpha != beta && '/' !in f
    ensures var r := GetLastPackagesUrls([Page([Component([Pkg(alpha, v, p1 + "/" + f)]),
                                                Component([Pkg(beta, w, p2 + "/" + f)])], None)]);
      && r.result.Ok?
      && r.result.value.keys == [alpha, beta]
      && r.result.value.entries == map[alpha := p1 + "/" + f, beta := p2 + "/" + f]
      && r.result.value.Valid()
      && var c := CopyDownloadPackagesAndUploadToRepo(tmp, r.result.value, [s1, s2]);
         && (c.Ok? <==> Savable(f))
         && (c.Ok? ==> c.value[0].content == c.value[1].content == p2 + "/" + f)
  {
    var u, x := p1 + "/" + f, p2 + "/" + f;
    TwoPackagesFor(alpha, beta, v, w, u, x, TrailingNumber);
    var d := Dict([alpha, beta], map[alpha := u, beta := x]);
    assert u == p1 + ['/'] + f && x == p2 + ['/'] + f;
    LastSegmentAfterSeparator(p1, '/', f);
    LastSegmentAfterSeparator(p2, '/', f);
    SameFileNameUploadsLaterDownload(tmp, d, [s1, s2], 0, 1);
    CopyTwo(alpha, beta, u, x, tmp, s1, s2);
  }

  /** A package whose URL ends in `/` names no file: saving it opens the
      temporary directory itself, and the copy stops with that URL. */
  lemma TrailingSlashStopsCopy(name: string, version: string, p: string, tmp: string, s1: int)
    ensures var r := GetLastPackagesUrls([Page([Component([Pkg(name, version, p + "/")])], None)]);
      && r.result.Ok?
      && r.result.value.keys == [name]
      && CopyDownloadPackagesAndUploadToRepo(tmp, r.result.value, [s1]) == Err(CannotSave(p + "/"))
  {
    var u := p + "/";
    var items := [Component([Pkg(name, version, u)])];
    assert ComponentAssets(items) == [Pkg(name, version, u)];
    FirstStep(name, version, u, TrailingNumber);
    RunOne(Start(), Pkg(name, version, u), TrailingNumber);
    SinglePage(items, TrailingNumber);
    assert u == p + ['/'] + [];
    LastSegmentAfterSeparator(p, '/', []);
    var d := One(name, version, u);
    assert d.downloads.Items() == [(name, u)];
  }
}
