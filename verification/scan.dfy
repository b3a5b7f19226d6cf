/** `find_latest_version`: the newest server artifact present in the
    versions directory, and the jar path the Generate command runs. The
    directory is given as the sequence of its entries' file names in
    enumeration order. */
module LocalScan {
  import opened Wrappers
  import opened Decimal
  import opened LocalVersions
  import opened Paths

  /** The version a directory entry names, read from its file stem. */
  function StemVersion(name: string): (r: Result<Version, ScanError>)
    ensures r.Err? ==> r.error != EmptyDirectory
  {
    ParseStem(FileStem(name))
  }

  /** What each entry of the directory names, in enumeration order. Reading
      a stem has no effects, so the whole listing can be read up front. */
  function Outcomes(names: seq<string>): seq<Result<Version, ScanError>> {
    seq(|names|, i requires 0 <= i < |names| => StemVersion(names[i]))
  }

  predicate AllParse(os: seq<Result<Version, ScanError>>) {
    forall i :: 0 <= i < |os| ==> os[i].Ok?
  }

  /** Entry `i` is the first, in enumeration order, that names no version. */
  predicate FirstFailure(os: seq<Result<Version, ScanError>>, i: int) {
    && 0 <= i < |os|
    && os[i].Err?
    && forall j :: 0 <= j < i ==> os[j].Ok?
  }

  /** `v` is named by some entry and no entry names a greater version. */
  predicate IsLatest(os: seq<Result<Version, ScanError>>, v: Version) {
    && (exists i :: 0 <= i < |os| && os[i] == Ok(v))
    && forall j :: 0 <= j < |os| ==> os[j].Ok? && AtMost(os[j].value, v)
  }

  /** The scan's failure: the error of the first bad entry, or an empty directory. */
  ghost predicate ScanFailure(os: seq<Result<Version, ScanError>>, e: ScanError) {
    || (|os| == 0 && e == EmptyDirectory)
    || exists i :: FirstFailure(os, i) && e == os[i].error
  }

  /** The versions the entries name, in order; stops at the first entry that
      names none. */
  function CollectVersions(os: seq<Result<Version, ScanError>>): (r: Result<seq<Version>, ScanError>)
    ensures r.Ok? <==> AllParse(os)
    ensures r.Ok? ==> |r.value| == |os|
    ensures r.Ok? ==> forall i :: 0 <= i < |os| ==> os[i] == Ok(r.value[i])
    ensures r.Err? ==> exists i :: FirstFailure(os, i) && r.error == os[i].error
  {
    if |os| == 0 then Ok([])
    else
      var prefix := os[..|os| - 1];
      assert forall j :: 0 <= j < |prefix| ==> prefix[j] == os[j];
      match CollectVersions(prefix)
      case Err(e) => Err(e)
      case Ok(vs) =>
        match os[|os| - 1]
        case Err(e) => Err(e)
        case Ok(v) => Ok(vs + [v])
  }

  /** A greatest element: the last one after `versions.sort()`. */
  function Greatest(vs: seq<Version>): (g: Version)
    requires |vs| > 0
    ensures g in vs
    ensures forall w :: w in vs ==> AtMost(w, g)
  {
    if |vs| == 1 then vs[0]
    else
      var prefix := vs[..|vs| - 1];
      var g := Greatest(prefix);
      assert vs == prefix + [vs[|vs| - 1]];
      if AtMost(g, vs[|vs| - 1]) then vs[|vs| - 1] else g
  }

  /** Reference definition of the scan's outcome over what the entries name. */
  function LatestOf(os: seq<Result<Version, ScanError>>): (r: Result<Version, ScanError>)
    ensures r.Ok? <==> |os| > 0 && AllParse(os)
    ensures r.Ok? ==> IsLatest(os, r.value)
    ensures r.Err? ==> ScanFailure(os, r.error)
  {
    match CollectVersions(os)
    case Err(e) => Err(e)
    case Ok(vs) =>
      if |vs| == 0 then Err(EmptyDirectory)
      else
        var g := Greatest(vs);
        var i :| 0 <= i < |vs| && vs[i] == g;
        assert os[i] == Ok(g);
        Ok(g)
  }

  /** The newest version the directory holds, or why there is none. */
  function LatestVersion(names: seq<string>): (r: Result<Version, ScanError>)
    ensures r.Ok? <==> |names| > 0 && AllParse(Outcomes(names))
    ensures r.Ok? ==> IsLatest(Outcomes(names), r.value)
    ensures r.Err? ==> ScanFailure(Outcomes(names), r.error)
  {
    LatestOf(Outcomes(names))
  }

  /** The loop of `find_latest_version` over what the entries name: go
      through them in enumeration order, giving up at the first one that
      names no version, then take the greatest version seen. */
  method ScanListing(os: seq<Result<Version, ScanError>>) returns (r: Result<Version, ScanError>)
    ensures r.Ok? <==> |os| > 0 && AllParse(os)
    ensures r.Ok? ==> IsLatest(os, r.value)
    ensures r.Err? ==> ScanFailure(os, r.error)
  {
    var versions: seq<Version> := [];
    var i := 0;
    while i < |os|
      invariant 0 <= i <= |os|
      invariant |versions| == i
      invariant forall j :: 0 <= j < i ==> os[j] == Ok(versions[j])
    {
      if os[i].Err? {
        assert FirstFailure(os, i);
        return Err(os[i].error);
      }
      versions := versions + [os[i].value];
      i := i + 1;
    }
    if |versions| == 0 {
      return Err(EmptyDirectory);
    }
    var latest := Greatest(versions);
    ghost var k :| 0 <= k < |versions| && versions[k] == latest;
    assert os[k] == Ok(latest);
    return Ok(latest);
  }

  /** `find_latest_version`: the rendering of the newest version the
      directory holds, or why there is none. */
  method FindLatestVersion(names: seq<string>) returns (r: Result<string, ScanError>)
    ensures r.Ok? <==> |names| > 0 && AllParse(Outcomes(names))
    ensures r.Ok? ==> exists v :: IsLatest(Outcomes(names), v) && r.value == Render(v)
    ensures r.Err? ==> ScanFailure(Outcomes(names), r.error)
  {
    var latest :- ScanListing(Outcomes(names));
    return Ok(Render(latest));
  }

  /** At most one version is the latest, so the scan's answer is determined. */
  lemma LatestIsUnique(os: seq<Result<Version, ScanError>>, v: Version, w: Version)
    requires IsLatest(os, v) && IsLatest(os, w)
    ensures v == w
  {
  }

  /** Whether a listing scans, and to which version, depends only on which
      results occur in it, not on their order or repetition. */
  lemma LatestDependsOnResultsOnly(oa: seq<Result<Version, ScanError>>, ob: seq<Result<Version, ScanError>>, v: Version)
    requires forall j :: 0 <= j < |ob| ==> ob[j] in oa
    requires forall j :: 0 <= j < |oa| ==> oa[j] in ob
    ensures AllParse(oa) <==> AllParse(ob)
    ensures IsLatest(oa, v) ==> IsLatest(ob, v)
  {
  }

  /** Enumeration order does not matter: a reordered directory succeeds
      exactly when the original does, and has the same latest version. */
  lemma LatestIgnoresOrder(a: seq<string>, b: seq<string>, v: Version)
    requires multiset(a) == multiset(b)
    ensures AllParse(Outcomes(a)) <==> AllParse(Outcomes(b))
    ensures IsLatest(Outcomes(a), v) ==> IsLatest(Outcomes(b), v)
  {
    var oa, ob := Outcomes(a), Outcomes(b);
    forall j | 0 <= j < |b|
      ensures ob[j] in oa
    {
      assert b[j] in multiset(a);
      var m :| 0 <= m < |a| && a[m] == b[j];
      assert oa[m] == ob[j];
    }
    forall j | 0 <= j < |a|
      ensures oa[j] in ob
    {
      assert a[j] in multiset(b);
      var m :| 0 <= m < |b| && b[m] == a[j];
      assert ob[m] == oa[j];
    }
    LatestDependsOnResultsOnly(oa, ob, v);
  }

  /** Generate's jar: the named version, or for `latest` the scan's result,
      under the versions directory. */
  function GenerateJarPath(dir: string, version: string, names: seq<string>): (r: Result<string, ScanError>)
    ensures version != "latest" ==> r == Ok(JarPath(dir, version))
    ensures version == "latest" ==> (r.Ok? <==> |names| > 0 && AllParse(Outcomes(names)))
    ensures version == "latest" && r.Ok? ==> exists v :: IsLatest(Outcomes(names), v) && r.value == JarPath(dir, Render(v))
    ensures version == "latest" && r.Err? ==> ScanFailure(Outcomes(names), r.error)
  {
    if version == "latest" then
      match LatestVersion(names)
      case Err(e) => Err(e)
      case Ok(v) => Ok(JarPath(dir, Render(v)))
    else Ok(JarPath(dir, version))
  }

  /** The download stores version `v` under a name whose stem reads back as `v`. */
  lemma StoredJarNamesVersion(v: Version)
    ensures StemVersion(JarFileName(Render(v))) == Ok(v)
  {
    assert '/' !in Render(v);
    StemOfJarFileName(Render(v));
    ParseRender(v, "");
  }

  /** A directory holding only artifacts stored by the download under
      rendered version ids: Generate with `latest` runs the jar of the
      greatest of those versions, a file the directory holds. */
  lemma GenerateFindsDownloadedJar(dir: string, names: seq<string>, vs: seq<Version>)
    requires |vs| > 0 && |names| == |vs|
    requires forall i :: 0 <= i < |vs| ==> names[i] == JarFileName(Render(vs[i]))
    ensures exists i :: 0 <= i < |vs|
                        && GenerateJarPath(dir, "latest", names) == Ok(JarPath(dir, Render(vs[i])))
                        && forall j :: 0 <= j < |vs| ==> AtMost(vs[j], vs[i])
  {
    var os := Outcomes(names);
    forall i | 0 <= i < |vs|
      ensures os[i] == Ok(vs[i])
    {
      StoredJarNamesVersion(vs[i]);
    }
    var i := LatestOfVersions(os, vs);
    assert GenerateJarPath(dir, "latest", names) == Ok(JarPath(dir, Render(vs[i])));
  }

  /** A listing whose every entry names a version scans to one of them, the greatest. */
  lemma LatestOfVersions(os: seq<Result<Version, ScanError>>, vs: seq<Version>) returns (i: nat)
    requires |vs| > 0 && |os| == |vs|
    requires forall j :: 0 <= j < |vs| ==> os[j] == Ok(vs[j])
    ensures i < |vs| && LatestOf(os) == Ok(vs[i])
    ensures forall j :: 0 <= j < |vs| ==> AtMost(vs[j], vs[i])
  {
    var v := LatestOf(os).value;
    i :| 0 <= i < |os| && os[i] == Ok(v);
    assert forall j :: 0 <= j < |vs| ==> os[j].value == vs[j];
  }

  /** The names the download stores versions `1.2.3`, `1.10.0` and
      `1.2.10` under. */
  lemma StoredNamesExample()
    ensures JarFileName(Render(Version(1, 2, 3))) == "1.2.3.jar"
    ensures JarFileName(Render(Version(1, 10, 0))) == "1.10.0.jar"
    ensures JarFileName(Render(Version(1, 2, 10))) == "1.2.10.jar"
  {
  }

  /** Entries naming `1.2.3`, `1.10.0` and `1.2.10`: the latest is `1.10.0`. */
  lemma ScanExample()
    ensures LatestOf([Ok(Version(1, 2, 3)), Ok(Version(1, 10, 0)), Ok(Version(1, 2, 10))]) == Ok(Version(1, 10, 0))
  {
  }

  /** Each example name reads as the version it was stored under. */
  lemma ExampleNamesRead()
    ensures StemVersion("1.2.3.jar") == Ok(Version(1, 2, 3))
    ensures StemVersion("1.10.0.jar") == Ok(Version(1, 10, 0))
    ensures StemVersion("1.2.10.jar") == Ok(Version(1, 2, 10))
  {
    StoredNamesExample();
    StoredJarNamesVersion(Version(1, 2, 3));
    StoredJarNamesVersion(Version(1, 10, 0));
    StoredJarNamesVersion(Version(1, 2, 10));
  }

  /** The directory `1.2.3.jar`, `1.10.0.jar`, `1.2.10.jar`: the scan picks `1.10.0`. */
  lemma ScanNamesExample()
    ensures LatestVersion(["1.2.3.jar", "1.10.0.jar", "1.2.10.jar"]) == Ok(Version(1, 10, 0))
  {
    ExampleNamesRead();
    ThreeEntries("1.2.3.jar", "1.10.0.jar", "1.2.10.jar", Version(1, 2, 3), Version(1, 10, 0), Version(1, 2, 10));
    ScanExample();
  }

  /** A listing of three entries, each naming a version, scans as those versions. */
  lemma ThreeEntries(a: string, b: string, c: string, va: Version, vb: Version, vc: Version)
    requires StemVersion(a) == Ok(va) && StemVersion(b) == Ok(vb) && StemVersion(c) == Ok(vc)
    ensures Outcomes([a, b, c]) == [Ok(va), Ok(vb), Ok(vc)]
  {
  }
}
