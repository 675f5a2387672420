/** The flat RPM package analysis: one inventory entry per installed package,
    each carrying the arguments from which its Package URL is built. */
module RpmPackages {
  import opened Wrappers
  import Strings

  /** A parsed RPM package record; `moduleId` is its `module` field. */
  datatype PackageInfo = PackageInfo(
    name: string,
    version: string,
    release: string,
    size: int,
    epoch: Option<int>,
    arch: Option<string>,
    moduleId: Option<string>)

  datatype OSRelease = OSRelease(name: string, version: string, prettyName: string)

  /** The analysis type of this analyzer. */
  datatype AnalysisType = Rpm {
    function Label(): string { "Rpm" }
  }

  /** The arguments handed to the `PackageURL` constructor: type, namespace
      (the vendor), name, version, qualifiers and subpath. */
  datatype PackageUrlArgs = PackageUrlArgs(
    purlType: string,
    namespace: string,
    name: string,
    version: string,
    qualifiers: Option<map<string, string>>,
    subpath: Option<string>)

  /** One inventory entry. `purl` holds the constructor arguments of its
      Package URL rather than the serialised string. */
  datatype AnalyzedPackage = AnalyzedPackage(
    name: string,
    version: string,
    source: Option<string>,
    providesList: seq<string>,
    deps: map<string, string>,
    autoInstalled: Option<bool>,
    purl: PackageUrlArgs)

  datatype ImagePackagesAnalysis = ImagePackagesAnalysis(
    image: string,
    analyzeType: AnalysisType,
    analysis: seq<AnalyzedPackage>)

  /** `formatRpmPackageVersion`, which lives in another library. */
  type VersionFormatter = PackageInfo -> string

  /** `if (pkg.module)`: present and not the empty string. */
  predicate HasModule(pkg: PackageInfo)
  {
    pkg.moduleId.Some? && pkg.moduleId.value != ""
  }

  /** `if (pkg.epoch)`: present and not 0. */
  predicate HasEpoch(pkg: PackageInfo)
  {
    pkg.epoch.Some? && pkg.epoch.value != 0
  }

  /** What an optional string becomes when JavaScript concatenates it. */
  function ConcatForm(v: Option<string>): string
  {
    match v
    case Some(x) => x
    case None => "undefined"
  }

  /** `const [modName, modVersion] = module.split(":")` followed by
      `modName + ":" + modVersion`. */
  function ModuleQualifier(m: string): string
  {
    var fields := Strings.Split(m, ':');
    fields[0] + ":" + ConcatForm(if |fields| >= 2 then Some(fields[1]) else None)
  }

  /** Only the first two colon-separated fields survive: "a:b:c" gives "a:b". */
  lemma ModuleQualifierOfFields(m: string, a: string, b: string, rest: string)
    requires m == a + ":" + b + rest
    requires ':' !in a && ':' !in b
    requires rest == "" || rest[0] == ':'
    ensures ModuleQualifier(m) == a + ":" + b
  {
    assert m == a + [':'] + (b + rest);
    Strings.SplitAtFirstSeparator(a, ':', b + rest);
    if rest == "" {
      Strings.SplitWithoutSeparator(b, ':');
      assert b + rest == b;
    } else {
      assert b + rest == b + [':'] + rest[1..];
      Strings.SplitAtFirstSeparator(b, ':', rest[1..]);
    }
  }

  /** A module without a colon has no second field, so its qualifier ends in
      the text "undefined". */
  lemma ModuleQualifierWithoutColon(m: string)
    requires ':' !in m
    ensures ModuleQualifier(m) == m + ":undefined"
  {
    Strings.SplitWithoutSeparator(m, ':');
  }

  const QualifierKeys: set<string> := {"module", "repositories", "epoch", "distro"}

  /** One step of `purl`: sets qualifier `k` to `v` when `cond` holds. */
  function SetIf(q: map<string, string>, cond: bool, k: string, v: string): (q': map<string, string>)
    ensures q'.Keys == if cond then q.Keys + {k} else q.Keys
    ensures forall k' :: k' in q && k' != k ==> k' in q' && q'[k'] == q[k']
    ensures cond ==> q'[k] == v
  {
    if cond then q[k := v] else q
  }

  /** The qualifiers of a package's URL, set in the order module,
      repositories, epoch, distro. */
  function Qualifiers(pkg: PackageInfo, repos: seq<string>, osRelease: Option<OSRelease>): (q: map<string, string>)
    ensures q.Keys <= QualifierKeys
    ensures "module" in q <==> HasModule(pkg)
    ensures HasModule(pkg) ==> q["module"] == ModuleQualifier(pkg.moduleId.value)
    ensures "repositories" in q <==> |repos| > 0
    ensures |repos| > 0 ==> q["repositories"] == Strings.JoinWith(repos, ",")
    ensures "epoch" in q <==> HasEpoch(pkg)
    ensures HasEpoch(pkg) ==> q["epoch"] == Strings.IntToDecimal(pkg.epoch.value)
    ensures "distro" in q <==> osRelease.Some?
    ensures osRelease.Some? ==> q["distro"] == osRelease.value.name + "-" + osRelease.value.version
  {
    var withModule := SetIf(map[], HasModule(pkg), "module",
                            if HasModule(pkg) then ModuleQualifier(pkg.moduleId.value) else "");
    var withRepositories := SetIf(withModule, |repos| > 0, "repositories", Strings.JoinWith(repos, ","));
    var withEpoch := SetIf(withRepositories, HasEpoch(pkg), "epoch",
                           if HasEpoch(pkg) then Strings.IntToDecimal(pkg.epoch.value) else "");
    SetIf(withEpoch, osRelease.Some?, "distro",
          if osRelease.Some? then osRelease.value.name + "-" + osRelease.value.version else "")
  }

  /** `AnalysisType.Rpm.toLowerCase()`. */
  function PurlType(): (t: string)
    ensures t == "rpm"
  {
    Strings.ToLowerAscii(Rpm.Label())
  }

  /** The Package URL arguments of a package: vendor and distro come from the
      OS release, and the qualifier map is absent rather than empty when no
      qualifier applies. */
  function PurlOf(pkg: PackageInfo, repos: seq<string>, osRelease: Option<OSRelease>,
                  formatVersion: VersionFormatter): (r: PackageUrlArgs)
    ensures r.purlType == "rpm" && r.subpath == None
    ensures r.name == pkg.name && r.version == formatVersion(pkg)
    ensures r.namespace == if osRelease.Some? then osRelease.value.name else ""
    ensures r.qualifiers.None? <==> !HasModule(pkg) && |repos| == 0 && !HasEpoch(pkg) && osRelease.None?
    ensures r.qualifiers.Some? ==> r.qualifiers.value != map[] && r.qualifiers.value == Qualifiers(pkg, repos, osRelease)
  {
    var q := Qualifiers(pkg, repos, osRelease);
    PackageUrlArgs(
      PurlType(),
      if osRelease.Some? then osRelease.value.name else "",
      pkg.name,
      formatVersion(pkg),
      if q == map[] then None else Some(q),
      None)
  }

  /** `purl`: sets the vendor and the qualifiers one condition at a time, in
      the order module, repositories, epoch, distro. */
  method Purl(pkg: PackageInfo, repos: seq<string>, osRelease: Option<OSRelease>,
              formatVersion: VersionFormatter) returns (r: PackageUrlArgs)
    ensures r == PurlOf(pkg, repos, osRelease, formatVersion)
  {
    var vendor := "";
    var qualifiers: map<string, string> := map[];
    if HasModule(pkg) {
      var fields := Strings.Split(pkg.moduleId.value, ':');
      var modName := fields[0];
      var modVersion := if |fields| >= 2 then Some(fields[1]) else None;
      qualifiers := qualifiers["module" := modName + ":" + ConcatForm(modVersion)];
    }
    if |repos| > 0 {
      qualifiers := qualifiers["repositories" := Strings.JoinWith(repos, ",")];
    }
    if HasEpoch(pkg) {
      qualifiers := qualifiers["epoch" := Strings.IntToDecimal(pkg.epoch.value)];
    }
    if osRelease.Some? {
      qualifiers := qualifiers["distro" := osRelease.value.name + "-" + osRelease.value.version];
      vendor := osRelease.value.name;
    }
    r := PackageUrlArgs(
      Strings.ToLowerAscii(Rpm.Label()),
      vendor,
      pkg.name,
      formatVersion(pkg),
      if |qualifiers| != 0 then Some(qualifiers) else None,
      None);
  }

  /** The `repositories` qualifier loses nothing: when no repository name
      contains a comma, splitting it on "," gives the list back. */
  lemma RepositoriesRecoverable(pkg: PackageInfo, repos: seq<string>, osRelease: Option<OSRelease>)
    requires |repos| > 0
    requires forall k :: 0 <= k < |repos| ==> ',' !in repos[k]
    ensures Strings.Split(Qualifiers(pkg, repos, osRelease)["repositories"], ',') == repos
  {
    Strings.SplitJoin(repos, ',');
  }

  /** The `epoch` qualifier is the decimal form of the epoch: it reads back as
      the epoch itself. */
  lemma EpochRecoverable(pkg: PackageInfo, repos: seq<string>, osRelease: Option<OSRelease>)
    requires HasEpoch(pkg)
    ensures var s := Qualifiers(pkg, repos, osRelease)["epoch"];
      |s| >= 1 && (forall k :: (if s[0] == '-' then 1 else 0) <= k < |s| ==> Strings.IsDigit(s[k]))
      && Strings.ParseInt(s) == pkg.epoch.value
  {
    Strings.IntToDecimalRoundTrip(pkg.epoch.value);
  }

  /** The inventory entry of one package. */
  function AnalyzedEntry(pkg: PackageInfo, repos: seq<string>, osRelease: Option<OSRelease>,
                         formatVersion: VersionFormatter): AnalyzedPackage
  {
    AnalyzedPackage(pkg.name, formatVersion(pkg), None, [], map[], None, PurlOf(pkg, repos, osRelease, formatVersion))
  }

  /** `pkgs.map(...)`: one entry per package, in the same order; no entry has
      provides, dependencies, source or auto-installed flag, and each entry's
      URL names the same package and version as the entry. */
  function AnalyzeEntries(pkgs: seq<PackageInfo>, repos: seq<string>, osRelease: Option<OSRelease>,
                          formatVersion: VersionFormatter): (entries: seq<AnalyzedPackage>)
    ensures |entries| == |pkgs|
    ensures forall i :: 0 <= i < |pkgs| ==>
      && entries[i].name == pkgs[i].name
      && entries[i].version == formatVersion(pkgs[i])
      && entries[i].source == None && entries[i].autoInstalled == None
      && entries[i].providesList == [] && entries[i].deps == map[]
      && entries[i].purl == PurlOf(pkgs[i], repos, osRelease, formatVersion)
      && entries[i].purl.name == entries[i].name && entries[i].purl.version == entries[i].version
  {
    seq(|pkgs|, i requires 0 <= i < |pkgs| => AnalyzedEntry(pkgs[i], repos, osRelease, formatVersion))
  }

  /** `analyze`: the image's analysis, of type Rpm, with one entry per package. */
  function Analyze(targetImage: string, pkgs: seq<PackageInfo>, repos: seq<string>,
                   osRelease: Option<OSRelease>, formatVersion: VersionFormatter): (r: ImagePackagesAnalysis)
    ensures r.image == targetImage && r.analyzeType == Rpm
    ensures |r.analysis| == |pkgs|
    ensures forall i :: 0 <= i < |pkgs| ==> r.analysis[i].name == pkgs[i].name
  {
    ImagePackagesAnalysis(targetImage, Rpm, AnalyzeEntries(pkgs, repos, osRelease, formatVersion))
  }

  /** `mapRpmSqlitePackages`: an empty analysis when the package list is
      absent, otherwise the same analysis as `analyze`. */
  function MapRpmSqlitePackages(targetImage: string, rpmPackages: Option<seq<PackageInfo>>, repos: seq<string>,
                                osRelease: Option<OSRelease>, formatVersion: VersionFormatter): (r: ImagePackagesAnalysis)
    ensures r.image == targetImage && r.analyzeType == Rpm
    ensures rpmPackages.None? ==> r.analysis == []
    ensures rpmPackages.Some? ==> r == Analyze(targetImage, rpmPackages.value, repos, osRelease, formatVersion)
  {
    var analysis := if rpmPackages.Some? then AnalyzeEntries(rpmPackages.value, repos, osRelease, formatVersion) else [];
    ImagePackagesAnalysis(targetImage, Rpm, analysis)
  }
}
