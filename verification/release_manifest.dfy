/** The release script: picks the manifest channel, injects the changelog into
    the build descriptor, composes the download URL of the built archive, and
    compacts the unstable manifest to its five newest versions. The packaging
    tool and its "repo add" command are external; their result is an input here. */
module ReleaseManifest {
  import opened Wrappers
  import Strings

  const StableManifest := "./manifest.json"
  const UnstableManifest := "./manifest-unstable.json"
  const RepoUrl := "https://github.com/ShokoAnime/Shokofin/releases/download"
  /** How many versions the unstable manifest keeps per plugin. */
  const MaxUnstableVersions := 5

  /** `bool(opts.prerelease)`: the flag is set by any non-empty argument,
      including the text "false". */
  function IsPrerelease(arg: Option<string>): (b: bool)
    ensures b <==> arg.Some? && |arg.value| > 0
  {
    match arg
    case None => false
    case Some(s) => s != ""
  }

  /** The manifest file the release goes to. */
  function ManifestFile(prerelease: bool): (f: string)
    ensures f == UnstableManifest <==> prerelease
    ensures f == StableManifest <==> !prerelease
  {
    if prerelease then UnstableManifest else StableManifest
  }

  // ----- Build descriptor -----

  /** A value of the build descriptor; only text values matter to the script. */
  datatype YamlValue = Text(text: string) | Other(repr: string)

  /** The build descriptor's top-level mapping. */
  type BuildDescriptor = map<string, YamlValue>

  /** Why the script stops. */
  datatype ReleaseError = MissingChangelogVariable

  /** Sets an existing "changelog" key to the environment's changelog text with
      surrounding whitespace removed. Nothing is added when the key is absent,
      and the environment is read only when it is present (reading a missing
      variable raises). */
  function InjectChangelog(data: BuildDescriptor, env: Option<string>): (r: Result<BuildDescriptor, ReleaseError>)
    ensures "changelog" !in data ==> r == Success(data)
    ensures "changelog" in data && env.None? ==> r == Failure(MissingChangelogVariable)
    ensures r.Success? ==> r.value.Keys == data.Keys
    ensures r.Success? ==> forall k :: k in data && k != "changelog" ==> r.value[k] == data[k]
    ensures "changelog" in data && env.Some? ==>
      r.Success? && r.value["changelog"] == Text(Strings.Trim(Strings.Python, env.value))
  {
    if "changelog" !in data then Success(data)
    else if env.None? then Failure(MissingChangelogVariable)
    else Success(data["changelog" := Text(Strings.Trim(Strings.Python, env.value))])
  }

  /** Injecting the same changelog twice gives the same descriptor as once. */
  lemma InjectChangelogIdempotent(data: BuildDescriptor, env: Option<string>)
    requires InjectChangelog(data, env).Success?
    ensures InjectChangelog(InjectChangelog(data, env).value, env) == InjectChangelog(data, env)
  {
    if "changelog" in data {
      var t := Text(Strings.Trim(Strings.Python, env.value));
      var d1 := data["changelog" := t];
      assert InjectChangelog(data, env) == Success(d1);
      assert d1["changelog" := t] == d1;
    }
  }

  // ----- Release URL -----

  /** The download URL of the archive built for `version`. */
  function ReleaseUrl(version: string): (url: string)
    ensures Strings.StartsWith(url, RepoUrl + "/" + version + "/")
    ensures Strings.EndsWith(url, "/shoko_" + version + ".zip")
    ensures |url| == |RepoUrl| + 2 * |version| + 12
  {
    RepoUrl + "/" + version + "/shoko_" + version + ".zip"
  }

  /** The version can be read back from the URL. */
  function VersionOfUrl(url: string): (v: Option<string>)
  {
    var n := |url| - |RepoUrl| - 12;
    if n >= 0 && n % 2 == 0 && |RepoUrl| + 1 + n / 2 <= |url| then
      Some(url[|RepoUrl| + 1..|RepoUrl| + 1 + n / 2])
    else None
  }

  /** Reading the version back from a release URL gives that version, so
      distinct versions never share a URL. */
  lemma ReleaseUrlRoundTrip(version: string)
    ensures VersionOfUrl(ReleaseUrl(version)) == Some(version)
  {
    var url := ReleaseUrl(version);
    assert url[|RepoUrl| + 1..|RepoUrl| + 1 + |version|] == version;
  }

  /** Distinct versions give distinct URLs. */
  lemma ReleaseUrlInjective(v1: string, v2: string)
    requires ReleaseUrl(v1) == ReleaseUrl(v2)
    ensures v1 == v2
  {
    ReleaseUrlRoundTrip(v1);
    ReleaseUrlRoundTrip(v2);
  }

  // ----- Manifest compaction -----

  /** One release of a plugin in a repository manifest. */
  datatype VersionEntry = VersionEntry(version: string, changelog: string, targetAbi: string,
                                       sourceUrl: string, checksum: string, timestamp: string)

  /** One plugin in a repository manifest; `versions` is None when the item
      has no "versions" key. */
  datatype ManifestItem = ManifestItem(guid: string, name: string, versions: Option<seq<VersionEntry>>)

  /** One item after compaction: more than five versions are cut to the first
      five, in their order; anything else is left as it is. */
  function CompactItem(item: ManifestItem): (r: ManifestItem)
    ensures r.guid == item.guid && r.name == item.name
    ensures r.versions.Some? <==> item.versions.Some?
    ensures item.versions.Some? && |item.versions.value| > MaxUnstableVersions ==>
      r.versions.value == item.versions.value[..MaxUnstableVersions]
    ensures item.versions.None? || |item.versions.value| <= MaxUnstableVersions ==> r == item
  {
    match item.versions
    case Some(vs) =>
      if |vs| > MaxUnstableVersions then item.(versions := Some(vs[..MaxUnstableVersions])) else item
    case None => item
  }

  /** A compacted item keeps at most five versions and they are its first ones. */
  lemma CompactItemBounded(item: ManifestItem)
    requires item.versions.Some?
    ensures |CompactItem(item).versions.value| <= MaxUnstableVersions
    ensures CompactItem(item).versions.value <= item.versions.value
  {
  }

  /** Compacting twice is compacting once. */
  lemma CompactItemIdempotent(item: ManifestItem)
    ensures CompactItem(CompactItem(item)) == CompactItem(item)
  {
  }

  /** The compaction loop over the manifest's items. */
  method Compact(data: seq<ManifestItem>) returns (r: seq<ManifestItem>)
    ensures |r| == |data|
    ensures forall i :: 0 <= i < |r| ==> r[i] == CompactItem(data[i])
    ensures forall i :: 0 <= i < |r| && r[i].versions.Some? ==> |r[i].versions.value| <= MaxUnstableVersions
  {
    r := [];
    var i := 0;
    while i < |data|
      invariant 0 <= i <= |data|
      invariant |r| == i
      invariant forall j :: 0 <= j < i ==> r[j] == CompactItem(data[j])
    {
      var item := data[i];
      if item.versions.Some? && |item.versions.value| > MaxUnstableVersions {
        item := item.(versions := Some(item.versions.value[..MaxUnstableVersions]));
      }
      r := r + [item];
      i := i + 1;
    }
  }

  /** The manifest as written after the external "repo add": compacted on the
      unstable channel, left as it is on the stable one. */
  method PublishManifest(prerelease: bool, added: seq<ManifestItem>) returns (file: string, r: seq<ManifestItem>)
    ensures file == ManifestFile(prerelease)
    ensures !prerelease ==> r == added
    ensures prerelease ==> |r| == |added| && forall i :: 0 <= i < |r| ==> r[i] == CompactItem(added[i])
  {
    file := ManifestFile(prerelease);
    if prerelease {
      r := Compact(added);
    } else {
      r := added;
    }
  }
}
