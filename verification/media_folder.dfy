/** Media folder configurations: which Shoko import folder (and sub-path) a
    Jellyfin media folder is linked to, the grouping of configurations by
    import folder, and the change keys that decide when a configuration
    counts as updated. */
module MediaFolder {
  import opened Wrappers
  import Seqs
  import Strings

  /** One media folder's configuration. The filtering mode is carried as the
      name its enum value prints as. */
  datatype MediaFolderConfig = MediaFolderConfig(
    mediaFolderId: int, mediaFolderPath: string, libraryId: int,
    importFolderId: int, importFolderRelativePath: string,
    isFileEventsEnabled: bool, isRefreshEventsEnabled: bool,
    isVirtualFileSystemEnabled: Option<bool>, libraryFilteringMode: string)

  /** A configuration is mapped once an import folder was found for it. */
  predicate IsMapped(c: MediaFolderConfig) {
    c.importFolderId != 0
  }

  /** A configuration as first created: not mapped, at the import folder's
      root, with file events on and no virtual file system choice made. */
  function NewConfig(mediaFolderId: int, mediaFolderPath: string, libraryId: int,
                     refreshEvents: bool, filteringMode: string): (c: MediaFolderConfig)
    ensures !IsMapped(c) && c.importFolderRelativePath == ""
    ensures c.isFileEventsEnabled && c.isVirtualFileSystemEnabled.None?
  {
    MediaFolderConfig(mediaFolderId, mediaFolderPath, libraryId, 0, "", true, refreshEvents, None, filteringMode)
  }

  /** Whether a path relative to the import folder may lie in this media
      folder: always when the media folder is the import folder's root,
      otherwise when the path is inside the media folder's sub-path. */
  predicate IsEnabledForPath(c: MediaFolderConfig, relativePath: string, separator: char) {
    c.importFolderRelativePath == ""
    || Strings.StartsWith(relativePath, c.importFolderRelativePath + [separator])
  }

  /** A path is enabled exactly when the media folder is the import folder's
      root, or the path is the sub-path, a separator, and more. */
  lemma EnabledForPathExactly(c: MediaFolderConfig, relativePath: string, separator: char)
    ensures IsEnabledForPath(c, relativePath, separator) <==>
      c.importFolderRelativePath == ""
      || exists rest :: relativePath == (c.importFolderRelativePath + [separator]) + rest
  {
    var p := c.importFolderRelativePath + [separator];
    if Strings.StartsWith(relativePath, p) {
      assert relativePath == p + relativePath[|p|..];
    }
    forall rest | relativePath == p + rest ensures Strings.StartsWith(relativePath, p) {
      assert relativePath[..|p|] == p;
    }
  }

  /** A path enabled for a configuration with a sub-path lies strictly below
      it, and every path further down is enabled too. */
  lemma EnabledForPathBelow(c: MediaFolderConfig, relativePath: string, separator: char, more: string)
    requires IsEnabledForPath(c, relativePath, separator)
    ensures IsEnabledForPath(c, relativePath + more, separator)
    ensures c.importFolderRelativePath != "" ==> |relativePath| > |c.importFolderRelativePath|
    ensures c.importFolderRelativePath != "" ==> relativePath != c.importFolderRelativePath
  {
    if c.importFolderRelativePath != "" {
      var p := c.importFolderRelativePath + [separator];
      assert (relativePath + more)[..|p|] == relativePath[..|p|];
    }
  }

  // ----- Grouping by import folder -----

  /** One import folder location and the media folders at it. */
  datatype ImportFolderGroup = ImportFolderGroup(importFolderId: int, subPath: string,
                                                 mediaFolderPaths: seq<string>)

  /** The media folder paths of some configurations, in order. */
  function PathsOf(configs: seq<MediaFolderConfig>): (r: seq<string>)
    ensures |r| == |configs|
    ensures forall i :: 0 <= i < |configs| ==> r[i] == configs[i].mediaFolderPath
  {
    seq(|configs|, i requires 0 <= i < |configs| => configs[i].mediaFolderPath)
  }

  /** The import folder location of a configuration. */
  function LocationKey(c: MediaFolderConfig): (int, string) {
    (c.importFolderId, c.importFolderRelativePath)
  }

  /** The location and virtual file system choice of a configuration. */
  function LocationVfsKey(c: MediaFolderConfig): (int, string, Option<bool>) {
    (c.importFolderId, c.importFolderRelativePath, c.isVirtualFileSystemEnabled)
  }

  /** `ToImportFolderList`: the configurations grouped by import folder and
      sub-path, in order of first occurrence. */
  function ToImportFolderList(configs: seq<MediaFolderConfig>): (r: seq<ImportFolderGroup>)
    ensures var g := Seqs.GroupBy(configs, LocationKey);
      |r| == |g| && forall i :: 0 <= i < |r| ==>
        r[i] == ImportFolderGroup(g[i].0.0, g[i].0.1, PathsOf(g[i].1))
  {
    var g := Seqs.GroupBy(configs, LocationKey);
    seq(|g|, i requires 0 <= i < |g| => ImportFolderGroup(g[i].0.0, g[i].0.1, PathsOf(g[i].1)))
  }

  /** No two groups share an import folder location, and every configuration's
      media folder is listed in the group of its own location. */
  lemma ImportFolderListPartition(configs: seq<MediaFolderConfig>)
    ensures var r := ToImportFolderList(configs);
      forall i, j :: 0 <= i < j < |r| ==>
        (r[i].importFolderId, r[i].subPath) != (r[j].importFolderId, r[j].subPath)
    ensures var r := ToImportFolderList(configs);
      forall c :: c in configs ==> exists i :: (0 <= i < |r| && r[i].importFolderId == c.importFolderId
        && r[i].subPath == c.importFolderRelativePath && c.mediaFolderPath in r[i].mediaFolderPaths)
    ensures var r := ToImportFolderList(configs);
      forall i :: 0 <= i < |r| ==> |r[i].mediaFolderPaths| > 0
  {
    var key := LocationKey;
    var g := Seqs.GroupBy(configs, key);
    var r := ToImportFolderList(configs);
    Seqs.GroupByPartition(configs, key);
    forall c | c in configs ensures exists i :: (0 <= i < |r| && r[i].importFolderId == c.importFolderId
      && r[i].subPath == c.importFolderRelativePath && c.mediaFolderPath in r[i].mediaFolderPaths)
    {
      var i :| 0 <= i < |g| && g[i].0 == key(c) && c in g[i].1;
      var k :| 0 <= k < |g[i].1| && g[i].1[k] == c;
      assert PathsOf(g[i].1)[k] == c.mediaFolderPath;
    }
  }

  /** One location, its virtual file system choice, and the media folders. */
  datatype LocationGroup = LocationGroup(subPath: string, vfsEnabled: Option<bool>, mediaFolderPaths: seq<string>)

  /** The configurations of one import folder that may hold the path. */
  function ConfigsForPath(configs: seq<MediaFolderConfig>, importFolderId: int, relativePath: string,
                          separator: char): (r: seq<MediaFolderConfig>)
    ensures forall c :: c in r <==> c in configs && c.importFolderId == importFolderId
                                    && IsEnabledForPath(c, relativePath, separator)
  {
    Seqs.Filter(configs, (c: MediaFolderConfig) =>
      c.importFolderId == importFolderId && IsEnabledForPath(c, relativePath, separator))
  }

  /** The second `ToImportFolderList` overload: the configurations of one
      import folder enabled for the path, grouped by location and virtual
      file system choice. */
  function ToImportFolderListForPath(configs: seq<MediaFolderConfig>, importFolderId: int,
                                     relativePath: string, separator: char): (r: seq<LocationGroup>)
    ensures var g := Seqs.GroupBy(ConfigsForPath(configs, importFolderId, relativePath, separator),
                                  LocationVfsKey);
      |r| == |g| && forall i :: 0 <= i < |r| ==>
        r[i] == LocationGroup(g[i].0.1, g[i].0.2, PathsOf(g[i].1))
  {
    var g := Seqs.GroupBy(ConfigsForPath(configs, importFolderId, relativePath, separator),
                          LocationVfsKey);
    seq(|g|, i requires 0 <= i < |g| => LocationGroup(g[i].0.1, g[i].0.2, PathsOf(g[i].1)))
  }

  /** Every configuration of the import folder that is enabled for the path
      is listed, under its own location and virtual file system choice. */
  lemma ListForPathComplete(configs: seq<MediaFolderConfig>, importFolderId: int, relativePath: string,
                            separator: char, c: MediaFolderConfig)
    requires c in configs && c.importFolderId == importFolderId && IsEnabledForPath(c, relativePath, separator)
    ensures var r := ToImportFolderListForPath(configs, importFolderId, relativePath, separator);
      exists i :: 0 <= i < |r| && r[i] == r[i].(subPath := c.importFolderRelativePath,
                    vfsEnabled := c.isVirtualFileSystemEnabled) && c.mediaFolderPath in r[i].mediaFolderPaths
  {
    var s := ConfigsForPath(configs, importFolderId, relativePath, separator);
    var g := Seqs.GroupBy(s, LocationVfsKey);
    assert c in s;
    Seqs.GroupByFinds(s, LocationVfsKey, c);
    var i :| 0 <= i < |g| && g[i].0 == LocationVfsKey(c) && c in g[i].1;
    PathsOfHas(g[i].1, c);
    var r := ToImportFolderListForPath(configs, importFolderId, relativePath, separator);
    assert r[i] == LocationGroup(g[i].0.1, g[i].0.2, PathsOf(g[i].1));
  }

  /** The path of every listed configuration is listed. */
  lemma PathsOfHas(configs: seq<MediaFolderConfig>, c: MediaFolderConfig)
    requires c in configs
    ensures c.mediaFolderPath in PathsOf(configs)
  {
    var k :| 0 <= k < |configs| && configs[k] == c;
    assert PathsOf(configs)[k] == c.mediaFolderPath;
  }

  /** Every listed media folder comes from a configuration of the import
      folder that is enabled for the path, at the listed location. */
  lemma ListForPathSound(configs: seq<MediaFolderConfig>, importFolderId: int, relativePath: string,
                         separator: char, i: nat, k: nat)
    requires var r := ToImportFolderListForPath(configs, importFolderId, relativePath, separator);
      i < |r| && k < |r[i].mediaFolderPaths|
    ensures var r := ToImportFolderListForPath(configs, importFolderId, relativePath, separator);
      exists d :: (d in configs && d.importFolderId == importFolderId && IsEnabledForPath(d, relativePath, separator)
        && d.importFolderRelativePath == r[i].subPath && d.mediaFolderPath == r[i].mediaFolderPaths[k])
  {
    var key := LocationVfsKey;
    var s := ConfigsForPath(configs, importFolderId, relativePath, separator);
    var g := Seqs.GroupBy(s, key);
    Seqs.GroupByPartition(s, key);
    var d := g[i].1[k];
    assert d in g[i].1;
    assert d in s;
  }

  // ----- Change keys -----

  /** How .NET prints a `bool`. */
  function BoolText(b: bool): (t: string)
    ensures |t| > 0 && t[0] == (if b then 'T' else 'F')
  {
    if b then "True" else "False"
  }

  /** How .NET prints a `bool?` (nothing for `null`). */
  function NullableBoolText(b: Option<bool>): (t: string)
  {
    if b.None? then "" else BoolText(b.value)
  }

  /** The field labels of a change key. */
  const MappedLabel: string := "IsMapped="
  const FileEventsLabel: string := ",IsFileEventsEnabled="
  const RefreshEventsLabel: string := ",IsRefreshEventsEnabled="
  const VfsLabel: string := ",IsVirtualFileSystemEnabled="
  const FilteringLabel: string := ",LibraryFilteringMode="

  /** `ConstructKey`: the flags that matter for change tracking, as text. */
  function ConstructKey(c: MediaFolderConfig): (k: string)
  {
    MappedLabel + (BoolText(IsMapped(c))
    + (FileEventsLabel + (BoolText(c.isFileEventsEnabled)
    + (RefreshEventsLabel + (BoolText(c.isRefreshEventsEnabled)
    + (VfsLabel + (NullableBoolText(c.isVirtualFileSystemEnabled)
    + (FilteringLabel + c.libraryFilteringMode))))))))
  }

  /** Two configurations agree on every tracked flag. */
  predicate SameFlags(a: MediaFolderConfig, b: MediaFolderConfig) {
    && IsMapped(a) == IsMapped(b)
    && a.isFileEventsEnabled == b.isFileEventsEnabled
    && a.isRefreshEventsEnabled == b.isRefreshEventsEnabled
    && a.isVirtualFileSystemEnabled == b.isVirtualFileSystemEnabled
    && a.libraryFilteringMode == b.libraryFilteringMode
  }

  /** Equal prefixes cancel. */
  lemma PrefixCancel(p: string, x: string, y: string)
    requires p + x == p + y
    ensures x == y
  {
    assert x == (p + x)[|p|..];
  }

  /** A printed `bool` followed by the rest determines both. */
  lemma BoolCancel(a: bool, b: bool, x: string, y: string)
    requires BoolText(a) + x == BoolText(b) + y
    ensures a == b && x == y
  {
    assert (BoolText(a) + x)[0] == BoolText(a)[0];
    assert (BoolText(b) + y)[0] == BoolText(b)[0];
    PrefixCancel(BoolText(a), x, y);
  }

  /** A printed `bool?` followed by the filtering-mode field determines both. */
  lemma NullableCancel(a: Option<bool>, b: Option<bool>, x: string, y: string)
    requires NullableBoolText(a) + (FilteringLabel + x) == NullableBoolText(b) + (FilteringLabel + y)
    ensures a == b && x == y
  {
    var l := NullableBoolText(a) + (FilteringLabel + x);
    var r := NullableBoolText(b) + (FilteringLabel + y);
    assert FilteringLabel[0] == ',';
    assert l[0] == (if a.None? then ',' else NullableBoolText(a)[0]);
    assert r[0] == (if b.None? then ',' else NullableBoolText(b)[0]);
    if a.Some? && b.Some? {
      BoolCancel(a.value, b.value, FilteringLabel + x, FilteringLabel + y);
    }
    PrefixCancel(NullableBoolText(a), FilteringLabel + x, FilteringLabel + y);
    PrefixCancel(FilteringLabel, x, y);
  }

  /** Mapping a configuration that was not mapped changes its key, so the
      change is reported; the key reads the mapping as an import folder id
      other than 0. */
  lemma MappingChangesKey(c: MediaFolderConfig, importFolderId: int)
    requires !IsMapped(c) && importFolderId != 0
    ensures IsMapped(c.(importFolderId := importFolderId))
    ensures ConstructKey(c.(importFolderId := importFolderId)) != ConstructKey(c)
  {
    ConstructKeyInjective(c.(importFolderId := importFolderId), c);
  }

  /** Moving a mapped configuration to another import folder or sub-path
      keeps its key: only the flags are tracked. */
  lemma RemappingKeepsKey(c: MediaFolderConfig, importFolderId: int, subPath: string)
    requires IsMapped(c) && importFolderId != 0
    ensures ConstructKey(c.(importFolderId := importFolderId, importFolderRelativePath := subPath)) == ConstructKey(c)
  {
    ConstructKeyInjective(c.(importFolderId := importFolderId, importFolderRelativePath := subPath), c);
  }

  /** Two configurations get the same key exactly when they agree on every
      tracked flag: a key change is a flag change. */
  lemma ConstructKeyInjective(a: MediaFolderConfig, b: MediaFolderConfig)
    ensures ConstructKey(a) == ConstructKey(b) <==> SameFlags(a, b)
  {
    if ConstructKey(a) == ConstructKey(b) {
      var ta := NullableBoolText(a.isVirtualFileSystemEnabled) + (FilteringLabel + a.libraryFilteringMode);
      var tb := NullableBoolText(b.isVirtualFileSystemEnabled) + (FilteringLabel + b.libraryFilteringMode);
      var ra := BoolText(a.isRefreshEventsEnabled) + (VfsLabel + ta);
      var rb := BoolText(b.isRefreshEventsEnabled) + (VfsLabel + tb);
      var fa := BoolText(a.isFileEventsEnabled) + (RefreshEventsLabel + ra);
      var fb := BoolText(b.isFileEventsEnabled) + (RefreshEventsLabel + rb);
      var ma := BoolText(IsMapped(a)) + (FileEventsLabel + fa);
      var mb := BoolText(IsMapped(b)) + (FileEventsLabel + fb);
      PrefixCancel(MappedLabel, ma, mb);
      BoolCancel(IsMapped(a), IsMapped(b), FileEventsLabel + fa, FileEventsLabel + fb);
      PrefixCancel(FileEventsLabel, fa, fb);
      BoolCancel(a.isFileEventsEnabled, b.isFileEventsEnabled, RefreshEventsLabel + ra, RefreshEventsLabel + rb);
      PrefixCancel(RefreshEventsLabel, ra, rb);
      BoolCancel(a.isRefreshEventsEnabled, b.isRefreshEventsEnabled, VfsLabel + ta, VfsLabel + tb);
      PrefixCancel(VfsLabel, ta, tb);
      NullableCancel(a.isVirtualFileSystemEnabled, b.isVirtualFileSystemEnabled,
                     a.libraryFilteringMode, b.libraryFilteringMode);
    }
  }

  /** The media folder ids of some configurations, in order. */
  function IdsOf(configs: seq<MediaFolderConfig>): (r: seq<int>)
    ensures |r| == |configs|
    ensures forall i :: 0 <= i < |configs| ==> r[i] == configs[i].mediaFolderId
  {
    seq(|configs|, i requires 0 <= i < |configs| => configs[i].mediaFolderId)
  }

  /** The keys the service starts with: one per configured media folder. */
  function InitialKeys(configs: seq<MediaFolderConfig>): (keys: map<int, string>)
    ensures forall id :: id in keys <==> id in IdsOf(configs)
    decreases |configs|
  {
    if |configs| == 0 then map[]
    else
      var p := configs[..|configs| - 1];
      var c := configs[|configs| - 1];
      assert IdsOf(configs) == IdsOf(p) + [c.mediaFolderId];
      InitialKeys(p)[c.mediaFolderId := ConstructKey(c)]
  }

  /** With distinct ids, every configured folder starts with its own key. */
  lemma {:induction false} InitialKeysCurrent(configs: seq<MediaFolderConfig>)
    requires Seqs.NoDuplicates(IdsOf(configs))
    ensures forall i :: 0 <= i < |configs| ==> InitialKeys(configs)[configs[i].mediaFolderId] == ConstructKey(configs[i])
    decreases |configs|
  {
    if |configs| > 0 {
      var p := configs[..|configs| - 1];
      assert IdsOf(p) == IdsOf(configs)[..|configs| - 1];
      var c := configs[|configs| - 1];
      InitialKeysCurrent(p);
      forall i | 0 <= i < |configs| - 1
        ensures InitialKeys(configs)[configs[i].mediaFolderId] == ConstructKey(configs[i])
      {
        assert IdsOf(configs)[i] != IdsOf(configs)[|configs| - 1];
        assert configs[i] == p[i];
      }
    }
  }

  /** The keys after a configuration change, and the configurations reported
      as updated (those whose folder still exists). */
  datatype ChangeResult = ChangeResult(keys: map<int, string>, updated: seq<MediaFolderConfig>)

  /** `OnConfigurationChanged`: a configuration whose folder already has a key
      and whose key differs gets the new key, and is reported when its folder
      exists. Folders without a key are left alone. */
  function OnConfigurationChanged(keys: map<int, string>, configs: seq<MediaFolderConfig>,
                                  folders: set<int>): (r: ChangeResult)
    ensures r.keys.Keys == keys.Keys
    ensures forall c :: c in r.updated ==> c in configs && c.mediaFolderId in keys && c.mediaFolderId in folders
    ensures forall id :: id in keys && id !in IdsOf(configs) ==> r.keys[id] == keys[id]
    decreases |configs|
  {
    if |configs| == 0 then ChangeResult(keys, [])
    else
      var c := configs[0];
      var k := ConstructKey(c);
      assert IdsOf(configs) == [c.mediaFolderId] + IdsOf(configs[1..]);
      if c.mediaFolderId in keys && keys[c.mediaFolderId] != k then
        var rest := OnConfigurationChanged(keys[c.mediaFolderId := k], configs[1..], folders);
        ChangeResult(rest.keys, (if c.mediaFolderId in folders then [c] else []) + rest.updated)
      else
        OnConfigurationChanged(keys, configs[1..], folders)
  }

  /** With distinct ids: a configuration is reported exactly when it had a
      key, the key changed, and its folder exists; afterwards every known
      folder holds its current key. */
  lemma ChangeDetectedExactly(keys: map<int, string>, configs: seq<MediaFolderConfig>, folders: set<int>)
    requires Seqs.NoDuplicates(IdsOf(configs))
    ensures var r := OnConfigurationChanged(keys, configs, folders);
      forall c :: c in configs ==>
        (c in r.updated <==> c.mediaFolderId in keys && keys[c.mediaFolderId] != ConstructKey(c) && c.mediaFolderId in folders)
    ensures var r := OnConfigurationChanged(keys, configs, folders);
      forall c :: c in configs && c.mediaFolderId in keys ==> r.keys[c.mediaFolderId] == ConstructKey(c)
  {
    ChangeReported(keys, configs, folders);
    ChangeStored(keys, configs, folders);
  }

  /** The configurations after the first keep distinct ids, none of them the
      first one's. */
  lemma TailIds(configs: seq<MediaFolderConfig>)
    requires |configs| > 0 && Seqs.NoDuplicates(IdsOf(configs))
    ensures Seqs.NoDuplicates(IdsOf(configs[1..]))
    ensures forall d :: d in configs[1..] ==> d.mediaFolderId != configs[0].mediaFolderId
  {
    var tail := configs[1..];
    assert IdsOf(tail) == IdsOf(configs)[1..];
    forall j | 0 <= j < |tail| ensures tail[j].mediaFolderId != configs[0].mediaFolderId {
      assert IdsOf(configs)[j + 1] == tail[j].mediaFolderId;
      assert IdsOf(configs)[0] == configs[0].mediaFolderId;
    }
  }

  /** The reporting half of `ChangeDetectedExactly`. */
  lemma {:induction false} ChangeReported(keys: map<int, string>, configs: seq<MediaFolderConfig>, folders: set<int>)
    requires Seqs.NoDuplicates(IdsOf(configs))
    ensures var r := OnConfigurationChanged(keys, configs, folders);
      forall c :: c in configs ==>
        (c in r.updated <==> c.mediaFolderId in keys && keys[c.mediaFolderId] != ConstructKey(c) && c.mediaFolderId in folders)
    decreases |configs|
  {
    if |configs| > 0 {
      var c := configs[0];
      TailIds(configs);
      if c.mediaFolderId in keys && keys[c.mediaFolderId] != ConstructKey(c) {
        ChangeReported(keys[c.mediaFolderId := ConstructKey(c)], configs[1..], folders);
      } else {
        ChangeReported(keys, configs[1..], folders);
      }
    }
  }

  /** The stored-key half of `ChangeDetectedExactly`. */
  lemma {:induction false} ChangeStored(keys: map<int, string>, configs: seq<MediaFolderConfig>, folders: set<int>)
    requires Seqs.NoDuplicates(IdsOf(configs))
    ensures var r := OnConfigurationChanged(keys, configs, folders);
      forall c :: c in configs && c.mediaFolderId in keys ==> r.keys[c.mediaFolderId] == ConstructKey(c)
    decreases |configs|
  {
    if |configs| > 0 {
      var c := configs[0];
      TailIds(configs);
      if c.mediaFolderId in keys && keys[c.mediaFolderId] != ConstructKey(c) {
        ChangeStored(keys[c.mediaFolderId := ConstructKey(c)], configs[1..], folders);
      } else {
        ChangeStored(keys, configs[1..], folders);
      }
    }
  }

  /** Applying the same configuration again reports nothing: with distinct
      ids, a change is reported once. */
  lemma ChangeReportedOnce(keys: map<int, string>, configs: seq<MediaFolderConfig>, folders: set<int>)
    requires Seqs.NoDuplicates(IdsOf(configs))
    ensures var r := OnConfigurationChanged(keys, configs, folders);
      forall c :: c !in OnConfigurationChanged(r.keys, configs, folders).updated
  {
    var r := OnConfigurationChanged(keys, configs, folders);
    ChangeDetectedExactly(keys, configs, folders);
    ChangeDetectedExactly(r.keys, configs, folders);
  }

  /** Right after start-up nothing counts as changed. */
  lemma NoChangeAtStart(configs: seq<MediaFolderConfig>, folders: set<int>)
    requires Seqs.NoDuplicates(IdsOf(configs))
    ensures forall c :: c !in OnConfigurationChanged(InitialKeys(configs), configs, folders).updated
  {
    InitialKeysCurrent(configs);
    ChangeDetectedExactly(InitialKeys(configs), configs, folders);
    var u := OnConfigurationChanged(InitialKeys(configs), configs, folders).updated;
    forall c | c in configs ensures c !in u {
      var i :| 0 <= i < |configs| && configs[i] == c;
    }
  }
}
