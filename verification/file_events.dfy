/** The file events Shoko's SignalR hub sends: the relative path as the
    plugin sees it, the cross-references a file event carries, and the
    previous location of a renamed file. */
module FileEvents {
  import opened Wrappers
  import Strings

  /** Why reading a path fails: an empty path has no first character, and a
      file name longer than the path cannot be cut off it. */
  datatype PathError = EmptyPath | NameLongerThanPath

  /** An episode linked to a file. */
  datatype FileCrossReference = FileCrossReference(anidbEpisodeId: int, anidbAnimeId: int,
                                                   shokoEpisodeId: Option<int>, shokoSeriesId: Option<int>)

  /** A file event: ids, the path as Shoko sends it, the cached normalised
      path, and the cross-references with the flag saying whether any were
      sent. */
  datatype FileEventArgs = FileEventArgs(fileId: int, fileLocationId: Option<int>, importFolderId: int,
                                         internalPath: string, cachedPath: Option<string>,
                                         hasCrossReferences: bool, crossReferences: seq<FileCrossReference>)

  /** A freshly read event: nothing cached and no cross-references. */
  function NewFileEventArgs(fileId: int, fileLocationId: Option<int>, importFolderId: int,
                            internalPath: string): (e: FileEventArgs)
    ensures e.cachedPath.None? && !e.hasCrossReferences && e.crossReferences == []
    ensures e.internalPath == internalPath
  {
    FileEventArgs(fileId, fileLocationId, importFolderId, internalPath, None, false, [])
  }

  /** A path in the plugin's form: it starts with the platform separator and
      holds no other kind of slash. */
  predicate Normalised(path: string, separator: char) {
    && |path| > 0 && path[0] == separator
    && forall i :: 0 <= i < |path| && (path[i] == '/' || path[i] == '\\') ==> path[i] == separator
  }

  /** Both kinds of slash turned into the platform separator, and a separator
      put in front when missing; an empty path fails. */
  function NormalisePath(internalPath: string, separator: char): (r: Result<string, PathError>)
    ensures r.Failure? <==> internalPath == []
    ensures r.Success? ==> Normalised(r.value, separator)
    ensures r.Success? ==>
      var swapped := Strings.ReplaceChar(Strings.ReplaceChar(internalPath, '/', separator), '\\', separator);
      r.value == swapped || r.value == [separator] + swapped
  {
    if internalPath == [] then Failure(EmptyPath)
    else
      var swapped := Strings.ReplaceChar(Strings.ReplaceChar(internalPath, '/', separator), '\\', separator);
      if swapped[0] != separator then Success([separator] + swapped) else Success(swapped)
  }

  /** A path already in the plugin's form is left as it is. */
  lemma NormaliseNormalised(path: string, separator: char)
    requires Normalised(path, separator)
    ensures NormalisePath(path, separator) == Success(path)
  {
    var swapped := Strings.ReplaceChar(Strings.ReplaceChar(path, '/', separator), '\\', separator);
    assert swapped == path;
  }

  /** Normalising twice is normalising once. */
  lemma NormaliseIdempotent(path: string, separator: char)
    requires path != []
    ensures NormalisePath(NormalisePath(path, separator).value, separator) == NormalisePath(path, separator)
  {
    NormaliseNormalised(NormalisePath(path, separator).value, separator);
  }

  /** The `RelativePath` getter: the cached path when there is one, otherwise
      the normalised path, which is then cached. Returns the path and the
      event as it is after the read. */
  function RelativePath(e: FileEventArgs, separator: char): (r: Result<(string, FileEventArgs), PathError>)
    ensures e.cachedPath.Some? ==> r == Success((e.cachedPath.value, e))
    ensures e.cachedPath.None? ==> (r.Failure? <==> e.internalPath == [])
    ensures e.cachedPath.None? && r.Success? ==>
      Normalised(r.value.0, separator) && r.value.1 == e.(cachedPath := Some(r.value.0))
  {
    if e.cachedPath.Some? then Success((e.cachedPath.value, e))
    else
      match NormalisePath(e.internalPath, separator)
      case Failure(err) => Failure(err)
      case Success(p) => Success((p, e.(cachedPath := Some(p))))
  }

  /** Reading the path twice gives the same path and changes nothing more. */
  lemma RelativePathStable(e: FileEventArgs, separator: char)
    requires RelativePath(e, separator).Success?
    ensures var first := RelativePath(e, separator).value;
      RelativePath(first.1, separator) == Success(first)
  {
  }

  /** The setter behind the current "CrossReferences" JSON field. */
  function SetCurrentCrossReferences(e: FileEventArgs, refs: seq<FileCrossReference>): (r: FileEventArgs)
    ensures r.hasCrossReferences && r.crossReferences == refs
    ensures r.(hasCrossReferences := e.hasCrossReferences, crossReferences := e.crossReferences) == e
  {
    e.(hasCrossReferences := true, crossReferences := refs)
  }

  /** The setter behind the legacy "CrossRefs" JSON field. */
  function SetLegacyCrossReferences(e: FileEventArgs, refs: seq<FileCrossReference>): (r: FileEventArgs)
    ensures r.hasCrossReferences && r.crossReferences == refs
    ensures r.(hasCrossReferences := e.hasCrossReferences, crossReferences := e.crossReferences) == e
  {
    e.(hasCrossReferences := true, crossReferences := refs)
  }

  /** Either JSON field has the same effect, and the last one read wins. */
  lemma CrossReferenceSettersAgree(e: FileEventArgs, a: seq<FileCrossReference>, b: seq<FileCrossReference>)
    ensures SetCurrentCrossReferences(e, a) == SetLegacyCrossReferences(e, a)
    ensures SetLegacyCrossReferences(SetCurrentCrossReferences(e, a), b) == SetCurrentCrossReferences(e, b)
    ensures SetCurrentCrossReferences(SetLegacyCrossReferences(e, a), b) == SetLegacyCrossReferences(e, b)
  {
  }

  // ----- Renamed files -----

  /** A rename event: the file event plus the new and previous file names. */
  datatype FileRenamedEventArgs = FileRenamedEventArgs(args: FileEventArgs, fileName: string, previousFileName: string)

  /** The previous import folder of a renamed file is its current one. */
  function PreviousImportFolderId(e: FileRenamedEventArgs): (id: int)
    ensures id == e.args.importFolderId
  {
    e.args.importFolderId
  }

  /** A path with its last `|fileName|` characters replaced by the previous
      file name; a name longer than the path fails. */
  function ReplaceFileName(path: string, fileName: string, previousFileName: string): (r: Result<string, PathError>)
    ensures r.Failure? <==> |fileName| > |path|
    ensures r.Success? ==> |r.value| == |path| - |fileName| + |previousFileName|
    ensures r.Success? ==> r.value[..|path| - |fileName|] == path[..|path| - |fileName|]
    ensures r.Success? ==> r.value[|path| - |fileName|..] == previousFileName
  {
    if |fileName| > |path| then Failure(NameLongerThanPath)
    else Success(path[..|path| - |fileName|] + previousFileName)
  }

  /** For a path that ends in the file name, renaming back restores it. */
  lemma ReplaceFileNameRoundTrip(dir: string, fileName: string, previousFileName: string)
    ensures ReplaceFileName(dir + fileName, fileName, previousFileName) == Success(dir + previousFileName)
    ensures ReplaceFileName(dir + previousFileName, previousFileName, fileName) == Success(dir + fileName)
  {
    assert (dir + fileName)[..|dir|] == dir;
    assert (dir + previousFileName)[..|dir|] == dir;
  }

  /** `PreviousRelativePath`: the relative path with the file name swapped
      for the previous one. Returns the path and the event after the read. */
  function PreviousRelativePath(e: FileRenamedEventArgs, separator: char)
    : (r: Result<(string, FileRenamedEventArgs), PathError>)
    ensures r.Success? ==> RelativePath(e.args, separator).Success?
    ensures r.Success? ==>
      var current := RelativePath(e.args, separator).value.0;
      ReplaceFileName(current, e.fileName, e.previousFileName) == Success(r.value.0)
    ensures RelativePath(e.args, separator).Failure? ==> r.Failure?
  {
    match RelativePath(e.args, separator)
    case Failure(err) => Failure(err)
    case Success((current, args)) =>
      match ReplaceFileName(current, e.fileName, e.previousFileName)
      case Failure(err) => Failure(err)
      case Success(p) => Success((p, e.(args := args)))
  }

  /** Renaming back undoes a rename: for a current path ending in the file
      name, the event that renames the file back, read from where the file
      came from, names the current folder and path as its previous ones. */
  lemma RenameBack(e: FileRenamedEventArgs, separator: char, dir: string)
    requires RelativePath(e.args, separator).Success?
    requires RelativePath(e.args, separator).value.0 == dir + e.fileName
    ensures PreviousRelativePath(e, separator) == Success((dir + e.previousFileName, e.(args := RelativePath(e.args, separator).value.1)))
    ensures var back := FileRenamedEventArgs(e.args.(importFolderId := PreviousImportFolderId(e),
                                                     cachedPath := Some(dir + e.previousFileName)),
                                             e.previousFileName, e.fileName);
      PreviousImportFolderId(back) == e.args.importFolderId
      && PreviousRelativePath(back, separator).Success?
      && PreviousRelativePath(back, separator).value.0 == dir + e.fileName
  {
    ReplaceFileNameRoundTrip(dir, e.fileName, e.previousFileName);
  }

  /** The version 0 rename event: a location id is never sent and there are
      never cross-references. */
  datatype RenamedV0 = RenamedV0(fileId: int, importFolderId: int, internalPath: string,
                                 cachedPath: Option<string>, fileName: string, previousFileName: string)

  /** The version 0 event read through the common file event shape. */
  function V0AsFileEvent(v: RenamedV0): (e: FileEventArgs)
    ensures e.fileLocationId.None?
    ensures !e.hasCrossReferences && e.crossReferences == []
    ensures e.internalPath == v.internalPath && e.cachedPath == v.cachedPath
  {
    FileEventArgs(v.fileId, None, v.importFolderId, v.internalPath, v.cachedPath, false, [])
  }

  /** The version 0 relative path is normalised as the current one's. */
  function V0RelativePath(v: RenamedV0, separator: char): (r: Result<(string, RenamedV0), PathError>)
    ensures v.cachedPath.None? ==> (r.Failure? <==> v.internalPath == [])
    ensures v.cachedPath.None? && r.Success? ==> Normalised(r.value.0, separator)
    ensures r.Success? ==> RelativePath(V0AsFileEvent(v), separator).Success?
    ensures r.Success? ==> RelativePath(V0AsFileEvent(v), separator).value.0 == r.value.0
  {
    if v.cachedPath.Some? then Success((v.cachedPath.value, v))
    else
      match NormalisePath(v.internalPath, separator)
      case Failure(err) => Failure(err)
      case Success(p) => Success((p, v.(cachedPath := Some(p))))
  }

  /** The version 0 previous path, as for the current event. */
  function V0PreviousRelativePath(v: RenamedV0, separator: char): (r: Result<string, PathError>)
    ensures r.Success? ==> V0RelativePath(v, separator).Success?
    ensures r.Success? ==> ReplaceFileName(V0RelativePath(v, separator).value.0, v.fileName, v.previousFileName) == r
    ensures var e := FileRenamedEventArgs(V0AsFileEvent(v), v.fileName, v.previousFileName);
      r.Success? <==> PreviousRelativePath(e, separator).Success?
  {
    match V0RelativePath(v, separator)
    case Failure(err) => Failure(err)
    case Success((current, _)) => ReplaceFileName(current, v.fileName, v.previousFileName)
  }
}
