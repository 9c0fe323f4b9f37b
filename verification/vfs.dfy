/** The naming rules of the virtual file system: long show and episode names
    cut at a word boundary, the extras folders a file is linked into, the
    season folder name, the Shoko ids read back from a linked file's name,
    and which videos inside an extras folder the library scan ignores. */
module VirtualFileSystem {
  import opened Wrappers
  import Strings

  /** Names at least this long are cut. */
  const NameCutOff: nat := 64

  /** The horizontal ellipsis put after a cut name. */
  const Ellipsis: char := '\U{2026}'

  /** The folder names whose videos are ignored unless they carry Shoko ids. */
  const IgnoreFolderNames: set<string> := {
    "backdrops", "behind the scenes", "deleted scenes", "interviews", "scenes", "samples",
    "shorts", "featurettes", "clips", "other", "extras", "trailers"
  }

  // ----- Long names -----

  /** The text before the last separator, when there is one: joining all but
      the last piece gives what comes before the last separator. */
  lemma {:induction false} JoinDropLast(parts: seq<string>, sep: string)
    requires |parts| >= 2
    ensures Strings.Join(parts, sep) == Strings.Join(parts[..|parts| - 1], sep) + sep + parts[|parts| - 1]
    decreases |parts|
  {
    if |parts| > 2 {
      var rest := parts[1..];
      JoinDropLast(rest, sep);
      assert rest[..|rest| - 1] == parts[1..|parts| - 1];
      assert parts[..|parts| - 1][1..] == parts[1..|parts| - 1];
    } else {
      assert parts[..1] == [parts[0]];
      assert parts[1..] == [parts[1]];
    }
  }

  /** Cutting at a separator that occurs gives at least two pieces. */
  lemma SplitSeveral(s: string, sep: char)
    requires sep in s
    ensures |Strings.Split(s, sep)| >= 2
  {
    var parts := Strings.Split(s, sep);
    if |parts| == 1 {
      assert false;
    }
  }

  /** A name of at least 64 characters keeps its first 64, less the word
      the cut runs into, followed by an ellipsis; shorter names stay. */
  function TruncateName(name: string): (r: string)
    ensures |name| < NameCutOff ==> r == name
    ensures |name| >= NameCutOff ==> 1 <= |r| <= NameCutOff && r[|r| - 1] == Ellipsis
    ensures |name| >= NameCutOff && ' ' !in name[..NameCutOff] ==> r == [Ellipsis]
    ensures |name| >= NameCutOff && ' ' in name[..NameCutOff] ==>
      && |r| - 1 < NameCutOff
      && name[..NameCutOff][|r| - 1] == ' '
      && ' ' !in name[..NameCutOff][|r|..]
      && r[..|r| - 1] == name[..NameCutOff][..|r| - 1]
  {
    if |name| < NameCutOff then name
    else BeforeLastSpace(name[..NameCutOff]) + [Ellipsis]
  }

  /** All pieces of `head` but the last, joined back: nothing when it has no
      space, otherwise everything before its last space. */
  function BeforeLastSpace(head: string): (kept: string)
    ensures ' ' !in head ==> kept == []
    ensures ' ' in head ==>
      |kept| < |head| && head[|kept|] == ' ' && ' ' !in head[|kept| + 1..] && kept == head[..|kept|]
  {
    var parts := Strings.Split(head, ' ');
    var kept := Strings.Join(parts[..|parts| - 1], " ");
    CutAtLastSpace(head, parts, kept);
    kept
  }

  /** What joining all pieces but the last keeps of the cut name. */
  lemma CutAtLastSpace(head: string, parts: seq<string>, kept: string)
    requires parts == Strings.Split(head, ' ')
    requires kept == Strings.Join(parts[..|parts| - 1], " ")
    ensures ' ' !in head ==> kept == []
    ensures ' ' in head ==>
      |kept| < |head| && head[|kept|] == ' ' && ' ' !in head[|kept| + 1..] && kept == head[..|kept|]
  {
    if ' ' in head {
      SplitSeveral(head, ' ');
      JoinDropLast(parts, " ");
      assert head == kept + " " + parts[|parts| - 1];
      SpaceBeforeLast(head, kept, parts[|parts| - 1]);
    } else {
      assert parts == [head];
      assert parts[..0] == [];
    }
  }

  /** A text made of a kept part, a space and a last word without spaces. */
  lemma SpaceBeforeLast(head: string, kept: string, last: string)
    requires head == kept + " " + last && ' ' !in last
    ensures |kept| < |head| && head[|kept|] == ' ' && ' ' !in head[|kept| + 1..] && kept == head[..|kept|]
  {
    assert head[|kept| + 1..] == last;
    assert head[..|kept|] == kept;
  }

  // ----- Extras folders -----

  /** Jellyfin's extra kinds. */
  datatype ExtraType =
    | Unknown | Clip | Trailer | BehindTheScenes | DeletedScene | Interview
    | Scene | Sample | ThemeSong | ThemeVideo | Featurette | Short

  /** The plugin settings the extras folders depend on. */
  datatype ExtrasConfig = ExtrasConfig(addCreditsAsThemeVideos: bool, addCreditsAsSpecialFeatures: bool,
                                       addTrailers: bool)

  /** The folders an extra is linked into; nothing for a file that is not an
      extra (it then goes to the show or season folder itself). */
  function ExtrasFolders(extraType: Option<ExtraType>, isExtra: bool, config: ExtrasConfig): (r: Option<seq<string>>)
    ensures r.None? <==> extraType.None? && !isExtra
    ensures extraType.None? && isExtra ==> r == Some(["extras"])
    ensures r.Some? ==> ("trailers" in r.value <==> extraType == Some(Trailer) && config.addTrailers)
    ensures extraType == Some(ThemeVideo) ==>
      && ("backdrops" in r.value <==> config.addCreditsAsThemeVideos)
      && ("extras" in r.value <==> config.addCreditsAsSpecialFeatures)
      && |r.value| <= 2
    ensures extraType == Some(ThemeSong) ==> r == Some(["theme-music"])
    ensures r.Some? ==> forall i, j :: 0 <= i < j < |r.value| ==> r.value[i] != r.value[j]
  {
    match extraType
    case None => if isExtra then Some(["extras"]) else None
    case Some(ThemeSong) => Some(["theme-music"])
    case Some(ThemeVideo) =>
      if config.addCreditsAsThemeVideos && config.addCreditsAsSpecialFeatures then Some(["backdrops", "extras"])
      else if config.addCreditsAsThemeVideos then Some(["backdrops"])
      else if config.addCreditsAsSpecialFeatures then Some(["extras"])
      else Some([])
    case Some(Trailer) => if config.addTrailers then Some(["trailers"]) else Some([])
    case Some(BehindTheScenes) => Some(["behind the scenes"])
    case Some(DeletedScene) => Some(["deleted scenes"])
    case Some(Clip) => Some(["clips"])
    case Some(Interview) => Some(["interviews"])
    case Some(Scene) => Some(["scenes"])
    case Some(Sample) => Some(["samples"])
    case Some(_) => Some(["extras"])
  }

  /** Every extras folder except the theme-music one is a folder whose
      videos the scan ignores unless they carry ids. */
  lemma ExtrasFoldersIgnored(extraType: Option<ExtraType>, isExtra: bool, config: ExtrasConfig)
    requires ExtrasFolders(extraType, isExtra, config).Some?
    ensures forall f :: f in ExtrasFolders(extraType, isExtra, config).value ==>
      (f in IgnoreFolderNames <==> f != "theme-music")
  {
  }

  // ----- Season folders -----

  /** `s` padded on the left with `c` to at least `width` characters. */
  function PadLeft(s: string, width: nat, c: char): (r: string)
    ensures |r| == if |s| >= width then |s| else width
    ensures r[|r| - |s|..] == s
    ensures forall i :: 0 <= i < |r| - |s| ==> r[i] == c
  {
    if |s| >= width then s else seq(width - |s|, _ => c) + s
  }

  /** Leading zeros do not change the value of a digit string. */
  lemma {:induction false} LeadingZero(s: string)
    ensures Strings.DigitsValue("0" + s) == Strings.DigitsValue(s)
    decreases |s|
  {
    if |s| > 0 {
      var t := "0" + s;
      assert t[..|t| - 1] == "0" + s[..|s| - 1];
      assert t[|t| - 1] == s[|s| - 1];
      LeadingZero(s[..|s| - 1]);
    }
  }

  /** The season folder: "Season " and the season number (0 for specials)
      padded to two digits. */
  function SeasonFolder(isSpecial: bool, seasonNumber: int): (r: string)
    ensures |r| >= 9 && r[..7] == "Season "
    ensures isSpecial ==> r == "Season 00"
    ensures var n := if isSpecial then 0 else seasonNumber;
      && (n >= 0 ==> (forall i :: 7 <= i < |r| ==> Strings.IsDigit(r[i])) && Strings.DigitsValue(r[7..]) == n)
      && (n < 0 ==> r[7] == '-' && (forall i :: 8 <= i < |r| ==> Strings.IsDigit(r[i])) && Strings.DigitsValue(r[8..]) == -n)
      && (0 <= n < 10 ==> |r| == 9 && r[7] == '0')
  {
    var n := if isSpecial then 0 else seasonNumber;
    PaddedNumber(n);
    "Season " + PadLeft(Strings.IntText(n), 2, '0')
  }

  /** What the padded number text spells. */
  lemma PaddedNumber(n: int)
    ensures var p := PadLeft(Strings.IntText(n), 2, '0');
      && |p| >= 2
      && (n >= 0 ==> (forall i :: 0 <= i < |p| ==> Strings.IsDigit(p[i])) && Strings.DigitsValue(p) == n)
      && (n < 0 ==> p[0] == '-' && (forall i :: 1 <= i < |p| ==> Strings.IsDigit(p[i])) && Strings.DigitsValue(p[1..]) == -n)
      && (0 <= n < 10 ==> |p| == 2 && p[0] == '0')
  {
    var text := Strings.IntText(n);
    var p := PadLeft(text, 2, '0');
    if n >= 0 {
      assert text == Strings.NatText(n);
      if |text| < 2 {
        assert p == "0" + text;
        LeadingZero(text);
      }
    } else {
      assert text[1..] == Strings.NatText(-n);
      assert p == text;
    }
  }

  /** Different season numbers get different folders. */
  lemma SeasonFolderInjective(a: int, b: int)
    requires a != b
    ensures SeasonFolder(false, a) != SeasonFolder(false, b)
  {
  }

  // ----- Ids in a file name -----

  /** What `int.TryParse` skips at either end of a number. */
  predicate NumberWhiteSpace(c: char) {
    c == ' ' || '\t' <= c <= '\r'
  }

  /** `s` without its leading number whitespace. */
  function DropLeadingWhite(s: string): (r: string)
    ensures |r| <= |s| && r == s[|s| - |r|..]
    ensures r == [] || !NumberWhiteSpace(r[0])
  {
    if |s| > 0 && NumberWhiteSpace(s[0]) then DropLeadingWhite(s[1..]) else s
  }

  /** What `DropLeadingWhite` removes is all number whitespace. */
  lemma {:induction false} LeadingDroppedWhite(s: string)
    ensures forall i :: 0 <= i < |s| - |DropLeadingWhite(s)| ==> NumberWhiteSpace(s[i])
  {
    if |s| > 0 && NumberWhiteSpace(s[0]) {
      var rest := s[1..];
      LeadingDroppedWhite(rest);
      assert DropLeadingWhite(s) == DropLeadingWhite(rest);
      forall i | 1 <= i < |s| - |DropLeadingWhite(s)|
        ensures NumberWhiteSpace(s[i])
      {
        assert s[i] == rest[i - 1];
      }
    }
  }

  /** `s` without its trailing number whitespace. */
  function DropTrailingWhite(s: string): (r: string)
    ensures |r| <= |s| && r == s[..|r|]
    ensures r == [] || !NumberWhiteSpace(r[|r| - 1])
  {
    if |s| > 0 && NumberWhiteSpace(s[|s| - 1]) then DropTrailingWhite(s[..|s| - 1]) else s
  }

  /** What `DropTrailingWhite` removes is all number whitespace. */
  lemma {:induction false} TrailingDroppedWhite(s: string)
    ensures forall i :: |DropTrailingWhite(s)| <= i < |s| ==> NumberWhiteSpace(s[i])
  {
    if |s| > 0 && NumberWhiteSpace(s[|s| - 1]) {
      TrailingDroppedWhite(s[..|s| - 1]);
      assert forall i :: |DropTrailingWhite(s)| <= i < |s| - 1 ==> s[i] == s[..|s| - 1][i];
    }
  }

  /** Whether `n` fits a signed 32-bit integer. */
  predicate IsInt32(n: int) {
    -0x8000_0000 <= n < 0x8000_0000
  }

  /** Every character is a decimal digit. */
  predicate AllDigits(s: string) {
    forall i :: 0 <= i < |s| ==> Strings.IsDigit(s[i])
  }

  /** The number an optional sign followed by one or more decimal digits
      spells, of any size; none for any other text. */
  function SignedValue(t: string): (v: Option<int>)
    ensures t == [] ==> v.None?
    ensures v.Some? ==> forall i :: 0 <= i < |t| ==> Strings.IsDigit(t[i]) || (i == 0 && (t[0] == '-' || t[0] == '+'))
  {
    var signed := |t| > 0 && (t[0] == '-' || t[0] == '+');
    var ds := if signed then t[1..] else t;
    if ds == [] || !AllDigits(ds) then None
    else Some(if t[0] == '-' then -(Strings.DigitsValue(ds) as int) else Strings.DigitsValue(ds))
  }

  /** The signed digits left once the whitespace is gone: an optional sign,
      then one or more digits whose value fits 32 bits. */
  function ParseSigned(t: string): (r: Option<int>)
    ensures r.Some? ==> IsInt32(r.value)
    ensures t == [] ==> r.None?
    ensures r.Some? <==> SignedValue(t).Some? && IsInt32(SignedValue(t).value)
    ensures r.Some? ==> r.value == SignedValue(t).value
  {
    match SignedValue(t)
    case None => None
    case Some(v) => if IsInt32(v) then Some(v) else None
  }

  /** The decimal text of any integer spells it. */
  lemma SignedValuePrinted(n: int)
    ensures SignedValue(Strings.IntText(n)) == Some(n)
  {
    if n < 0 {
      assert Strings.IntText(n)[1..] == Strings.NatText(-n);
    }
  }

  /** `int.TryParse` with the default number style: whitespace at either
      end, an optional sign, then one or more digits whose value fits 32 bits;
      a missing string does not parse. */
  function TryParseInt32(s: Option<string>): (r: Option<int>)
    ensures s.None? ==> r.None?
    ensures r.Some? ==> IsInt32(r.value)
    ensures s == Some([]) ==> r.None?
    ensures s.Some? ==> var v := SignedValue(DropTrailingWhite(DropLeadingWhite(s.value)));
      (r.Some? <==> v.Some? && IsInt32(v.value)) && (r.Some? ==> r.value == v.value)
  {
    match s
    case None => None
    case Some(text) => ParseSigned(DropTrailingWhite(DropLeadingWhite(text)))
  }

  /** A text that neither starts nor ends with whitespace loses nothing to
      the trimming. */
  lemma TrimmedAlready(text: string)
    requires |text| > 0 && !NumberWhiteSpace(text[0]) && !NumberWhiteSpace(text[|text| - 1])
    ensures DropTrailingWhite(DropLeadingWhite(text)) == text
  {
  }

  /** The decimal text of a 32-bit integer is read back as it. */
  lemma ParseSignedPrinted(n: int)
    requires IsInt32(n)
    ensures ParseSigned(Strings.IntText(n)) == Some(n)
  {
    SignedValuePrinted(n);
  }

  /** Every 32-bit integer parses back from its decimal text. */
  lemma ParsePrintedInt32(n: int)
    requires IsInt32(n)
    ensures TryParseInt32(Some(Strings.IntText(n))) == Some(n)
  {
    var text := Strings.IntText(n);
    var digits := if n < 0 then Strings.NatText(-n) else Strings.NatText(n);
    assert text[|text| - 1] == digits[|digits| - 1];
    assert Strings.IsDigit(text[|text| - 1]);
    TrimmedAlready(text);
    ParseSignedPrinted(n);
  }

  /** An integer outside 32 bits does not parse, though its text is well
      formed. */
  lemma ParseRejectsOutOfRange(n: int)
    requires !IsInt32(n)
    ensures TryParseInt32(Some(Strings.IntText(n))) == None
  {
    var text := Strings.IntText(n);
    var digits := if n < 0 then Strings.NatText(-n) else Strings.NatText(n);
    assert text[|text| - 1] == digits[|digits| - 1];
    assert Strings.IsDigit(text[|text| - 1]);
    TrimmedAlready(text);
    SignedValuePrinted(n);
  }

  /** Signed digits with a character that is neither sign nor digit do not
      parse. */
  lemma ParseSignedRejects(t: string, j: nat)
    requires j < |t| && !Strings.IsDigit(t[j]) && t[j] != '-' && t[j] != '+'
    ensures ParseSigned(t) == None
  {
    var signed := |t| > 0 && (t[0] == '-' || t[0] == '+');
    var ds := if signed then t[1..] else t;
    var k := if signed then j - 1 else j;
    assert 0 <= k < |ds| && ds[k] == t[j];
  }

  /** A number with a character that is neither whitespace, sign nor digit
      does not parse. */
  lemma ParseRejectsLetters(s: string, i: nat)
    requires i < |s| && !NumberWhiteSpace(s[i]) && !Strings.IsDigit(s[i]) && s[i] != '-' && s[i] != '+'
    ensures TryParseInt32(Some(s)) == None
  {
    var a := DropLeadingWhite(s);
    var t := DropTrailingWhite(a);
    LeadingDroppedWhite(s);
    TrailingDroppedWhite(a);
    var k := |s| - |a|;
    assert i >= k;
    assert a[i - k] == s[i];
    assert i - k < |t|;
    assert t[i - k] == s[i];
    ParseSignedRejects(t, i - k);
  }

  /** The outcome of reading the ids: whether both were found, and the
      series and file id texts, both missing on failure. */
  datatype Ids = Ids(found: bool, seriesId: Option<string>, fileId: Option<string>)

  /** `TryGetIdsForPath`, given the values of the file id and series id
      attributes in the file name: both must be present and parse as 32-bit
      integers; otherwise both ids come back missing. */
  function TryGetIdsForPath(fileIdAttribute: Option<string>, seriesIdAttribute: Option<string>): (r: Ids)
    ensures r.found <==> TryParseInt32(fileIdAttribute).Some? && TryParseInt32(seriesIdAttribute).Some?
    ensures !r.found ==> r.seriesId.None? && r.fileId.None?
    ensures r.found ==> r.seriesId == seriesIdAttribute && r.fileId == fileIdAttribute
    ensures r.found ==> r.seriesId.Some? && r.fileId.Some?
  {
    if TryParseInt32(fileIdAttribute).None? || TryParseInt32(seriesIdAttribute).None? then Ids(false, None, None)
    else Ids(true, seriesIdAttribute, fileIdAttribute)
  }

  /** A file named with printed ids is recognised, and they come back. */
  lemma IdsOfPrintedName(fileId: int, seriesId: int)
    requires IsInt32(fileId) && IsInt32(seriesId)
    ensures TryGetIdsForPath(Some(Strings.IntText(fileId)), Some(Strings.IntText(seriesId)))
         == Ids(true, Some(Strings.IntText(seriesId)), Some(Strings.IntText(fileId)))
  {
    ParsePrintedInt32(fileId);
    ParsePrintedInt32(seriesId);
  }

  // ----- Ignored videos -----

  /** `ShouldIgnoreVideo`: the folders between the virtual root and the file
      are at least two, the innermost is an ignore name, and the file name
      carries no ids. A path shorter than the root and a separator cannot be
      cut and fails. */
  function ShouldIgnoreVideo(vfsPath: string, path: string, separator: char,
                             fileIdAttribute: Option<string>, seriesIdAttribute: Option<string>): (r: Option<bool>)
    ensures r.None? <==> |path| < |vfsPath| + 1
    ensures r == Some(true) ==> !TryGetIdsForPath(fileIdAttribute, seriesIdAttribute).found
    ensures r == Some(true) ==> separator in path[|vfsPath| + 1..]
  {
    if |path| < |vfsPath| + 1 then None
    else
      var parts := Strings.Split(path[|vfsPath| + 1..], separator);
      var parents := parts[..|parts| - 1];
      if |parents| > 1 && parents[|parents| - 1] in IgnoreFolderNames
         && !TryGetIdsForPath(fileIdAttribute, seriesIdAttribute).found then
        assert Strings.Join(parts, [separator]) == path[|vfsPath| + 1..];
        assert |parts| > 1;
        SeparatorInJoin(parts, separator);
        Some(true)
      else Some(false)
  }

  /** Joining two or more pieces puts the separator in the text. */
  lemma SeparatorInJoin(parts: seq<string>, sep: char)
    requires |parts| >= 2
    ensures sep in Strings.Join(parts, [sep])
  {
    assert Strings.Join(parts, [sep])[|parts[0]|] == sep;
  }

  /** Cutting a path built from folders and a file name at the separator
      gives the folders and the file back. */
  lemma SplitBuiltPath(dirs: seq<string>, file: string, sep: char)
    requires sep !in file && forall i :: 0 <= i < |dirs| ==> sep !in dirs[i]
    ensures Strings.Split(Strings.Join(dirs + [file], [sep]), sep) == dirs + [file]
  {
    var parts := dirs + [file];
    assert forall i :: 0 <= i < |parts| ==> sep !in parts[i];
    assert [sep] + [] == [sep];
    Strings.SplitJoin([], parts, sep, []);
    var r := Strings.Split(Strings.Join(parts, [sep]), sep);
    assert [] + Strings.Join(parts, [sep]) == Strings.Join(parts, [sep]);
    forall i | 0 <= i < |parts|
      ensures r[i] == parts[i]
    {
      assert [] + parts[i] == parts[i];
    }
  }

  /** For a video at `vfsPath/dirs.../file`, the decision reads the folders
      as built: ignored exactly when there are at least two, the innermost is
      an ignore name, and the name has no ids. */
  lemma IgnoreBuiltPath(vfsPath: string, dirs: seq<string>, file: string, sep: char,
                        fileIdAttribute: Option<string>, seriesIdAttribute: Option<string>)
    requires sep !in file && forall i :: 0 <= i < |dirs| ==> sep !in dirs[i]
    ensures ShouldIgnoreVideo(vfsPath, vfsPath + [sep] + Strings.Join(dirs + [file], [sep]), sep,
                              fileIdAttribute, seriesIdAttribute)
         == Some(|dirs| > 1 && dirs[|dirs| - 1] in IgnoreFolderNames
                 && !TryGetIdsForPath(fileIdAttribute, seriesIdAttribute).found)
  {
    var rest := Strings.Join(dirs + [file], [sep]);
    var path := vfsPath + [sep] + rest;
    assert path[|vfsPath| + 1..] == rest;
    SplitBuiltPath(dirs, file, sep);
    assert (dirs + [file])[..|dirs|] == dirs;
  }

  /** An extra linked into `show/folder/` under the root is ignored by the
      scan exactly when its file name has no ids and the folder is not the
      theme-music one. */
  lemma ExtraPlacementIgnored(vfsPath: string, showFolder: string, extraType: Option<ExtraType>, isExtra: bool,
                              config: ExtrasConfig, folder: string, file: string, sep: char,
                              fileIdAttribute: Option<string>, seriesIdAttribute: Option<string>)
    requires ExtrasFolders(extraType, isExtra, config).Some?
    requires folder in ExtrasFolders(extraType, isExtra, config).value
    requires sep !in file && sep !in showFolder && sep !in folder
    ensures ShouldIgnoreVideo(vfsPath, vfsPath + [sep] + Strings.Join([showFolder, folder, file], [sep]), sep,
                              fileIdAttribute, seriesIdAttribute)
         == Some(folder != "theme-music" && !TryGetIdsForPath(fileIdAttribute, seriesIdAttribute).found)
  {
    ExtrasFoldersIgnored(extraType, isExtra, config);
    assert [showFolder, folder] + [file] == [showFolder, folder, file];
    IgnoreBuiltPath(vfsPath, [showFolder, folder], file, sep, fileIdAttribute, seriesIdAttribute);
  }
}
