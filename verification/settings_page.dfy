/** The list cleaning the plugin's settings page does before it saves the
    configuration: ignored folder names, SignalR reconnect intervals, the
    user list, and the media folders of a removed library. Values read from
    the page are parameters; the page itself is not modelled. */
module SettingsPage {
  import opened Wrappers
  import Strings
  import Seqs
  import MediaFolder
  import ListExtensions

  // ----- Ignored folders -----

  /** One comma-separated entry as the page cleans it: trimmed, then lowered. */
  function CleanEntry(piece: string): (r: string)
    ensures |r| <= |piece|
    ensures Strings.IsLower(r)
  {
    Strings.ToLower(Strings.Trim(Strings.JavaScript, piece))
  }

  /** What a cleaned entry looks like: lower-case, without a comma, and with
      no whitespace at either end. */
  predicate Settled(x: string) {
    Strings.IsLower(x) && ',' !in x && Strings.Trimmed(Strings.JavaScript, x)
  }

  /** A cleaned entry has no whitespace at either end. */
  lemma CleanEntryTrimmed(piece: string)
    ensures Strings.Trimmed(Strings.JavaScript, CleanEntry(piece))
  {
    Strings.TrimIsTrimmed(Strings.JavaScript, piece);
    Strings.LowerOfTrimmed(Strings.JavaScript, Strings.Trim(Strings.JavaScript, piece));
  }

  /** An entry cut at the commas cleans to a settled one. */
  lemma CleanEntrySettled(piece: string)
    requires ',' !in piece
    ensures Settled(CleanEntry(piece))
  {
    var t := Strings.Trim(Strings.JavaScript, piece);
    Strings.TrimSubset(Strings.JavaScript, piece);
    forall i | 0 <= i < |t|
      ensures Strings.LowerChar(t[i]) != ','
    {
      assert t[i] in t;
    }
    CleanEntryTrimmed(piece);
  }

  /** A settled entry, with or without whitespace in front, cleans to itself. */
  lemma SettledCleansToItself(pad: string, x: string)
    requires Strings.AllWhiteSpace(Strings.JavaScript, pad)
    requires Settled(x)
    ensures CleanEntry(pad + x) == x
  {
    Strings.TrimPadded(Strings.JavaScript, pad, x);
    Strings.ToLowerOfLower(x);
  }

  /** Every entry cleaned. */
  function CleanAll(pieces: seq<string>): (r: seq<string>)
    ensures |r| == |pieces|
    ensures forall i :: 0 <= i < |pieces| ==> r[i] == CleanEntry(pieces[i])
  {
    seq(|pieces|, i requires 0 <= i < |pieces| => CleanEntry(pieces[i]))
  }

  /** Entries without commas clean to settled ones. */
  lemma CleanAllSettled(pieces: seq<string>)
    requires forall i :: 0 <= i < |pieces| ==> ',' !in pieces[i]
    ensures forall i :: 0 <= i < |pieces| ==> Settled(CleanAll(pieces)[i])
  {
    forall i | 0 <= i < |pieces|
      ensures Settled(CleanAll(pieces)[i])
    {
      CleanEntrySettled(pieces[i]);
    }
  }

  /** The entries that are not empty, in order (`filter(str => str)`). */
  function DropEmpty(s: seq<string>): (r: seq<string>)
    ensures forall x :: x in r <==> x in s && x != []
    decreases |s|
  {
    if |s| == 0 then []
    else (if s[0] != [] then [s[0]] else []) + DropEmpty(s[1..])
  }

  /** Nothing is dropped from entries that are all non-empty. */
  lemma {:induction false} DropEmptyNone(s: seq<string>)
    requires forall i :: 0 <= i < |s| ==> s[i] != []
    ensures DropEmpty(s) == s
    decreases |s|
  {
    if |s| > 0 {
      DropEmptyNone(s[1..]);
    }
  }

  /** What the set keeps of settled entries: settled, non-empty ones, in the
      order they first occur. */
  lemma KeptSettled(cleaned: seq<string>)
    requires forall i :: 0 <= i < |cleaned| ==> Settled(cleaned[i])
    ensures forall i :: 0 <= i < |Seqs.Distinct(DropEmpty(cleaned))| ==>
      Seqs.Distinct(DropEmpty(cleaned))[i] != [] && Settled(Seqs.Distinct(DropEmpty(cleaned))[i])
    ensures forall i, j :: 0 <= i < j < |Seqs.Distinct(DropEmpty(cleaned))| ==>
      Seqs.FirstIndex(cleaned, Seqs.Distinct(DropEmpty(cleaned))[i])
        < Seqs.FirstIndex(cleaned, Seqs.Distinct(DropEmpty(cleaned))[j])
  {
    var kept := DropEmpty(cleaned);
    var r := Seqs.Distinct(kept);
    Seqs.DistinctOrder(kept);
    forall i | 0 <= i < |r|
      ensures r[i] != [] && Settled(r[i])
    {
      assert r[i] in kept;
      var k :| 0 <= k < |cleaned| && cleaned[k] == r[i];
    }
    forall i, j | 0 <= i < j < |r|
      ensures Seqs.FirstIndex(cleaned, r[i]) < Seqs.FirstIndex(cleaned, r[j])
    {
      FirstIndexDropEmpty(cleaned, r[i], r[j]);
    }
  }

  /** `filterIgnoredFolders`: the comma-separated entries, trimmed and
      lowered, without empty ones, each kept once. */
  function FilterIgnoredFolders(value: string): (r: seq<string>)
    ensures Seqs.NoDuplicates(r)
    ensures forall x :: x in r <==> x != [] && x in CleanAll(Strings.Split(value, ','))
  {
    Seqs.Distinct(DropEmpty(CleanAll(Strings.Split(value, ','))))
  }

  /** Every saved entry is settled and non-empty, and the entries keep the
      order in which they first occur in the text. */
  lemma IgnoredFoldersShape(value: string)
    ensures forall i :: 0 <= i < |FilterIgnoredFolders(value)| ==>
      FilterIgnoredFolders(value)[i] != [] && Settled(FilterIgnoredFolders(value)[i])
    ensures forall i, j :: 0 <= i < j < |FilterIgnoredFolders(value)| ==>
      Seqs.FirstIndex(CleanAll(Strings.Split(value, ',')), FilterIgnoredFolders(value)[i])
        < Seqs.FirstIndex(CleanAll(Strings.Split(value, ',')), FilterIgnoredFolders(value)[j])
  {
    var pieces := Strings.Split(value, ',');
    CleanAllSettled(pieces);
    KeptSettled(CleanAll(pieces));
  }

  /** Dropping empty entries keeps the order of first occurrences. */
  lemma {:induction false} FirstIndexDropEmpty(s: seq<string>, x: string, y: string)
    requires x in DropEmpty(s) && y in DropEmpty(s)
    ensures Seqs.FirstIndex(DropEmpty(s), x) < Seqs.FirstIndex(DropEmpty(s), y)
        <==> Seqs.FirstIndex(s, x) < Seqs.FirstIndex(s, y)
    decreases |s|
  {
    var f := DropEmpty(s);
    var rest := DropEmpty(s[1..]);
    assert f == (if s[0] != [] then [s[0]] else []) + rest;
    if s[0] == x || s[0] == y {
      assert s[0] != [] && f[0] == s[0];
      assert Seqs.FirstIndex(f, s[0]) == 0 && Seqs.FirstIndex(s, s[0]) == 0;
    } else {
      assert x in rest && y in rest;
      FirstIndexDropEmpty(s[1..], x, y);
      assert Seqs.FirstIndex(s, x) == 1 + Seqs.FirstIndex(s[1..], x);
      assert Seqs.FirstIndex(s, y) == 1 + Seqs.FirstIndex(s[1..], y);
      if s[0] != [] {
        assert f[0] != x && f[0] != y && f[1..] == rest;
        assert Seqs.FirstIndex(f, x) == 1 + Seqs.FirstIndex(rest, x);
        assert Seqs.FirstIndex(f, y) == 1 + Seqs.FirstIndex(rest, y);
      } else {
        assert f == rest;
      }
    }
  }

  /** Settled entries, every one after the first with whitespace in front,
      clean back to themselves. */
  lemma CleanPadded(pieces: seq<string>, r: seq<string>, pad: string)
    requires Strings.AllWhiteSpace(Strings.JavaScript, pad)
    requires |pieces| == |r| > 0 && pieces[0] == r[0]
    requires forall i :: 1 <= i < |r| ==> pieces[i] == pad + r[i]
    requires forall i :: 0 <= i < |r| ==> Settled(r[i])
    ensures CleanAll(pieces) == r
  {
    var c := CleanAll(pieces);
    forall i | 0 <= i < |r|
      ensures c[i] == r[i]
    {
      if i == 0 {
        assert pieces[0] == [] + r[0];
        CleanPaddedEntry([], pieces[0], r[0]);
      } else {
        CleanPaddedEntry(pad, pieces[i], r[i]);
      }
    }
    assert |c| == |r|;
  }

  /** One entry of `CleanPadded`. */
  lemma CleanPaddedEntry(pad: string, piece: string, x: string)
    requires Strings.AllWhiteSpace(Strings.JavaScript, pad) && Settled(x) && piece == pad + x
    ensures CleanEntry(piece) == x
  {
    SettledCleansToItself(pad, x);
  }

  /** Settled entries joined with a comma and optional whitespace, cut and
      cleaned again, come back as they were. */
  lemma CleanAllOfJoin(r: seq<string>, pad: string)
    requires |r| > 0 && Strings.AllWhiteSpace(Strings.JavaScript, pad) && ',' !in pad
    requires forall i :: 0 <= i < |r| ==> Settled(r[i])
    ensures CleanAll(Strings.Split(Strings.Join(r, [','] + pad), ',')) == r
  {
    var text := Strings.Join(r, [','] + pad);
    Strings.SplitJoin([], r, ',', pad);
    assert [] + text == text;
    CleanPadded(Strings.Split(text, ','), r, pad);
  }

  /** Cleaning the page's own rendering of the list changes nothing: the page
      shows the saved list joined with ", " and loads it joined with ",",
      and either text filters back to the same list. */
  lemma IgnoredFoldersRoundTrip(value: string, pad: string)
    requires pad == [] || pad == " "
    ensures FilterIgnoredFolders(Strings.Join(FilterIgnoredFolders(value), [','] + pad)) == FilterIgnoredFolders(value)
  {
    var r := FilterIgnoredFolders(value);
    IgnoredFoldersShape(value);
    if r == [] {
      NothingToIgnore();
    } else {
      Strings.SpaceIsWhiteSpace(Strings.JavaScript);
      SettledListRoundTrip(r, pad);
    }
  }

  /** An empty text yields no ignored folders. */
  lemma NothingToIgnore()
    ensures FilterIgnoredFolders([]) == []
  {
    assert Strings.Split([], ',') == [[]];
    assert CleanAll([[]]) == [[]];
    assert DropEmpty([[]]) == [];
  }

  /** A non-empty list of distinct settled entries, joined, filters back to
      itself. */
  lemma SettledListRoundTrip(r: seq<string>, pad: string)
    requires |r| > 0 && Seqs.NoDuplicates(r)
    requires forall i :: 0 <= i < |r| ==> r[i] != [] && Settled(r[i])
    requires Strings.AllWhiteSpace(Strings.JavaScript, pad) && ',' !in pad
    ensures FilterIgnoredFolders(Strings.Join(r, [','] + pad)) == r
  {
    CleanAllOfJoin(r, pad);
    DropEmptyNone(r);
    Seqs.DistinctOfNoDuplicates(r);
  }

  // ----- Reconnect intervals -----

  /** `parseInt(s, 10)` on a string with no leading whitespace: an optional
      sign, then the longest run of digits; nothing when there is no digit. */
  function ParseDecimal(s: string): (r: Option<int>)
    ensures r.None? <==> Strings.DigitPrefix(if |s| > 0 && (s[0] == '-' || s[0] == '+') then s[1..] else s) == []
  {
    var signed := |s| > 0 && (s[0] == '-' || s[0] == '+');
    var body := if signed then s[1..] else s;
    var ds := Strings.DigitPrefix(body);
    if ds == [] then None
    else if |s| > 0 && s[0] == '-' then Some(-(Strings.DigitsValue(ds) as int))
    else Some(Strings.DigitsValue(ds))
  }


  /** Parsing what was printed gives the number back. */
  lemma ParsePrinted(n: int)
    ensures ParseDecimal(Strings.IntText(n)) == Some(n)
  {
    var t := if n < 0 then Strings.NatText(-n) else Strings.NatText(n);
    Strings.DigitPrefixAll(t);
    if n < 0 {
      assert Strings.IntText(n)[1..] == t;
    }
  }


  /** One comma-separated entry read as an interval. */
  function ParseEntry(piece: string): (r: Option<int>)
  {
    ParseDecimal(CleanEntry(piece))
  }

  /** Every entry read as an interval. */
  function ParseAll(pieces: seq<string>): (r: seq<Option<int>>)
    ensures |r| == |pieces|
    ensures forall i :: 0 <= i < |pieces| ==> r[i] == ParseEntry(pieces[i])
  {
    seq(|pieces|, i requires 0 <= i < |pieces| => ParseEntry(pieces[i]))
  }

  /** The numbers found, in order, with the entries that are not numbers
      dropped (`filter(int => !Number.isNaN(int))`). */
  function Numbers(parsed: seq<Option<int>>): (r: seq<int>)
    ensures forall n :: n in r <==> Some(n) in parsed
    decreases |parsed|
  {
    if |parsed| == 0 then []
    else
      var init := Numbers(parsed[..|parsed| - 1]);
      assert parsed == parsed[..|parsed| - 1] + [parsed[|parsed| - 1]];
      match parsed[|parsed| - 1]
      case None => init
      case Some(n) => init + [n]
  }

  function Identity(n: int): int {
    n
  }

  /** Strictly increasing, hence sorted and without duplicates. */
  predicate Increasing(s: seq<int>) {
    forall i, j :: 0 <= i < j < |s| ==> s[i] < s[j]
  }

  /** `filterReconnectIntervals`: the entries that parse as integers, each
      once, in ascending order. */
  function FilterReconnectIntervals(value: string): (r: seq<int>)
    ensures Increasing(r)
    ensures forall n :: n in r <==> n in Numbers(ParseAll(Strings.Split(value, ',')))
  {
    var d := Seqs.Distinct(Numbers(ParseAll(Strings.Split(value, ','))));
    var r := Seqs.SortBy(d, Identity);
    SortedDistinctIncreasing(d, r);
    r
  }

  /** A sorted permutation of a list without duplicates is increasing and
      holds the same numbers. */
  lemma SortedDistinctIncreasing(d: seq<int>, r: seq<int>)
    requires Seqs.NoDuplicates(d)
    requires multiset(r) == multiset(d) && Seqs.SortedBy(r, Identity)
    ensures Increasing(r)
    ensures forall n :: n in r <==> n in d
  {
    Seqs.NoDuplicatesMultiset(d);
    Seqs.NoDuplicatesMultiset(r);
    forall i, j | 0 <= i < j < |r|
      ensures r[i] < r[j]
    {
      assert Identity(r[i]) <= Identity(r[j]);
    }
    forall n
      ensures n in r <==> n in d
    {
      assert n in r <==> n in multiset(r);
      assert n in d <==> n in multiset(d);
    }
  }

  /** Each interval printed. */
  function IntervalTexts(r: seq<int>): (t: seq<string>)
    ensures |t| == |r|
    ensures forall i :: 0 <= i < |r| ==> t[i] == Strings.IntText(r[i])
  {
    seq(|r|, i requires 0 <= i < |r| => Strings.IntText(r[i]))
  }

  /** Filtering the ", "-joined list the page writes back gives the same
      list. */
  lemma ReconnectIntervalsRoundTrip(value: string)
    ensures FilterReconnectIntervals(Strings.Join(IntervalTexts(FilterReconnectIntervals(value)), ", "))
         == FilterReconnectIntervals(value)
  {
    var r := FilterReconnectIntervals(value);
    var texts := IntervalTexts(r);
    var text := Strings.Join(texts, ", ");
    var pieces := Strings.Split(text, ',');
    if r == [] {
      assert pieces == [[]];
      assert ParseAll(pieces) == [None];
      assert Numbers([None]) == [];
    } else {
      IntervalsSplit(r);
      ParsePadded(pieces, r);
      NumbersAllParse(ParseAll(pieces), r);
      IncreasingSettles(r);
    }
  }

  /** Cutting the ", "-joined intervals at the commas gives each printed
      interval, every one after the first with a space in front. */
  lemma IntervalsSplit(r: seq<int>)
    requires |r| > 0
    ensures |Strings.Split(Strings.Join(IntervalTexts(r), ", "), ',')| == |r|
    ensures Strings.Split(Strings.Join(IntervalTexts(r), ", "), ',')[0] == Strings.IntText(r[0])
    ensures forall i :: 1 <= i < |r| ==>
      Strings.Split(Strings.Join(IntervalTexts(r), ", "), ',')[i] == " " + Strings.IntText(r[i])
  {
    var texts := IntervalTexts(r);
    var text := Strings.Join(texts, ", ");
    forall i | 0 <= i < |texts|
      ensures ',' !in texts[i]
    {
      PrintedSettled(r[i]);
    }
    assert [','] + " " == ", ";
    Strings.SplitJoin([], texts, ',', " ");
    assert [] + text == text;
  }

  /** Printed intervals, every one after the first with a space in front,
      parse back to the intervals. */
  lemma ParsePadded(pieces: seq<string>, r: seq<int>)
    requires |pieces| == |r| > 0 && pieces[0] == Strings.IntText(r[0])
    requires forall i :: 1 <= i < |r| ==> pieces[i] == " " + Strings.IntText(r[i])
    ensures forall i :: 0 <= i < |r| ==> ParseAll(pieces)[i] == Some(r[i])
  {
    forall i | 0 <= i < |r|
      ensures ParseAll(pieces)[i] == Some(r[i])
    {
      Strings.SpaceIsWhiteSpace(Strings.JavaScript);
      if i == 0 {
        assert pieces[i] == [] + Strings.IntText(r[i]);
        PrintedCleansToItself([], r[i]);
      } else {
        PrintedCleansToItself(" ", r[i]);
      }
      ParsePrinted(r[i]);
    }
  }

  /** An increasing list is its own set and its own sort. */
  lemma IncreasingSettles(r: seq<int>)
    requires Increasing(r)
    ensures Seqs.SortBy(Seqs.Distinct(r), Identity) == r
  {
    assert Seqs.NoDuplicates(r);
    Seqs.DistinctOfNoDuplicates(r);
    forall i, j | 0 <= i < j < |r|
      ensures Identity(r[i]) <= Identity(r[j])
    {
    }
    Seqs.SortByOfSorted(r, Identity);
  }

  /** A printed integer holds only a sign and digits. */
  lemma TextShape(n: int)
    ensures forall i :: 0 <= i < |Strings.IntText(n)| ==> Strings.IntText(n)[i] == '-' || Strings.IsDigit(Strings.IntText(n)[i])
  {
  }

  /** A printed integer is settled: no comma, no upper case, no whitespace. */
  lemma PrintedSettled(n: int)
    ensures Settled(Strings.IntText(n))
  {
    TextShape(n);
    SignAndDigitsSettled(Strings.IntText(n));
  }

  /** Text made of minus signs and digits is settled. */
  lemma SignAndDigitsSettled(t: string)
    requires forall i :: 0 <= i < |t| ==> t[i] == '-' || Strings.IsDigit(t[i])
    ensures Settled(t)
  {
    if t != [] {
      assert !Strings.IsWhiteSpace(Strings.JavaScript, t[0]);
      assert !Strings.IsWhiteSpace(Strings.JavaScript, t[|t| - 1]);
    }
  }

  /** A printed integer, with or without whitespace in front, cleans to itself. */
  lemma PrintedCleansToItself(pad: string, n: int)
    requires Strings.AllWhiteSpace(Strings.JavaScript, pad)
    ensures CleanEntry(pad + Strings.IntText(n)) == Strings.IntText(n)
  {
    PrintedSettled(n);
    SettledCleansToItself(pad, Strings.IntText(n));
  }

  /** When every entry parses, the numbers are the parsed entries. */
  lemma {:induction false} NumbersAllParse(parsed: seq<Option<int>>, r: seq<int>)
    requires |parsed| == |r|
    requires forall i :: 0 <= i < |r| ==> parsed[i] == Some(r[i])
    ensures Numbers(parsed) == r
    decreases |r|
  {
    if |r| > 0 {
      NumbersAllParse(parsed[..|parsed| - 1], r[..|r| - 1]);
    }
  }

  // ----- Users -----

  /** A user's entry in the configuration: the Jellyfin user id, the Shoko
      user name, and the API token, missing until one was obtained. */
  datatype UserConfig = UserConfig(userId: string, username: string, token: Option<string>)

  /** The token is present and not empty, which is what JavaScript counts as
      a truthy string. */
  predicate HasToken(u: UserConfig) {
    u.token.Some? && u.token.value != []
  }

  /** The user list as saved: the users with a token, in order. */
  function KeepUsersWithToken(users: seq<UserConfig>): (r: seq<UserConfig>)
    ensures |r| <= |users|
    ensures forall u :: u in r <==> u in users && HasToken(u)
  {
    Seqs.Filter(users, HasToken)
  }

  /** Saving twice keeps what saving once kept. */
  lemma KeepUsersWithTokenIdempotent(users: seq<UserConfig>)
    ensures KeepUsersWithToken(KeepUsersWithToken(users)) == KeepUsersWithToken(users)
  {
    var r := KeepUsersWithToken(users);
    assert forall i :: 0 <= i < |r| ==> r[i] in r;
    Seqs.FilterAll(r, HasToken);
  }

  /** The position of the first user with this id, or -1 (`findIndex`). */
  function FindUser(users: seq<UserConfig>, userId: string): (i: int)
    ensures -1 <= i < |users|
    ensures i == -1 <==> forall k :: 0 <= k < |users| ==> users[k].userId != userId
    ensures i >= 0 ==> users[i].userId == userId && forall k :: 0 <= k < i ==> users[k].userId != userId
    decreases |users|
  {
    if |users| == 0 then -1
    else if users[0].userId == userId then 0
    else
      var i := FindUser(users[1..], userId);
      if i == -1 then -1 else i + 1
  }

  /** `removeUserConfig`: no selected user changes nothing; otherwise the
      first user with the selected id is spliced out. */
  function RemoveUser(users: seq<UserConfig>, userId: string): (r: seq<UserConfig>)
    ensures userId == [] || FindUser(users, userId) == -1 ==> r == users
    ensures userId != [] && FindUser(users, userId) >= 0 ==>
      var k := FindUser(users, userId);
      |r| == |users| - 1 && r[..k] == users[..k] && r[k..] == users[k + 1..]
  {
    if userId == [] then users
    else
      var removal := ListExtensions.TryRemoveAt(users, FindUser(users, userId));
      assert removal.removed ==> removal.list[..FindUser(users, userId)] == users[..FindUser(users, userId)];
      removal.list
  }

  /** Putting the removed user back where it was restores the list, and the
      users before it all had another id. */
  lemma RemoveUserInverse(users: seq<UserConfig>, userId: string)
    requires userId != [] && FindUser(users, userId) >= 0
    ensures var k := FindUser(users, userId);
      RemoveUser(users, userId)[..k] + [users[k]] + RemoveUser(users, userId)[k..] == users
  {
    ListExtensions.TryRemoveAtInverse(users, FindUser(users, userId));
  }

  // ----- Media folders -----

  /** The media folders that are not in the library, in order. */
  function OutsideLibrary(folders: seq<MediaFolder.MediaFolderConfig>, libraryId: int)
    : (r: seq<MediaFolder.MediaFolderConfig>)
    ensures |r| <= |folders|
    ensures forall c :: c in r <==> c in folders && c.libraryId != libraryId
    decreases |folders|
  {
    if |folders| == 0 then []
    else (if folders[0].libraryId != libraryId then [folders[0]] else []) + OutsideLibrary(folders[1..], libraryId)
  }

  /** With no folder in the library, every folder stays. */
  lemma {:induction false} OutsideLibraryAll(folders: seq<MediaFolder.MediaFolderConfig>, libraryId: int)
    requires forall k :: 0 <= k < |folders| ==> folders[k].libraryId != libraryId
    ensures OutsideLibrary(folders, libraryId) == folders
    decreases |folders|
  {
    if |folders| > 0 {
      OutsideLibraryAll(folders[1..], libraryId);
    }
  }

  /** The position of the first folder in the library, or -1 (`findIndex`). */
  function FindInLibrary(folders: seq<MediaFolder.MediaFolderConfig>, libraryId: int): (i: int)
    ensures -1 <= i < |folders|
    ensures i == -1 <==> forall k :: 0 <= k < |folders| ==> folders[k].libraryId != libraryId
    ensures i >= 0 ==> folders[i].libraryId == libraryId
    decreases |folders|
  {
    if |folders| == 0 then -1
    else if folders[0].libraryId == libraryId then 0
    else
      var i := FindInLibrary(folders[1..], libraryId);
      if i == -1 then -1 else i + 1
  }

  /** Splicing out a folder of the library leaves the folders outside it. */
  lemma {:induction false} SpliceInLibrary(folders: seq<MediaFolder.MediaFolderConfig>, index: nat, libraryId: int)
    requires index < |folders| && folders[index].libraryId == libraryId
    ensures OutsideLibrary(folders[..index] + folders[index + 1..], libraryId) == OutsideLibrary(folders, libraryId)
    decreases index
  {
    var spliced := folders[..index] + folders[index + 1..];
    if index == 0 {
      assert spliced == folders[1..];
    } else {
      var tail := folders[1..];
      var head := if folders[0].libraryId != libraryId then [folders[0]] else [];
      SpliceInLibrary(tail, index - 1, libraryId);
      assert spliced[0] == folders[0];
      assert spliced[1..] == tail[..index - 1] + tail[index..];
      assert OutsideLibrary(spliced, libraryId) == head + OutsideLibrary(spliced[1..], libraryId);
    }
  }

  /** `removeLibraryConfig`: with a library selected, splice out the first
      folder of that library until there is none left. The folders of other
      libraries stay, in order. */
  method RemoveLibrary(folders: seq<MediaFolder.MediaFolderConfig>, libraryId: Option<int>)
    returns (r: seq<MediaFolder.MediaFolderConfig>)
    ensures libraryId.None? ==> r == folders
    ensures libraryId.Some? ==> r == OutsideLibrary(folders, libraryId.value)
    ensures libraryId.Some? ==> forall k :: 0 <= k < |r| ==> r[k].libraryId != libraryId.value
  {
    if libraryId.None? {
      return folders;
    }
    var id := libraryId.value;
    r := folders;
    var index := FindInLibrary(r, id);
    while index != -1
      invariant OutsideLibrary(r, id) == OutsideLibrary(folders, id)
      invariant index == FindInLibrary(r, id)
      decreases |r|
    {
      SpliceInLibrary(r, index, id);
      r := r[..index] + r[index + 1..];
      index := FindInLibrary(r, id);
    }
    OutsideLibraryAll(r, id);
  }

  /** The SignalR tab's save: with a library selected, every folder of that
      library takes the two event flags; every other folder is unchanged. */
  function SetLibraryEventFlags(folders: seq<MediaFolder.MediaFolderConfig>, libraryId: Option<int>,
                                fileEvents: bool, refreshEvents: bool): (r: seq<MediaFolder.MediaFolderConfig>)
    ensures |r| == |folders|
    ensures forall k :: 0 <= k < |folders| && (libraryId.None? || folders[k].libraryId != libraryId.value) ==>
      r[k] == folders[k]
    ensures forall k :: 0 <= k < |folders| && libraryId.Some? && folders[k].libraryId == libraryId.value ==>
      r[k].isFileEventsEnabled == fileEvents && r[k].isRefreshEventsEnabled == refreshEvents
      && r[k].(isFileEventsEnabled := folders[k].isFileEventsEnabled,
               isRefreshEventsEnabled := folders[k].isRefreshEventsEnabled) == folders[k]
  {
    seq(|folders|, k requires 0 <= k < |folders| =>
      if libraryId.Some? && folders[k].libraryId == libraryId.value
      then folders[k].(isFileEventsEnabled := fileEvents, isRefreshEventsEnabled := refreshEvents)
      else folders[k])
  }

  /** Saving the same flags again changes nothing. */
  lemma SetLibraryEventFlagsIdempotent(folders: seq<MediaFolder.MediaFolderConfig>, libraryId: Option<int>,
                                       fileEvents: bool, refreshEvents: bool)
    ensures var once := SetLibraryEventFlags(folders, libraryId, fileEvents, refreshEvents);
      SetLibraryEventFlags(once, libraryId, fileEvents, refreshEvents) == once
  {
  }
}
