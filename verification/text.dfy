/** Text helpers of the metadata providers: joining descriptions, choosing a
    description source, picking titles by provider and language, and the
    movie title with its subtitle. The regular-expression summary clean-up is
    a parameter of the model. */
module Text {
  import opened Wrappers
  import opened Variants
  import Strings
  import Seqs

  /** The punctuation marks after which a joined text continues with a bare space. */
  predicate IsPunctuation(c: char)
  {
    c in {'.', ',', ';', ':', '!', '?', ')', ']', '}', '"', '\'',
          '\U{FF0C}', '\U{3001}', '\U{FF01}', '\U{FF1F}', '\U{201C}', '\U{201D}', '\U{2018}', '\U{2019}',
          '\U{3011}', '\U{300B}', '\U{FF09}', '\U{30FB}',
          '\U{203D}', '\U{275E}', '\U{275D}', '\U{2047}', '\U{2048}', '\U{2755}', '\U{2754}', '\U{2049}',
          '\U{203B}', '\U{27E9}', '\U{276F}', '\U{276D}', '\U{232A}', '\U{2309}', '\U{230B}',
          '\U{2984}', '\U{2986}', '\U{2988}', '\U{298A}', '\U{298C}', '\U{298E}'}
  }

  /** Non-empty, and neither end is whitespace: what `Trim` leaves of a text
      that is not all whitespace. */
  predicate Clean(s: string)
  {
    |s| > 0 && !Strings.IsWhiteSpace(Strings.DotNet, s[0]) && !Strings.IsWhiteSpace(Strings.DotNet, s[|s| - 1])
  }

  /** A present text that is not all whitespace. */
  predicate HasText(t: Option<string>)
  {
    t.Some? && !Strings.AllWhiteSpace(Strings.DotNet, t.value)
  }

  // ----- JoinText -----

  /** The present, non-whitespace entries, trimmed, in order. */
  function TrimmedEntries(texts: seq<Option<string>>): (r: seq<string>)
    ensures forall t :: t in r ==> Clean(t)
    ensures |r| <= |texts|
    ensures |r| == 0 <==> forall k :: 0 <= k < |texts| ==> !HasText(texts[k])
    decreases |texts|
  {
    if |texts| == 0 then []
    else
      var rest := TrimmedEntries(texts[1..]);
      assert forall k :: 1 <= k < |texts| ==> texts[k] == texts[1..][k - 1];
      if HasText(texts[0]) then [Strings.Trim(Strings.DotNet, texts[0].value)] + rest else rest
  }

  /** The glue put after a text ending in `last`. */
  function Separator(last: char): (sep: string)
    ensures sep == " " <==> IsPunctuation(last)
    ensures sep == ". " <==> !IsPunctuation(last)
  {
    if IsPunctuation(last) then " " else ". "
  }

  /** The pieces glued together, each separator chosen by the last character
      of the piece before it. */
  function Glue(parts: seq<string>): string
    requires |parts| > 0 && forall p :: p in parts ==> Clean(p)
    decreases |parts|
  {
    if |parts| == 1 then parts[0]
    else
      var init := parts[..|parts| - 1];
      var prev := parts[|parts| - 2];
      assert prev in parts;
      Glue(init) + Separator(prev[|prev| - 1]) + parts[|parts| - 1]
  }

  /** Glued clean pieces start with the first piece, end with the last one,
      and are themselves clean, so trimming them changes nothing. */
  lemma {:induction false} GlueClean(parts: seq<string>)
    requires |parts| > 0 && forall p :: p in parts ==> Clean(p)
    ensures Clean(Glue(parts))
    ensures Strings.StartsWith(Glue(parts), parts[0])
    ensures Strings.EndsWith(Glue(parts), parts[|parts| - 1])
    decreases |parts|
  {
    if |parts| > 1 {
      var init := parts[..|parts| - 1];
      GlueClean(init);
      var last := parts[|parts| - 1];
      assert last in parts;
      assert init[0] == parts[0];
      GlueEnds(Glue(init), Separator(parts[|parts| - 2][|parts[|parts| - 2]| - 1]), last, parts[0]);
    }
  }

  /** Two clean texts around a separator make a clean text with the same
      first and last pieces. */
  lemma GlueEnds(g: string, sep: string, last: string, first: string)
    requires Clean(g) && Clean(last) && Strings.StartsWith(g, first)
    ensures Clean(g + sep + last)
    ensures Strings.StartsWith(g + sep + last, first)
    ensures Strings.EndsWith(g + sep + last, last)
  {
    var s := g + sep + last;
    assert s[0] == g[0];
    assert s[|s| - 1] == last[|last| - 1];
    assert s[..|first|] == g[..|first|];
    assert s[|s| - |last|..] == last;
  }

  /** A clean text is its own right trim. */
  lemma TrimEndClean(s: string)
    requires Clean(s)
    ensures Strings.TrimEnd(Strings.DotNet, s) == s
  {
  }

  /** JoinText: the present, non-whitespace entries, trimmed and without
      repeats, glued with ". " (or " " after a punctuation mark); nothing when
      no entry has text. */
  method JoinText(texts: seq<Option<string>>) returns (r: Option<string>)
    ensures r.None? <==> TrimmedEntries(texts) == []
    ensures r.Some? ==> r.value == Glue(Seqs.Distinct(TrimmedEntries(texts)))
    ensures r.Some? ==> Clean(r.value) && Strings.Trim(Strings.DotNet, r.value) == r.value
    ensures |Seqs.Distinct(TrimmedEntries(texts))| == 1 ==> r == Some(Seqs.Distinct(TrimmedEntries(texts))[0])
  {
    var entries := TrimmedEntries(texts);
    var filtered := Seqs.Distinct(entries);
    DistinctEmpty(entries);
    if |filtered| == 0 {
      return None;
    }
    var output := GlueAll(filtered);
    GlueClean(filtered);
    if |filtered| > 1 {
      TrimEndClean(output);
      output := Strings.TrimEnd(Strings.DotNet, output);
    }
    Strings.TrimNoop(Strings.DotNet, output);
    r := Some(output);
  }

  /** The gluing loop of JoinText. */
  method GlueAll(filtered: seq<string>) returns (output: string)
    requires |filtered| > 0 && forall p :: p in filtered ==> Clean(p)
    ensures output == Glue(filtered)
  {
    var index := 1;
    output := filtered[0];
    assert filtered[..1] == [filtered[0]];
    while index < |filtered|
      invariant 1 <= index <= |filtered|
      invariant output == Glue(filtered[..index])
    {
      GlueStep(filtered, index);
      var lastChar := output[|output| - 1];
      output := output + Separator(lastChar);
      output := output + filtered[index];
      index := index + 1;
    }
    assert filtered[..index] == filtered;
  }

  /** One more piece: the glue so far, the separator its last character
      calls for, and the piece. */
  lemma GlueStep(parts: seq<string>, i: nat)
    requires 0 < i < |parts| && forall p :: p in parts ==> Clean(p)
    ensures |Glue(parts[..i])| > 0
    ensures Glue(parts[..i + 1]) == Glue(parts[..i]) + Separator(Glue(parts[..i])[|Glue(parts[..i])| - 1]) + parts[i]
  {
    var init := parts[..i];
    GlueClean(init);
    assert parts[..i + 1][..i] == init;
    assert init[i - 1] == parts[i - 1];
    assert parts[i - 1] in parts;
  }

  /** Dropping repeats leaves nothing only of nothing. */
  lemma DistinctEmpty(entries: seq<string>)
    ensures |Seqs.Distinct(entries)| == 0 <==> |entries| == 0
  {
    if |entries| > 0 {
      assert entries[0] in Seqs.Distinct(entries);
    }
  }

  // ----- Descriptions -----

  /** The description sources a user can order and enable. */
  datatype DescriptionSource = AniDbSource | TvDbSource | TmdbSource

  /** SanitizeTextSummary: whitespace-only text becomes empty; otherwise the
      regular-expression passes (`clean`, not modelled) and a trim. */
  function SanitizeTextSummary(summary: string, clean: string -> string): (r: string)
    ensures Strings.AllWhiteSpace(Strings.DotNet, summary) ==> r == []
    ensures r == [] || Clean(r)
  {
    if Strings.AllWhiteSpace(Strings.DotNet, summary) then []
    else Strings.Trim(Strings.DotNet, clean(summary))
  }

  /** The text one source offers; TMDB offers none. */
  function SourceText(source: DescriptionSource, aniDb: string, tvDb: string): string
  {
    match source
    case AniDbSource => aniDb
    case TvDbSource => tvDb
    case TmdbSource => []
  }

  /** GetDescription over the sources: the first non-empty text among the
      sources in `order` that are enabled; empty when there is none. `aniDb`
      is the AniDB text after `SanitizeTextSummary`. */
  method GetDescription(order: seq<DescriptionSource>, enabled: seq<DescriptionSource>, aniDb: string, tvDb: string)
    returns (r: string)
    ensures |enabled| == 0 ==> r == []
    ensures r == [] <==> forall i :: 0 <= i < |order| && order[i] in enabled ==> SourceText(order[i], aniDb, tvDb) == []
    ensures r != [] ==> exists i :: 0 <= i < |order| && order[i] in enabled && SourceText(order[i], aniDb, tvDb) == r
                                 && forall j :: 0 <= j < i && order[j] in enabled ==> SourceText(order[j], aniDb, tvDb) == []
  {
    r := [];
    if |enabled| == 0 {
      return;
    }
    var i := 0;
    while i < |order|
      invariant 0 <= i <= |order|
      invariant r == [] ==> forall j :: 0 <= j < i && order[j] in enabled ==> SourceText(order[j], aniDb, tvDb) == []
      invariant r != [] ==> exists k :: 0 <= k < i && order[k] in enabled && SourceText(order[k], aniDb, tvDb) == r
                                   && forall j :: 0 <= j < k && order[j] in enabled ==> SourceText(order[j], aniDb, tvDb) == []
    {
      if order[i] in enabled {
        if r != [] {
          return;
        }
        r := SourceText(order[i], aniDb, tvDb);
      }
      i := i + 1;
    }
  }

  /** Every description, as a present text. */
  function Present(descriptions: seq<string>): (texts: seq<Option<string>>)
    ensures |texts| == |descriptions|
    ensures forall k :: 0 <= k < |texts| ==> texts[k] == Some(descriptions[k])
  {
    seq(|descriptions|, k requires 0 <= k < |descriptions| => Some(descriptions[k]))
  }

  /** GetDescription of an episode list: the episodes' descriptions joined,
      or empty when none has text. */
  method DescribeEpisodes(descriptions: seq<string>) returns (r: string)
    ensures r == [] <==> forall k :: 0 <= k < |descriptions| ==> Strings.AllWhiteSpace(Strings.DotNet, descriptions[k])
    ensures r == [] || Clean(r)
    ensures r != [] ==>
      |Seqs.Distinct(TrimmedEntries(Present(descriptions)))| > 0
      && r == Glue(Seqs.Distinct(TrimmedEntries(Present(descriptions))))
  {
    var texts := Present(descriptions);
    assert forall k :: 0 <= k < |texts| ==> (HasText(texts[k]) <==> !Strings.AllWhiteSpace(Strings.DotNet, descriptions[k]));
    var joined := JoinText(texts);
    assert joined.None? <==> forall k :: 0 <= k < |texts| ==> !HasText(texts[k]);
    if joined.Some? {
      r := joined.value;
    } else {
      r := [];
    }
  }

  // ----- Titles -----

  datatype TitleType = NoType | MainType | Official | Short | Synonym | TitleCard | KanjiReading

  /** A title of a series or an episode, in one language. */
  datatype Title = Title(value: string, languageCode: string, titleType: Option<TitleType>, isDefault: bool)

  /** The value of the first default title. */
  function GetDefaultTitle(titles: seq<Title>): (r: Option<string>)
    ensures r.None? <==> forall k :: 0 <= k < |titles| ==> !titles[k].isDefault
    ensures r.Some? ==> exists k :: 0 <= k < |titles| && titles[k].isDefault && titles[k].value == r.value
                                 && forall j :: 0 <= j < k ==> !titles[j].isDefault
    decreases |titles|
  {
    if |titles| == 0 then None
    else if titles[0].isDefault then Some(titles[0].value)
    else
      var r := GetDefaultTitle(titles[1..]);
      assert forall k :: 1 <= k < |titles| ==> titles[k] == titles[1..][k - 1];
      if r.Some? then
        var k :| 0 <= k < |titles[1..]| && titles[1..][k].isDefault && titles[1..][k].value == r.value
          && forall j :: 0 <= j < k ==> !titles[1..][j].isDefault;
        assert titles[k + 1] == titles[1..][k];
        r
      else r
  }

  /** The first title of the given type. */
  function FirstOfType(titles: seq<Title>, t: TitleType): (r: Option<Title>)
    ensures r.None? <==> forall k :: 0 <= k < |titles| ==> titles[k].titleType != Some(t)
    ensures r.Some? ==> exists k :: 0 <= k < |titles| && titles[k] == r.value && titles[k].titleType == Some(t)
                                 && forall j :: 0 <= j < k ==> titles[j].titleType != Some(t)
    decreases |titles|
  {
    if |titles| == 0 then None
    else if titles[0].titleType == Some(t) then Some(titles[0])
    else
      var r := FirstOfType(titles[1..], t);
      assert forall k :: 1 <= k < |titles| ==> titles[k] == titles[1..][k - 1];
      if r.Some? then
        var k :| 0 <= k < |titles[1..]| && titles[1..][k] == r.value && titles[1..][k].titleType == Some(t)
          && forall j :: 0 <= j < k ==> titles[1..][j].titleType != Some(t);
        assert titles[k + 1] == titles[1..][k];
        r
      else r
  }

  /** GetMainLanguage: the language of the first main title, else of the first
      title, else "x-other". */
  function GetMainLanguage(titles: seq<Title>): (lang: string)
    ensures FirstOfType(titles, MainType).Some? ==> lang == FirstOfType(titles, MainType).value.languageCode
    ensures FirstOfType(titles, MainType).None? && |titles| > 0 ==> lang == titles[0].languageCode
    ensures |titles| == 0 ==> lang == "x-other"
  {
    match FirstOfType(titles, MainType)
    case Some(t) => t.languageCode
    case None => if |titles| > 0 then titles[0].languageCode else "x-other"
  }

  /** GuessOriginLanguage: the languages to look titles up in for the main
      title language. */
  function GuessOriginLanguage(lang: string): (langs: seq<string>)
    ensures |langs| >= 1
    ensures lang == "x-other" || lang == "x-jat" ==> langs == ["ja"]
    ensures lang == "x-zht" ==> langs == ["zn-hans", "zn-hant", "zn-c-mcm", "zn"]
    ensures lang !in {"x-other", "x-jat", "x-zht"} ==> langs == [lang]
  {
    if lang == "x-other" || lang == "x-jat" then ["ja"]
    else if lang == "x-zht" then ["zn-hans", "zn-hant", "zn-c-mcm", "zn"]
    else [lang]
  }

  /** The titles in language `lang`, in order. */
  function InLanguage(titles: seq<Title>, lang: string): (r: seq<Title>)
    ensures forall t :: t in r <==> t in titles && t.languageCode == lang
    ensures |r| == 0 <==> forall k :: 0 <= k < |titles| ==> titles[k].languageCode != lang
    ensures |r| > 0 ==> r[0] == titles[FirstInLanguage(titles, lang)]
    decreases |titles|
  {
    if |titles| == 0 then []
    else
      var rest := InLanguage(titles[1..], lang);
      assert forall t :: t in titles <==> t == titles[0] || t in titles[1..];
      assert forall k :: 1 <= k < |titles| ==> titles[k] == titles[1..][k - 1];
      if titles[0].languageCode == lang then [titles[0]] + rest else rest
  }

  /** The position of the first title in language `lang`. */
  function FirstInLanguage(titles: seq<Title>, lang: string): (i: nat)
    requires exists k :: 0 <= k < |titles| && titles[k].languageCode == lang
    ensures i < |titles| && titles[i].languageCode == lang
    ensures forall j :: 0 <= j < i ==> titles[j].languageCode != lang
    decreases |titles|
  {
    if titles[0].languageCode == lang then 0
    else
      var k :| 0 <= k < |titles| && titles[k].languageCode == lang;
      assert titles[1..][k - 1] == titles[k];
      1 + FirstInLanguage(titles[1..], lang)
  }

  /** The title one language gives: with types, the first official title of
      that language (or, when `allowAny` and there is none or it is empty, the
      first title of the language); without types, the first title of the
      language. */
  function TitleInLanguage(titleList: seq<Title>, usingTypes: bool, allowAny: bool): (r: Option<string>)
    requires |titleList| > 0
    ensures !usingTypes ==> r == Some(titleList[0].value)
    ensures r.Some? ==> exists k :: 0 <= k < |titleList| && titleList[k].value == r.value
    ensures usingTypes && FirstOfType(titleList, Official).Some? && FirstOfType(titleList, Official).value.value != [] ==>
      r == Some(FirstOfType(titleList, Official).value.value)
    ensures usingTypes && allowAny && (FirstOfType(titleList, Official).None? || FirstOfType(titleList, Official).value.value == []) ==>
      r == Some(titleList[0].value)
    ensures usingTypes && !allowAny ==>
      (r.None? <==> forall k :: 0 <= k < |titleList| ==> titleList[k].titleType != Some(Official))
  {
    if usingTypes then
      var official := FirstOfType(titleList, Official);
      var title := if official.Some? then Some(official.value.value) else None;
      if (title.None? || title.value == []) && allowAny then Some(titleList[0].value) else title
    else Some(titleList[0].value)
  }

  /** GetTitlesForLanguage as intended: the languages are tried in order, and
      the first one with titles that yields a title decides. */
  function GetTitlesForLanguage(titles: seq<Title>, usingTypes: bool, allowAny: bool, langs: seq<string>): (r: Option<string>)
    ensures r.Some? ==> exists k :: 0 <= k < |titles| && titles[k].value == r.value && titles[k].languageCode in langs
    ensures !usingTypes ==> (r.None? <==> forall k :: 0 <= k < |titles| ==> titles[k].languageCode !in langs)
    ensures !usingTypes && |langs| > 0 && (exists k :: 0 <= k < |titles| && titles[k].languageCode == langs[0]) ==>
      r == Some(titles[FirstInLanguage(titles, langs[0])].value)
    decreases |langs|
  {
    if |langs| == 0 then None
    else
      var titleList := InLanguage(titles, langs[0]);
      var rest := GetTitlesForLanguage(titles, usingTypes, allowAny, langs[1..]);
      assert forall l :: l in langs <==> l == langs[0] || l in langs[1..];
      if |titleList| == 0 then rest
      else
        var title := TitleInLanguage(titleList, usingTypes, allowAny);
        if title.Some? then
          var k :| 0 <= k < |titleList| && titleList[k].value == title.value;
          assert titleList[k] in titles;
          title
        else rest
  }

  /** The title one language yields on its own: none when it has no titles. */
  function LanguageTitle(titles: seq<Title>, usingTypes: bool, allowAny: bool, lang: string): (r: Option<string>)
    ensures r.Some? ==> exists k :: 0 <= k < |titles| && titles[k].value == r.value && titles[k].languageCode == lang
  {
    var titleList := InLanguage(titles, lang);
    if |titleList| == 0 then None
    else
      var title := TitleInLanguage(titleList, usingTypes, allowAny);
      if title.Some? then
        var k :| 0 <= k < |titleList| && titleList[k].value == title.value;
        assert titleList[k] in titles;
        title
      else None
  }

  /** The corrected lookup takes the first language's title when it yields
      one, and otherwise looks in the remaining languages. */
  lemma TitlesForLanguageStep(titles: seq<Title>, usingTypes: bool, allowAny: bool, langs: seq<string>)
    requires |langs| > 0
    ensures LanguageTitle(titles, usingTypes, allowAny, langs[0]).Some? ==>
      GetTitlesForLanguage(titles, usingTypes, allowAny, langs) == LanguageTitle(titles, usingTypes, allowAny, langs[0])
    ensures LanguageTitle(titles, usingTypes, allowAny, langs[0]).None? ==>
      GetTitlesForLanguage(titles, usingTypes, allowAny, langs) == GetTitlesForLanguage(titles, usingTypes, allowAny, langs[1..])
  {
  }

  /** The corrected lookup finds nothing exactly when no language yields a
      title. */
  lemma {:induction false} TitlesForLanguageNone(titles: seq<Title>, usingTypes: bool, allowAny: bool, langs: seq<string>)
    ensures GetTitlesForLanguage(titles, usingTypes, allowAny, langs).None? <==>
      forall i :: 0 <= i < |langs| ==> LanguageTitle(titles, usingTypes, allowAny, langs[i]).None?
    decreases |langs|
  {
    if |langs| > 0 {
      var rest := langs[1..];
      TitlesForLanguageNone(titles, usingTypes, allowAny, rest);
      TitlesForLanguageStep(titles, usingTypes, allowAny, langs);
      assert forall i :: 1 <= i < |langs| ==> langs[i] == rest[i - 1];
    }
  }

  /** A title the corrected lookup finds is the title of the first language
      that yields one. */
  lemma {:induction false} TitlesForLanguageFirstYield(titles: seq<Title>, usingTypes: bool, allowAny: bool, langs: seq<string>)
    ensures GetTitlesForLanguage(titles, usingTypes, allowAny, langs).Some? ==>
      exists i :: 0 <= i < |langs| && LanguageTitle(titles, usingTypes, allowAny, langs[i]) == GetTitlesForLanguage(titles, usingTypes, allowAny, langs)
        && forall j :: 0 <= j < i ==> LanguageTitle(titles, usingTypes, allowAny, langs[j]).None?
    decreases |langs|
  {
    var r := GetTitlesForLanguage(titles, usingTypes, allowAny, langs);
    if |langs| > 0 && r.Some? {
      var rest := langs[1..];
      TitlesForLanguageStep(titles, usingTypes, allowAny, langs);
      if LanguageTitle(titles, usingTypes, allowAny, langs[0]).None? {
        TitlesForLanguageFirstYield(titles, usingTypes, allowAny, rest);
        var i :| 0 <= i < |rest| && LanguageTitle(titles, usingTypes, allowAny, rest[i]) == r
          && forall j :: 0 <= j < i ==> LanguageTitle(titles, usingTypes, allowAny, rest[j]).None?;
        assert langs[i + 1] == rest[i];
        assert forall j :: 0 <= j < i + 1 ==> LanguageTitle(titles, usingTypes, allowAny, langs[j]).None? by {
          forall j | 1 <= j < i + 1
            ensures LanguageTitle(titles, usingTypes, allowAny, langs[j]).None?
          {
            assert langs[j] == rest[j - 1];
          }
        }
      } else {
        assert LanguageTitle(titles, usingTypes, allowAny, langs[0]) == r;
      }
    }
  }

  /** GetTitlesForLanguage as written: without types it returns the first title
      of the whole list, whatever its language, as soon as the language has
      any title. */
  function GetTitlesForLanguageAsWritten(titles: seq<Title>, usingTypes: bool, allowAny: bool, langs: seq<string>): (r: Option<string>)
    ensures !usingTypes && r.Some? ==> |titles| > 0 && r.value == titles[0].value
    ensures !usingTypes ==> (r.Some? <==> exists k :: 0 <= k < |titles| && titles[k].languageCode in langs)
    ensures r.Some? ==> exists k :: 0 <= k < |titles| && titles[k].value == r.value
    decreases |langs|
  {
    if |langs| == 0 then None
    else
      var titleList := InLanguage(titles, langs[0]);
      if |titleList| == 0 then GetTitlesForLanguageAsWritten(titles, usingTypes, allowAny, langs[1..])
      else if usingTypes then
        var title := TitleInLanguage(titleList, usingTypes, allowAny);
        if title.Some? then title else GetTitlesForLanguageAsWritten(titles, usingTypes, allowAny, langs[1..])
      else Some(titles[0].value)
  }

  /** With types, the lookup as written and the corrected one agree. */
  lemma {:induction false} TitlesForLanguageTypedAgree(titles: seq<Title>, allowAny: bool, langs: seq<string>)
    ensures GetTitlesForLanguageAsWritten(titles, true, allowAny, langs) == GetTitlesForLanguage(titles, true, allowAny, langs)
    decreases |langs|
  {
    if |langs| > 0 {
      TitlesForLanguageTypedAgree(titles, allowAny, langs[1..]);
    }
  }

  /** The title lookup in the chosen reading. */
  function TitlesFor(v: Variant, titles: seq<Title>, usingTypes: bool, allowAny: bool, langs: seq<string>): (r: Option<string>)
    ensures v == Intended ==> r == GetTitlesForLanguage(titles, usingTypes, allowAny, langs)
    ensures v == AsWritten ==> r == GetTitlesForLanguageAsWritten(titles, usingTypes, allowAny, langs)
    ensures r.Some? ==> exists k :: 0 <= k < |titles| && titles[k].value == r.value
  {
    if v == AsWritten then GetTitlesForLanguageAsWritten(titles, usingTypes, allowAny, langs)
    else GetTitlesForLanguage(titles, usingTypes, allowAny, langs)
  }

  /** Without types, when the first title is in another language and a later
      one is in the language asked for, the lookup as written returns the
      first title, and the corrected one the title in that language. */
  lemma TitlesForLanguageAsWrittenPicksOtherLanguage(titles: seq<Title>, lang: string, k: nat)
    requires 0 < k < |titles| && titles[0].languageCode != lang && titles[k].languageCode == lang
    requires forall j :: 0 < j < k ==> titles[j].languageCode != lang
    ensures GetTitlesForLanguageAsWritten(titles, false, false, [lang]) == Some(titles[0].value)
    ensures GetTitlesForLanguage(titles, false, false, [lang]) == Some(titles[k].value)
  {
    assert FirstInLanguage(titles, lang) == k;
    assert lang in [lang];
  }

  /** The ways a title can be looked up. */
  datatype TitleProvider = NoProvider | ShokoDefault | AniDbDefault | AniDbLibraryLanguage | AniDbCountryOfOrigin
                         | TmdbDefault | TmdbLibraryLanguage | TmdbCountryOfOrigin

  datatype DisplayTitleType = Main | Alternate

  /** GetOrderedProvidersForTitle: the enabled providers in the user's order
      when overridden, otherwise the default for the title type. */
  function OrderedProviders(titleType: DisplayTitleType, overridden: bool, order: seq<TitleProvider>,
                            enabled: seq<TitleProvider>): (r: seq<TitleProvider>)
    ensures overridden ==> forall p :: p in r <==> p in order && p in enabled
    ensures overridden ==> Seqs.Subsequence(r, order)
    ensures !overridden && titleType == Main ==> r == [ShokoDefault]
    ensures !overridden && titleType == Alternate ==> r == [AniDbCountryOfOrigin, TmdbCountryOfOrigin]
  {
    if overridden then Seqs.Filter(order, (p: TitleProvider) => p in enabled)
    else if titleType == Main then [ShokoDefault]
    else [AniDbCountryOfOrigin, TmdbCountryOfOrigin]
  }

  /** The candidate a provider gives for a series (types used) or an episode
      (types not used); TMDB providers give none. */
  function ProviderTitle(v: Variant, p: TitleProvider, defaultName: string, titles: seq<Title>, seriesTitles: seq<Title>,
                         usingTypes: bool, allowAny: bool, metadataLanguage: string): (r: Option<string>)
    ensures p == ShokoDefault ==> r == Some(defaultName)
    ensures p == NoProvider || p == TmdbDefault || p == TmdbLibraryLanguage || p == TmdbCountryOfOrigin ==> r.None?
    ensures p == AniDbDefault ==> r == GetDefaultTitle(titles)
    ensures r.Some? && p != ShokoDefault ==> exists k :: 0 <= k < |titles| && titles[k].value == r.value
    ensures v == Intended && p == AniDbLibraryLanguage && r.Some? ==>
      exists k :: 0 <= k < |titles| && titles[k].value == r.value && titles[k].languageCode == metadataLanguage
  {
    match p
    case ShokoDefault => Some(defaultName)
    case AniDbDefault => GetDefaultTitle(titles)
    case AniDbLibraryLanguage => TitlesFor(v, titles, usingTypes, allowAny, [metadataLanguage])
    case AniDbCountryOfOrigin =>
      TitlesFor(v, titles, usingTypes, allowAny, GuessOriginLanguage(GetMainLanguage(seriesTitles)))
    case _ => None
  }

  /** A candidate title that is present and not empty. */
  predicate Usable(c: Option<string>)
  {
    c.Some? && c.value != []
  }

  /** The position of the first usable candidate. */
  function FirstUsable(candidates: seq<Option<string>>): (r: Option<nat>)
    ensures r.None? <==> forall k :: 0 <= k < |candidates| ==> !Usable(candidates[k])
    ensures r.Some? ==> r.value < |candidates| && Usable(candidates[r.value])
    ensures r.Some? ==> forall j :: 0 <= j < r.value ==> !Usable(candidates[j])
    decreases |candidates|
  {
    if |candidates| == 0 then None
    else if Usable(candidates[0]) then Some(0)
    else
      var r := FirstUsable(candidates[1..]);
      assert forall k :: 1 <= k < |candidates| ==> candidates[k] == candidates[1..][k - 1];
      if r.Some? then Some(r.value + 1) else None
  }

  /** The provider's candidate for a title. */
  function Candidates(v: Variant, providers: seq<TitleProvider>, defaultName: string, titles: seq<Title>, seriesTitles: seq<Title>,
                      usingTypes: bool, allowAny: bool, metadataLanguage: string): (cs: seq<Option<string>>)
    ensures |cs| == |providers|
    ensures forall k :: 0 <= k < |cs| ==>
      cs[k] == ProviderTitle(v, providers[k], defaultName, titles, seriesTitles, usingTypes, allowAny, metadataLanguage)
  {
    seq(|providers|, k requires 0 <= k < |providers| =>
      ProviderTitle(v, providers[k], defaultName, titles, seriesTitles, usingTypes, allowAny, metadataLanguage))
  }

  /** GetSeriesTitleByType / GetEpisodeTitleByType: the first provider in order
      whose candidate is present and not empty decides, trimmed; none when no
      provider has one. */
  function TitleByType(v: Variant, providers: seq<TitleProvider>, defaultName: string, titles: seq<Title>, seriesTitles: seq<Title>,
                       usingTypes: bool, allowAny: bool, metadataLanguage: string): (r: Option<string>)
    ensures var cs := Candidates(v, providers, defaultName, titles, seriesTitles, usingTypes, allowAny, metadataLanguage);
      && (r.None? <==> forall k :: 0 <= k < |cs| ==> !Usable(cs[k]))
      && (r.Some? ==> exists k :: 0 <= k < |cs| && Usable(cs[k]) && r.value == Strings.Trim(Strings.DotNet, cs[k].value)
                                 && forall j :: 0 <= j < k ==> !Usable(cs[j]))
  {
    var cs := Candidates(v, providers, defaultName, titles, seriesTitles, usingTypes, allowAny, metadataLanguage);
    match FirstUsable(cs)
    case Some(k) => Some(Strings.Trim(Strings.DotNet, cs[k].value))
    case None => None
  }

  /** As written, an episode's library-language title can be another
      language's: when the first title is in another language and a later one
      is in the library's, the episode gets the first title. */
  lemma EpisodeTitleAsWrittenPicksOtherLanguage(titles: seq<Title>, lang: string, k: nat)
    requires 0 < k < |titles| && titles[0].languageCode != lang && titles[k].languageCode == lang
    requires forall j :: 0 < j < k ==> titles[j].languageCode != lang
    requires Clean(titles[0].value) && Clean(titles[k].value)
    ensures TitleByType(AsWritten, [AniDbLibraryLanguage], "", titles, [], false, false, lang) == Some(titles[0].value)
    ensures TitleByType(Intended, [AniDbLibraryLanguage], "", titles, [], false, false, lang) == Some(titles[k].value)
  {
    TitlesForLanguageAsWrittenPicksOtherLanguage(titles, lang, k);
    SingleProviderTitle(AsWritten, titles, lang, titles[0].value);
    SingleProviderTitle(Intended, titles, lang, titles[k].value);
  }

  /** With the library-language provider alone, its clean candidate is the title. */
  lemma SingleProviderTitle(v: Variant, titles: seq<Title>, lang: string, t: string)
    requires TitlesFor(v, titles, false, false, [lang]) == Some(t) && Clean(t)
    ensures TitleByType(v, [AniDbLibraryLanguage], "", titles, [], false, false, lang) == Some(t)
  {
    Strings.TrimNoop(Strings.DotNet, t);
    var cs := Candidates(v, [AniDbLibraryLanguage], "", titles, [], false, false, lang);
    assert cs[0] == Some(t);
    assert Usable(cs[0]);
  }

  /** IgnoredSubTitles, compared case-insensitively. */
  predicate IsIgnoredSubtitle(s: string)
  {
    Strings.EqualsIgnoreCase(s, "Complete Movie") || Strings.EqualsIgnoreCase(s, "OVA")
  }

  /** GetMovieTitleByType: "main: sub" when the episode's subtitle is neither
      empty nor one of the ignored ones, otherwise the main title; trimmed. */
  function MovieTitle(mainTitle: Option<string>, subTitle: Option<string>): (r: Option<string>)
    ensures subTitle.Some? && subTitle.value != [] && !IsIgnoredSubtitle(subTitle.value) ==> r.Some?
    ensures subTitle.Some? && Clean(subTitle.value) && !IsIgnoredSubtitle(subTitle.value) ==>
      Strings.EndsWith(r.value, ": " + subTitle.value)
    ensures subTitle.None? || subTitle.value == [] || IsIgnoredSubtitle(subTitle.value) ==>
      (r.Some? <==> mainTitle.Some?) && (r.Some? ==> r.value == Strings.Trim(Strings.DotNet, mainTitle.value))
    ensures mainTitle.Some? && Clean(mainTitle.value) && subTitle.Some? && Clean(subTitle.value)
            && !IsIgnoredSubtitle(subTitle.value) ==>
      r == Some(mainTitle.value + ": " + subTitle.value)
    ensures mainTitle.None? && subTitle.Some? && Clean(subTitle.value) && !IsIgnoredSubtitle(subTitle.value) ==>
      r == Some(": " + subTitle.value)
  {
    if subTitle.Some? && subTitle.value != [] && !IsIgnoredSubtitle(subTitle.value) then
      var text := mainTitle.GetOr([]) + ": " + subTitle.value;
      CombinedTitleEnds(mainTitle.GetOr([]), subTitle.value);
      CombinedTitleClean(mainTitle.GetOr([]), subTitle.value);
      Some(Strings.Trim(Strings.DotNet, text))
    else if mainTitle.Some? then Some(Strings.Trim(Strings.DotNet, mainTitle.value))
    else None
  }

  /** "main: sub" of a clean or missing main title and a clean subtitle needs no trim. */
  lemma CombinedTitleClean(main: string, sub: string)
    ensures (main == [] || Clean(main)) && Clean(sub) ==>
      Strings.Trim(Strings.DotNet, main + ": " + sub) == main + ": " + sub
  {
    if (main == [] || Clean(main)) && Clean(sub) {
      var text := main + ": " + sub;
      assert text[0] == (if main == [] then ':' else main[0]);
      assert text[|text| - 1] == sub[|sub| - 1];
      Strings.TrimNoop(Strings.DotNet, text);
    }
  }

  /** Trimming "main: sub" keeps ": sub" whole when `sub` is clean. */
  lemma CombinedTitleEnds(main: string, sub: string)
    ensures Clean(sub) ==> Strings.EndsWith(Strings.Trim(Strings.DotNet, main + ": " + sub), ": " + sub)
  {
    if Clean(sub) {
      var text := main + ": " + sub;
      var tail := ": " + sub;
      var t := Strings.TrimStart(Strings.DotNet, text);
      assert text == main + tail;
      assert text[|main|] == ':';
      assert !Strings.AllWhiteSpace(Strings.DotNet, text[..|main| + 1]);
      assert |t| >= |tail|;
      assert t[|t| - |tail|..] == tail;
      assert !Strings.IsWhiteSpace(Strings.DotNet, t[|t| - 1]);
    }
  }
}
