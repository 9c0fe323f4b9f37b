/** Tag and genre selection from the resolved AniDB tag tree: which tag
    sources look at which namespaces, which tags pass the include filters,
    the weight and the depth limit, the source-material genre and the
    production countries. */
module TagFilter {
  import opened Wrappers
  import Strings
  import Seqs

  // ----- Resolved tags -----

  /** A namespaced tag name: it starts with a slash. */
  type Path = s: string | |s| > 0 && s[0] == '/' witness "/"

  /** A resolved tag: its identity, the title-cased display name the filter
      selects, its flags and weight, its direct children by name, and all its
      descendants by namespaced name relative to it. */
  datatype ResolvedTag = ResolvedTag(
    id: int, source: string, name: string, title: string,
    isParent: bool, isAbstract: bool, isWeightless: bool,
    isLocalSpoiler: bool, isGlobalSpoiler: bool, weight: int,
    children: seq<NamedChild>, recursiveChildren: seq<Entry>)

  /** A direct child of a tag, under its name. */
  datatype NamedChild = NamedChild(name: string, tag: ResolvedTag)

  /** A tag under its namespaced name. */
  datatype Entry = Entry(key: Path, tag: ResolvedTag)

  /** The tag stored under a name of a dictionary. */
  function Lookup(dict: seq<Entry>, key: string): (r: Option<ResolvedTag>)
    ensures r.None? <==> forall i :: 0 <= i < |dict| ==> dict[i].key != key
    ensures r.Some? ==> exists i :: 0 <= i < |dict| && dict[i].key == key && dict[i].tag == r.value
    decreases |dict|
  {
    if |dict| == 0 then None
    else if dict[0].key == key then Some(dict[0].tag)
    else
      var r := Lookup(dict[1..], key);
      assert forall i :: 1 <= i < |dict| ==> dict[1..][i - 1] == dict[i];
      r
  }

  /** The names of a tag's direct children, in order. */
  function ChildNames(children: seq<NamedChild>): (r: seq<string>)
    ensures |r| == |children|
    ensures forall i :: 0 <= i < |children| ==> r[i] == children[i].name
  {
    seq(|children|, i requires 0 <= i < |children| => children[i].name)
  }

  /** The direct child under a name. */
  function LookupChild(children: seq<NamedChild>, name: string): (r: Option<ResolvedTag>)
    ensures r.None? <==> name !in ChildNames(children)
    ensures r.Some? ==> exists i :: 0 <= i < |children| && children[i].name == name && children[i].tag == r.value
    decreases |children|
  {
    if |children| == 0 then None
    else if children[0].name == name then Some(children[0].tag)
    else
      assert ChildNames(children) == [children[0].name] + ChildNames(children[1..]);
      var r := LookupChild(children[1..], name);
      assert forall i :: 1 <= i < |children| ==> children[1..][i - 1] == children[i];
      r
  }

  // ----- Sources and filters -----

  /** The tag sources a user can choose. */
  datatype TagSource =
    | ContentIndicators | Dynamic | DynamicCast | DynamicEnding
    | Elements | ElementsPornographyAndSexualAbuse | ElementsTropesAndMotifs | Fetishes
    | OriginProduction | OriginDevelopment | SettingPlace | SettingTimePeriod | SettingTimeSeason
    | SourceMaterial | TargetAudience | TechnicalAspects | TechnicalAspectsAdaptions
    | TechnicalAspectsAwards | TechnicalAspectsMultiAnimeProjects | Themes | ThemesDeath | ThemesTales
    | Ungrouped | Unsorted | CustomTags

  /** The kinds of tag the include filter admits. */
  datatype IncludeFilter = Parent | Child | Abstract | Weightless | Weighted | GlobalSpoiler | LocalSpoiler

  /** What a source's attributes name: the namespaces whose descendants it
      takes, the tags it takes without their children, the namespaces it
      leaves out with their children, and the tags it leaves out while
      keeping their children. */
  datatype Attributes = Attributes(includes: seq<string>, includeOnly: seq<string>,
                                   exclude: seq<string>, excludeOnly: seq<string>)

  /** The attributes of every source. */
  const AttributeTable: seq<(TagSource, Attributes)> := [
    (ContentIndicators, Attributes(["/content indicators"], [], [], [])),
    (Dynamic, Attributes(["/dynamic"], [], ["/dynamic/cast", "/dynamic/ending"], [])),
    (DynamicCast, Attributes(["/dynamic/cast"], [], [], [])),
    (DynamicEnding, Attributes(["/dynamic/ending"], [], [], [])),
    (Elements, Attributes(["/elements/speculative fiction", "/elements"], [],
                          ["/elements/pornography", "/elements/sexual abuse", "/elements/tropes", "/elements/motifs"],
                          ["/elements/speculative fiction"])),
    (ElementsPornographyAndSexualAbuse, Attributes(["/elements/pornography", "/elements/sexual abuse"], [], [], [])),
    (ElementsTropesAndMotifs, Attributes(["/elements/tropes", "/elements/motifs"], [], [], [])),
    (Fetishes, Attributes(["/fetishes/breasts", "/fetishes"], [], [], ["/fetishes/breasts"])),
    (OriginProduction, Attributes(["/origin"], [], [],
                                  ["/origin/development hell", "/origin/fan-made", "/origin/remake"])),
    (OriginDevelopment, Attributes([], ["/origin/development hell", "/origin/fan-made", "/origin/remake"], [], [])),
    (SettingPlace, Attributes(["/setting/place"], [], [], ["/settings/place/Earth"])),
    (SettingTimePeriod, Attributes(["/setting/time"], [], ["/setting/time/season"], [])),
    (SettingTimeSeason, Attributes(["/setting/time/season"], [], [], [])),
    (SourceMaterial, Attributes([], [], [], [])),
    (TargetAudience, Attributes(["/target audience"], [], [], [])),
    (TechnicalAspects, Attributes(["/technical aspects"], [],
                                  ["/technical aspects/adapted into other media", "/technical aspects/awards",
                                   "/technical aspects/multi-anime projects"], [])),
    (TechnicalAspectsAdaptions, Attributes(["/technical aspects/adapted into other media"], [], [], [])),
    (TechnicalAspectsAwards, Attributes(["/technical aspects/awards"], [], [], [])),
    (TechnicalAspectsMultiAnimeProjects, Attributes(["/technical aspects/multi-anime projects"], [], [], [])),
    (Themes, Attributes(["/themes"], [], ["/themes/death", "/themes/tales"],
                        ["/themes/body and host", "/themes/family life", "/themes/money"])),
    (ThemesDeath, Attributes(["/themes/death"], [], [], [])),
    (ThemesTales, Attributes(["/themes/tales"], [], [], [])),
    (Ungrouped, Attributes(["/ungrouped"], [], [], [])),
    (Unsorted, Attributes(["/unsorted"], [],
                          ["/unsorted/old animetags", "/unsorted/ending tags that need merging",
                           "/unsorted/character related tags which need deleting or merging"], [])),
    (CustomTags, Attributes(["/custom user tags"], [], [], []))]

  /** Every source except the custom tags, in the enumeration's order,
      with its attributes. */
  const AllFlagsToUse: seq<(TagSource, Attributes)> := AttributeTable[..24]

  /** The sources also applied below the custom tags: all but the source
      material and the target audience. */
  const AllFlagsToUseForCustomTags: seq<(TagSource, Attributes)> := AttributeTable[..13] + AttributeTable[15..24]

  /** The source material is the one source without attributes, and it is
      not applied below the custom tags. */
  lemma TableShape()
    ensures |AllFlagsToUse| == 24 && AllFlagsToUse[13].0 == SourceMaterial
    ensures forall i :: 0 <= i < |AllFlagsToUseForCustomTags| ==> AllFlagsToUseForCustomTags[i].0 != SourceMaterial
  {
  }

  // ----- One tag -----

  /** How many levels below the source's namespace a tag sits. */
  function Depth(relativeName: Path): (d: nat)
    ensures d >= 1
  {
    |Strings.Split(relativeName[1..], '/')|
  }

  /** Whether a tag, under its relative name, passes the include filter, the
      minimum weight and the depth limit (a limit of 0 means none). */
  predicate Passes(relativeName: Path, tag: ResolvedTag, filter: set<IncludeFilter>, minWeight: int, maxDepth: int) {
    && !(maxDepth > 0 && Depth(relativeName) > maxDepth)
    && (tag.isLocalSpoiler ==> LocalSpoiler in filter)
    && (tag.isGlobalSpoiler ==> GlobalSpoiler in filter)
    && (tag.isAbstract ==> Abstract in filter)
    && (if tag.isWeightless then Weightless in filter else Weighted in filter)
    && (if tag.isParent then Parent in filter else Child in filter)
    && !(minWeight > 0 && !tag.isWeightless && tag.weight < minWeight)
  }

  /** A path of `n` slash-free names sits `n` levels deep. */
  lemma DepthOfPath(parts: seq<string>)
    requires |parts| >= 1
    requires forall i :: 0 <= i < |parts| ==> '/' !in parts[i]
    ensures Depth("/" + Strings.Join(parts, "/")) == |parts|
  {
    var joined := Strings.Join(parts, "/");
    assert ("/" + joined)[1..] == joined;
    Strings.SplitOfJoin(parts, '/');
  }

  /** Admitting more kinds of tag never drops a tag. */
  lemma PassesWiderFilter(name: Path, tag: ResolvedTag, f: set<IncludeFilter>, g: set<IncludeFilter>, w: int, d: int)
    requires f <= g && Passes(name, tag, f, w, d)
    ensures Passes(name, tag, g, w, d)
  {
  }

  /** Raising the minimum weight never admits a tag. */
  lemma PassesLowerWeight(name: Path, tag: ResolvedTag, f: set<IncludeFilter>, w: int, v: int, d: int)
    requires v <= w && Passes(name, tag, f, w, d)
    ensures Passes(name, tag, f, v, d)
  {
  }

  /** The minimum weight never matters for a weightless tag, and 0 is no
      minimum. */
  lemma PassesWeightless(name: Path, tag: ResolvedTag, f: set<IncludeFilter>, w: int, d: int)
    ensures tag.isWeightless ==> (Passes(name, tag, f, w, d) <==> Passes(name, tag, f, 0, d))
    ensures w <= 0 ==> (Passes(name, tag, f, w, d) <==> Passes(name, tag, f, 0, d))
  {
  }

  /** A depth limit of 0 is no limit, and a deeper limit never drops a tag. */
  lemma PassesDeeper(name: Path, tag: ResolvedTag, f: set<IncludeFilter>, w: int, d: int, e: int)
    ensures Passes(name, tag, f, w, 0) <==> Passes(name, tag, f, w, Depth(name))
    ensures 0 < d <= e && Passes(name, tag, f, w, d) ==> Passes(name, tag, f, w, e)
  {
  }

  // ----- One source -----

  /** The descendants of every named namespace the dictionary holds. */
  function Descendants(dict: seq<Entry>, names: seq<string>): (r: seq<Entry>)
    ensures forall e :: e in r <==> exists i :: 0 <= i < |names| && Lookup(dict, names[i]).Some?
                                     && e in Lookup(dict, names[i]).value.recursiveChildren
    decreases |names|
  {
    if |names| == 0 then []
    else
      var here := match Lookup(dict, names[0]) case None => [] case Some(t) => t.recursiveChildren;
      var rest := Descendants(dict, names[1..]);
      assert forall i :: 1 <= i < |names| ==> names[1..][i - 1] == names[i];
      here + rest
  }

  /** Every named tag the dictionary holds, under a slash and its own name. */
  function Themselves(dict: seq<Entry>, names: seq<string>): (r: seq<Entry>)
    ensures forall e :: e in r <==> exists i :: 0 <= i < |names| && Lookup(dict, names[i]).Some?
                                     && e == Entry("/" + Lookup(dict, names[i]).value.name, Lookup(dict, names[i]).value)
    decreases |names|
  {
    if |names| == 0 then []
    else
      var here := match Lookup(dict, names[0]) case None => [] case Some(t) => [Entry("/" + t.name, t)];
      var rest := Themselves(dict, names[1..]);
      assert forall i :: 1 <= i < |names| ==> names[1..][i - 1] == names[i];
      here + rest
  }

  /** The tags a source considers, in the order it collects them. */
  function Included(dict: seq<Entry>, attrs: Attributes): (r: seq<Entry>)
    ensures forall e :: e in r <==> e in Descendants(dict, attrs.includes) || e in Themselves(dict, attrs.includeOnly)
  {
    Descendants(dict, attrs.includes) + Themselves(dict, attrs.includeOnly)
  }

  /** Whether the tag named `n` is in the dictionary and is `t`, or has `t`
      among its descendants when `withChildren`. */
  ghost predicate ExcludedBy(dict: seq<Entry>, n: string, withChildren: bool, t: ResolvedTag) {
    Lookup(dict, n).Some?
    && (t == Lookup(dict, n).value
        || (withChildren && exists c :: c in Lookup(dict, n).value.recursiveChildren && c.tag == t))
  }

  /** Every named tag the dictionary holds, with its descendants when
      `withChildren`. */
  function ExcludedTags(dict: seq<Entry>, names: seq<string>, withChildren: bool): (r: seq<ResolvedTag>)
    ensures forall t :: t in r <==> exists n :: n in names && ExcludedBy(dict, n, withChildren, t)
    decreases |names|
  {
    if |names| == 0 then []
    else
      var here := match Lookup(dict, names[0])
        case None => []
        case Some(t) => (if withChildren then TagsOf(t.recursiveChildren) else []) + [t];
      var rest := ExcludedTags(dict, names[1..], withChildren);
      forall t
        ensures t in here + rest <==> exists n :: n in names && ExcludedBy(dict, n, withChildren, t)
      {
        if t in here {
          assert ExcludedBy(dict, names[0], withChildren, t);
        }
        if t in rest {
          var n :| n in names[1..] && ExcludedBy(dict, n, withChildren, t);
          assert n in names;
        }
        if exists n :: n in names && ExcludedBy(dict, n, withChildren, t) {
          var n :| n in names && ExcludedBy(dict, n, withChildren, t);
          if n != names[0] {
            assert n in names[1..];
          }
        }
      }
      here + rest
  }

  /** The tags of some entries, in order. */
  function TagsOf(entries: seq<Entry>): (r: seq<ResolvedTag>)
    ensures |r| == |entries|
    ensures forall j :: 0 <= j < |entries| ==> r[j] == entries[j].tag
    ensures forall t :: t in r <==> exists c :: c in entries && c.tag == t
  {
    var r := seq(|entries|, j requires 0 <= j < |entries| => entries[j].tag);
    forall c | c in entries
      ensures c.tag in r
    {
      var j :| 0 <= j < |entries| && entries[j] == c;
      assert r[j] == c.tag;
    }
    forall t | t in r
      ensures exists c :: c in entries && c.tag == t
    {
      var j :| 0 <= j < |r| && r[j] == t;
      assert entries[j] in entries;
    }
    r
  }

  /** The tags a source leaves out. */
  function Excepted(dict: seq<Entry>, attrs: Attributes): (r: seq<ResolvedTag>)
    ensures forall t :: t in r <==> t in ExcludedTags(dict, attrs.exclude, true) || t in ExcludedTags(dict, attrs.excludeOnly, false)
  {
    ExcludedTags(dict, attrs.exclude, true) + ExcludedTags(dict, attrs.excludeOnly, false)
  }

  /** What tells two tags apart: their source and id. */
  function SourceId(e: Entry): (string, int) {
    (e.tag.source, e.tag.id)
  }

  /** The first entry with the given source and id. */
  function FirstWithKey(s: seq<Entry>, k: (string, int)): (r: Option<Entry>)
    ensures r.Some? ==> r.value in s && SourceId(r.value) == k
    ensures r.None? <==> forall i :: 0 <= i < |s| ==> SourceId(s[i]) != k
    decreases |s|
  {
    if |s| == 0 then None
    else if SourceId(s[0]) == k then Some(s[0])
    else
      var r := FirstWithKey(s[1..], k);
      assert forall i :: 1 <= i < |s| ==> s[1..][i - 1] == s[i];
      r
  }

  /** The entries without the given source and id. */
  function Without(s: seq<Entry>, k: (string, int)): (r: seq<Entry>)
    ensures |r| <= |s|
    ensures forall e :: e in r <==> e in s && SourceId(e) != k
    decreases |s|
  {
    if |s| == 0 then []
    else (if SourceId(s[0]) != k then [s[0]] else []) + Without(s[1..], k)
  }

  /** Leaving out one key does not change which entry comes first for
      another. */
  lemma {:induction false} FirstWithKeyWithout(s: seq<Entry>, k: (string, int), m: (string, int))
    requires k != m
    ensures FirstWithKey(Without(s, k), m) == FirstWithKey(s, m)
    decreases |s|
  {
    if |s| > 0 {
      FirstWithKeyWithout(s[1..], k, m);
      var rest := Without(s[1..], k);
      if SourceId(s[0]) != k {
        assert Without(s, k) == [s[0]] + rest;
        assert ([s[0]] + rest)[1..] == rest;
      } else {
        assert Without(s, k) == rest;
      }
    }
  }

  /** `DistinctBy` on source and id: the first entry of every tag, in order. */
  function FirstPerTag(s: seq<Entry>): (r: seq<Entry>)
    ensures forall e :: e in r <==> e in s && FirstWithKey(s, SourceId(e)) == Some(e)
    ensures forall i, j :: 0 <= i < j < |r| ==> SourceId(r[i]) != SourceId(r[j])
    decreases |s|
  {
    if |s| == 0 then []
    else
      var k := SourceId(s[0]);
      var rest := FirstPerTag(Without(s[1..], k));
      forall e | e in rest
        ensures e in s && FirstWithKey(s, SourceId(e)) == Some(e)
      {
        FirstWithKeyWithout(s[1..], k, SourceId(e));
      }
      forall e | e in s && FirstWithKey(s, SourceId(e)) == Some(e) && e != s[0]
        ensures e in rest
      {
        FirstWithKeyWithout(s[1..], k, SourceId(e));
      }
      [s[0]] + rest
  }

  /** The considered tags that survive: first per tag, and not left out. */
  function Survivors(dict: seq<Entry>, attrs: Attributes): (r: seq<Entry>)
    ensures forall e :: e in r <==> e in FirstPerTag(Included(dict, attrs)) && e.tag !in Excepted(dict, attrs)
  {
    var except := Excepted(dict, attrs);
    Seqs.Filter(FirstPerTag(Included(dict, attrs)), (e: Entry) => e.tag !in except)
  }

  /** The titles of the entries that pass. */
  function PassingTitles(s: seq<Entry>, filter: set<IncludeFilter>, minWeight: int, maxDepth: int): (r: seq<string>)
    ensures forall x :: x in r <==> exists e :: e in s && Passes(e.key, e.tag, filter, minWeight, maxDepth)
                                                && e.tag.title == x
    decreases |s|
  {
    if |s| == 0 then []
    else
      var rest := PassingTitles(s[1..], filter, minWeight, maxDepth);
      assert forall e :: e in s <==> e == s[0] || e in s[1..];
      (if Passes(s[0].key, s[0].tag, filter, minWeight, maxDepth) then [s[0].tag.title] else []) + rest
  }

  /** `GetTagsFromSource` for a source other than the source material: the
      distinct titles of the surviving tags that pass. */
  function TagsFromNamespace(dict: seq<Entry>, attrs: Attributes, filter: set<IncludeFilter>,
                             minWeight: int, maxDepth: int): (r: seq<string>)
    ensures Seqs.NoDuplicates(r)
    ensures forall x :: x in r <==> exists e :: e in Survivors(dict, attrs) && e.tag.title == x
                                               && Passes(e.key, e.tag, filter, minWeight, maxDepth)
  {
    Seqs.Distinct(PassingTitles(Survivors(dict, attrs), filter, minWeight, maxDepth))
  }

  /** A tag a source leaves out never reaches its list. */
  lemma ExcludedNeverSurvives(dict: seq<Entry>, attrs: Attributes, i: nat)
    requires i < |attrs.exclude| + |attrs.excludeOnly|
    ensures var name := if i < |attrs.exclude| then attrs.exclude[i] else attrs.excludeOnly[i - |attrs.exclude|];
      Lookup(dict, name).Some? ==>
        forall e :: e in Survivors(dict, attrs) ==> e.tag != Lookup(dict, name).value
  {
    var name := if i < |attrs.exclude| then attrs.exclude[i] else attrs.excludeOnly[i - |attrs.exclude|];
    if Lookup(dict, name).Some? {
      var t := Lookup(dict, name).value;
      if i < |attrs.exclude| {
        assert name in attrs.exclude;
        assert t in ExcludedTags(dict, attrs.exclude, true);
      } else {
        assert name in attrs.excludeOnly;
        assert t in ExcludedTags(dict, attrs.excludeOnly, false);
      }
    }
  }

  /** A descendant of a namespace a source leaves out never reaches its
      list either. */
  lemma ExcludedChildNeverSurvives(dict: seq<Entry>, attrs: Attributes, i: nat, j: nat)
    requires i < |attrs.exclude|
    requires Lookup(dict, attrs.exclude[i]).Some?
    requires j < |Lookup(dict, attrs.exclude[i]).value.recursiveChildren|
    ensures forall e :: e in Survivors(dict, attrs) ==>
      e.tag != Lookup(dict, attrs.exclude[i]).value.recursiveChildren[j].tag
  {
    assert attrs.exclude[i] in attrs.exclude;
    assert Lookup(dict, attrs.exclude[i]).value.recursiveChildren[j] in Lookup(dict, attrs.exclude[i]).value.recursiveChildren;
    assert Lookup(dict, attrs.exclude[i]).value.recursiveChildren[j].tag in ExcludedTags(dict, attrs.exclude, true);
  }

  // ----- Source material -----

  /** The least name in ordinal order, if any. */
  function MinName(names: seq<string>): (r: Option<string>)
    ensures r.None? <==> names == []
    ensures r.Some? ==> r.value in names && forall i :: 0 <= i < |names| ==> Seqs.LexLe(r.value, names[i])
    decreases |names|
  {
    if |names| == 0 then None
    else
      match MinName(names[1..])
      case None => Seqs.LexReflexive(names[0]); Some(names[0])
      case Some(m) =>
        Seqs.LexTotal(names[0], m);
        assert forall i :: 1 <= i < |names| ==> names[1..][i - 1] == names[i];
        if Seqs.LexLe(names[0], m) then
          Seqs.LexReflexive(names[0]);
          assert forall i :: 1 <= i < |names| ==> Seqs.LexLe(names[0], names[i]) by {
            forall i | 1 <= i < |names| ensures Seqs.LexLe(names[0], names[i]) {
              Seqs.LexTransitive(names[0], m, names[i]);
            }
          }
          Some(names[0])
        else Some(m)
  }

  /** The least child name, lower-cased; none for a tag without children. */
  function FirstChild(tag: ResolvedTag): (r: Option<string>)
    ensures r.None? <==> tag.children == []
    ensures r.Some? ==> Strings.IsLower(r.value)
  {
    match MinName(ChildNames(tag.children))
    case None => None
    case Some(m) => Some(Strings.ToLower(m))
  }

  const OriginalWork: string := "Original Work"

  /** The genres the source material can give. */
  const SourceMaterialLabels: set<string> := {
    OriginalWork, "Adapted From Western Media", "Adapted From A Manga", "Adapted From A Manhua",
    "Adapted from a Manhwa", "Adapted From A Live-Action Movie", "Adapted From A Novel",
    "Adapted From An Eroge", "Adapted From A Visual Novel", "Adapted From A Video Game",
    "Adapted From A Korean Drama", "Adapted From A Live-Action Show", "Radio Programme"}

  /** The genres of the first source materials that need no deeper look. */
  const MaterialTable: seq<(string, string)> := [
    ("american derived", "Adapted From Western Media"),
    ("manga", "Adapted From A Manga"),
    ("manhua", "Adapted From A Manhua"),
    ("manhwa", "Adapted from a Manhwa"),
    ("movie", "Adapted From A Live-Action Movie"),
    ("novel", "Adapted From A Novel"),
    ("radio programme", "Radio Programme"),
    ("western animated cartoon", "Adapted From Western Media"),
    ("western comics", "Adapted From Western Media")]

  /** The value listed for a key, or the fallback when none is. */
  function LookupPair<V>(table: seq<(string, V)>, key: string, fallback: V): (r: V)
    ensures (forall i :: 0 <= i < |table| ==> table[i].0 != key) ==> r == fallback
    ensures (exists i :: 0 <= i < |table| && table[i].0 == key) ==>
      exists i :: 0 <= i < |table| && table[i].0 == key && table[i].1 == r
    decreases |table|
  {
    if |table| == 0 then fallback
    else if table[0].0 == key then table[0].1
    else
      assert forall i :: 1 <= i < |table| ==> table[1..][i - 1] == table[i];
      LookupPair(table[1..], key, fallback)
  }

  /** Every genre the table gives is a known one. */
  lemma MaterialTableKnown()
    ensures forall i :: 0 <= i < |MaterialTable| ==> MaterialTable[i].1 in SourceMaterialLabels
  {
  }

  /** The genre for a lower-cased first source material other than a game
      or a television programme. */
  function MaterialLabel(first: string): (r: string)
    ensures r in SourceMaterialLabels
  {
    MaterialTableKnown();
    LookupPair(MaterialTable, first, OriginalWork)
  }

  /** The genre for a game, by its first kind. */
  function GameLabel(kind: Option<string>): (r: string)
    ensures r in SourceMaterialLabels
  {
    if kind == Some("erotic game") then "Adapted From An Eroge"
    else if kind == Some("visual novel") then "Adapted From A Visual Novel"
    else "Adapted From A Video Game"
  }

  /** The genre for a television programme, by its first kind. */
  function TelevisionLabel(kind: Option<string>): (r: string)
    ensures r in SourceMaterialLabels
  {
    if kind == Some("korean drama") then "Adapted From A Korean Drama" else "Adapted From A Live-Action Show"
  }

  /** `GetSourceMaterial`: "Original Work" without source material or when
      it says so; otherwise the genre for the first material, looking one
      level deeper for games and television programmes. The deeper look
      reads the child under the lower-cased name and fails (the dictionary
      throws) when no child has that name. */
  function GetSourceMaterial(dict: seq<Entry>): (r: Option<string>)
    ensures r.Some? ==> r.value in SourceMaterialLabels
    ensures Lookup(dict, "/source material").None? ==> r == Some(OriginalWork)
    ensures Lookup(dict, "/source material").Some? && OriginalWork in ChildNames(Lookup(dict, "/source material").value.children)
      ==> r == Some(OriginalWork)
    ensures Lookup(dict, "/source material").Some? && Lookup(dict, "/source material").value.children == []
      ==> r == Some(OriginalWork)
    ensures r.None? ==> var first := FirstChild(Lookup(dict, "/source material").value).value;
      (first == "game" || first == "television programme")
      && first !in ChildNames(Lookup(dict, "/source material").value.children)
  {
    match Lookup(dict, "/source material")
    case None => Some(OriginalWork)
    case Some(material) =>
      if OriginalWork in ChildNames(material.children) then Some(OriginalWork)
      else
        match FirstChild(material)
        case None => Some(OriginalWork)
        case Some(first) =>
          if first == "game" || first == "television programme" then
            match LookupChild(material.children, first)
            case None => None
            case Some(kinds) =>
              if first == "game" then Some(GameLabel(FirstChild(kinds)))
              else Some(TelevisionLabel(FirstChild(kinds)))
          else Some(MaterialLabel(first))
  }

  /** With lower-case child names the deeper look always finds its child. */
  lemma SourceMaterialWithLowerNames(dict: seq<Entry>)
    requires Lookup(dict, "/source material").Some?
    requires forall i :: 0 <= i < |Lookup(dict, "/source material").value.children| ==>
      Strings.IsLower(Lookup(dict, "/source material").value.children[i].name)
    ensures GetSourceMaterial(dict).Some?
  {
    var material := Lookup(dict, "/source material").value;
    if material.children != [] {
      var m := MinName(ChildNames(material.children)).value;
      var i :| 0 <= i < |material.children| && ChildNames(material.children)[i] == m;
      Strings.ToLowerOfLower(m);
    }
  }

  // ----- Production countries -----

  /** The countries each origin tag names, by its lower-cased name. */
  const CountryTable: seq<(string, seq<string>)> := [
    ("american-japanese co-production", ["Japan", "United States of America"]),
    ("chinese production", ["China"]),
    ("french-chinese co-production", ["France", "China"]),
    ("french-japanese co-production", ["Japan", "France"]),
    ("indo-japanese co-production", ["Japan", "India"]),
    ("japanese production", ["Japan"]),
    ("korean-japanese co-production", ["Japan", "Republic of Korea"]),
    ("north korean production", ["Democratic People's Republic of Korea"]),
    ("polish-japanese co-production", ["Japan", "Poland"]),
    ("russian-japanese co-production", ["Japan", "Russia"]),
    ("saudi arabian-japanese co-production", ["Japan", "Saudi Arabia"]),
    ("italian-japanese co-production", ["Japan", "Italy"]),
    ("singaporean production", ["Singapore"]),
    ("sino-japanese co-production", ["Japan", "China"]),
    ("south korea production", ["Republic of Korea"]),
    ("taiwanese production", ["Taiwan"]),
    ("thai production", ["Thailand"])]

  /** Every country the table names is a known one. */
  lemma CountryTableKnown()
    ensures forall i, j :: 0 <= i < |CountryTable| && 0 <= j < |CountryTable[i].1| ==> CountryTable[i].1[j] in KnownCountries
  {
  }

  /** The countries an origin tag names, by its lower-cased name; none for
      a name the table does not list. */
  function CountriesFor(origin: string): (r: seq<string>)
    ensures forall c :: c in r ==> c in KnownCountries
  {
    CountryTableKnown();
    LookupPair(CountryTable, origin, [])
  }

  /** Every country the table can name. */
  const KnownCountries: set<string> := {
    "Japan", "United States of America", "China", "France", "India", "Republic of Korea",
    "Democratic People's Republic of Korea", "Poland", "Russia", "Saudi Arabia", "Italy",
    "Singapore", "Taiwan", "Thailand"}

  /** The countries of every origin child, in order. */
  function CountriesOf(children: seq<NamedChild>): (r: seq<string>)
    ensures forall c :: c in r <==> exists i :: 0 <= i < |children| && c in CountriesFor(Strings.ToLower(children[i].name))
    ensures forall c :: c in r ==> c in KnownCountries
    decreases |children|
  {
    if |children| == 0 then []
    else
      var rest := CountriesOf(children[1..]);
      assert forall i :: 1 <= i < |children| ==> children[1..][i - 1] == children[i];
      CountriesFor(Strings.ToLower(children[0].name)) + rest
  }

  /** The children's countries are listed child after child. */
  lemma {:induction false} CountriesOfAppend(a: seq<NamedChild>, b: seq<NamedChild>)
    ensures CountriesOf(a + b) == CountriesOf(a) + CountriesOf(b)
    decreases |a|
  {
    if |a| == 0 {
      assert a + b == b;
    } else {
      assert (a + b)[0] == a[0];
      assert (a + b)[1..] == a[1..] + b;
      CountriesOfAppend(a[1..], b);
    }
  }

  /** `GetProductionCountriesFromTags`: the distinct countries the origin
      tag's children name, in the order they are first named; none without
      an origin tag. */
  function GetProductionCountriesFromTags(dict: seq<Entry>): (r: seq<string>)
    ensures Seqs.NoDuplicates(r)
    ensures Lookup(dict, "/origin").None? ==> r == []
    ensures forall c :: c in r ==> c in KnownCountries
    ensures Lookup(dict, "/origin").Some? ==> forall c :: c in r <==>
      exists i :: 0 <= i < |Lookup(dict, "/origin").value.children|
        && c in CountriesFor(Strings.ToLower(Lookup(dict, "/origin").value.children[i].name))
  {
    match Lookup(dict, "/origin")
    case None => []
    case Some(origin) => Seqs.Distinct(CountriesOf(origin.children))
  }

  /** The countries come in the order the origin's children first name
      them. */
  lemma ProductionCountriesInOrder(dict: seq<Entry>, origin: ResolvedTag)
    requires Lookup(dict, "/origin") == Some(origin)
    ensures var r := GetProductionCountriesFromTags(dict);
      forall i, j :: 0 <= i < j < |r| ==>
        Seqs.FirstIndex(CountriesOf(origin.children), r[i]) < Seqs.FirstIndex(CountriesOf(origin.children), r[j])
  {
    Seqs.DistinctOrder(CountriesOf(origin.children));
  }

  // ----- The whole filter -----

  /** `GetTagsFromSource` for a source and its attributes: the source
      material gives its one genre (and fails when that does); every other
      source gives its namespaces' tags. */
  function GetTagsFromSource(dict: seq<Entry>, flag: (TagSource, Attributes), filter: set<IncludeFilter>,
                             minWeight: int, maxDepth: int): (r: Option<seq<string>>)
    ensures r.None? <==> flag.0 == SourceMaterial && GetSourceMaterial(dict).None?
    ensures flag.0 == SourceMaterial && r.Some? ==> r.value == [GetSourceMaterial(dict).value]
  {
    if flag.0 == SourceMaterial then
      match GetSourceMaterial(dict)
      case None => None
      case Some(m) => Some([m])
    else Some(TagsFromNamespace(dict, flag.1, filter, minWeight, maxDepth))
  }

  /** The tags of every chosen source among `flags`, in order; fails when
      one source does. */
  function FromSources(dict: seq<Entry>, flags: seq<(TagSource, Attributes)>, source: set<TagSource>,
                       filter: set<IncludeFilter>, minWeight: int, maxDepth: int): (r: Option<seq<string>>)
    ensures r.None? <==> exists f :: f in flags && f.0 in source
                                     && GetTagsFromSource(dict, f, filter, minWeight, maxDepth).None?
    ensures r.Some? ==> forall x :: x in r.value <==>
      exists f :: f in flags && f.0 in source
        && x in GetTagsFromSource(dict, f, filter, minWeight, maxDepth).value
    decreases |flags|
  {
    if |flags| == 0 then Some([])
    else
      var here := if flags[0].0 in source then GetTagsFromSource(dict, flags[0], filter, minWeight, maxDepth) else Some([]);
      var rest := FromSources(dict, flags[1..], source, filter, minWeight, maxDepth);
      assert forall f :: f in flags <==> f == flags[0] || f in flags[1..];
      if here.None? || rest.None? then None else Some(here.value + rest.value)
  }

  /** The titles of the direct children that are not parents. */
  function LeafTitles(children: seq<NamedChild>): (r: seq<string>)
    ensures |r| <= |children|
    ensures forall x :: x in r <==> exists i :: 0 <= i < |children| && !children[i].tag.isParent
                                                && children[i].tag.title == x
    decreases |children|
  {
    if |children| == 0 then []
    else
      var rest := LeafTitles(children[1..]);
      assert forall i :: 1 <= i < |children| ==> children[1..][i - 1] == children[i];
      (if children[0].tag.isParent then [] else [children[0].tag.title]) + rest
  }

  /** The custom tags' contribution: their direct leaf children, and when
      that did not cover all their descendants, the other sources applied
      below them. */
  function CustomPart(dict: seq<Entry>, source: set<TagSource>, filter: set<IncludeFilter>,
                      minWeight: int, maxDepth: int): (r: seq<string>)
    ensures CustomTags !in source || Lookup(dict, "/custom user tags").None? ==> r == []
    ensures CustomTags in source && Lookup(dict, "/custom user tags").Some? ==>
      var custom := Lookup(dict, "/custom user tags").value;
      forall x :: x in LeafTitles(custom.children) ==> x in r
  {
    match Lookup(dict, "/custom user tags")
    case None => []
    case Some(custom) =>
      if CustomTags !in source then []
      else
        var direct := LeafTitles(custom.children);
        if |custom.recursiveChildren| == |direct| then direct
        else
          TableShape();
          direct + FromSources(custom.recursiveChildren, AllFlagsToUseForCustomTags, source, filter, minWeight, maxDepth).value
  }

  /** The custom tags add exactly their direct leaf children's titles and,
      when those do not cover all their descendants, the tags every other
      chosen source (but the source material and target audience) gives
      below them. */
  lemma CustomPartExactly(dict: seq<Entry>, source: set<TagSource>, filter: set<IncludeFilter>,
                          minWeight: int, maxDepth: int, custom: ResolvedTag, x: string)
    requires CustomTags in source && Lookup(dict, "/custom user tags") == Some(custom)
    ensures x in CustomPart(dict, source, filter, minWeight, maxDepth) <==>
      x in LeafTitles(custom.children)
      || (|custom.recursiveChildren| != |LeafTitles(custom.children)|
          && exists f :: f in AllFlagsToUseForCustomTags && f.0 in source
                         && GetTagsFromSource(custom.recursiveChildren, f, filter, minWeight, maxDepth).Some?
                         && x in GetTagsFromSource(custom.recursiveChildren, f, filter, minWeight, maxDepth).value)
  {
    TableShape();
  }

  /** `FilterInternal`: every chosen source's tags together, distinct and in
      ordinal order; fails when the source material does. */
  function FilterInternal(dict: seq<Entry>, source: set<TagSource>, filter: set<IncludeFilter>,
                          minWeight: int, maxDepth: int): (r: Option<seq<string>>)
    ensures r.None? <==> SourceMaterial in source && GetSourceMaterial(dict).None?
    ensures r.Some? ==> Seqs.LexSorted(r.value) && Seqs.NoDuplicates(r.value)
    ensures r.Some? ==> forall x :: x in r.value <==>
      x in FromSources(dict, AllFlagsToUse, source, filter, minWeight, maxDepth).value
      || x in CustomPart(dict, source, filter, minWeight, maxDepth)
  {
    var main := FromSources(dict, AllFlagsToUse, source, filter, minWeight, maxDepth);
    TableShape();
    assert AllFlagsToUse[13] in AllFlagsToUse;
    if main.None? then None
    else
      var d := Seqs.Distinct(main.value + CustomPart(dict, source, filter, minWeight, maxDepth));
      Seqs.SortStringsKeeps(d);
      Some(Seqs.SortStrings(d))
  }

  /** Every chosen source contributes all of its tags. */
  lemma SourceContributes(dict: seq<Entry>, source: set<TagSource>, filter: set<IncludeFilter>,
                          minWeight: int, maxDepth: int, i: nat)
    requires i < |AllFlagsToUse| && AllFlagsToUse[i].0 in source
    requires SourceMaterial !in source || GetSourceMaterial(dict).Some?
    ensures GetTagsFromSource(dict, AllFlagsToUse[i], filter, minWeight, maxDepth).Some?
    ensures forall x :: x in GetTagsFromSource(dict, AllFlagsToUse[i], filter, minWeight, maxDepth).value ==>
      x in FilterInternal(dict, source, filter, minWeight, maxDepth).value
  {
    assert AllFlagsToUse[i] in AllFlagsToUse;
  }

  /** When the source material is chosen its genre is always in the list. */
  lemma SourceMaterialChosen(dict: seq<Entry>, source: set<TagSource>, filter: set<IncludeFilter>,
                             minWeight: int, maxDepth: int)
    requires SourceMaterial in source
    ensures FilterInternal(dict, source, filter, minWeight, maxDepth).None? <==> GetSourceMaterial(dict).None?
    ensures FilterInternal(dict, source, filter, minWeight, maxDepth).Some? ==>
      GetSourceMaterial(dict).value in FilterInternal(dict, source, filter, minWeight, maxDepth).value
  {
    TableShape();
    assert AllFlagsToUse[13] in AllFlagsToUse;
  }

  // ----- Tags and genres -----

  /** The tag or genre settings: whether the user overrides the defaults,
      and the overriding values. */
  datatype FilterSettings = FilterSettings(override: bool, sources: set<TagSource>,
                                           includeFilters: set<IncludeFilter>, minimumWeight: int, maximumDepth: int)

  /** The default include filter: everything but spoilers. */
  const DefaultIncludeFilters: set<IncludeFilter> := {Parent, Child, Abstract, Weightless, Weighted}

  /** The default tag sources: all but the ungrouped and unsorted tags. */
  const DefaultTagSources: set<TagSource> := {
    ContentIndicators, Dynamic, DynamicCast, DynamicEnding, Elements,
    ElementsPornographyAndSexualAbuse, ElementsTropesAndMotifs, Fetishes,
    OriginProduction, OriginDevelopment, SourceMaterial, SettingPlace,
    SettingTimePeriod, SettingTimeSeason, TargetAudience, TechnicalAspects,
    TechnicalAspectsAdaptions, TechnicalAspectsAwards, TechnicalAspectsMultiAnimeProjects,
    Themes, ThemesDeath, ThemesTales, CustomTags}

  /** The default genre sources. */
  const DefaultGenreSources: set<TagSource> := {SourceMaterial, TargetAudience, Elements}

  /** Under the default include filter with no minimum weight and no depth
      limit, a tag passes exactly when it is no spoiler. */
  lemma DefaultTagFilterPasses(name: Path, tag: ResolvedTag)
    ensures Passes(name, tag, DefaultIncludeFilters, 0, 0) <==> !tag.isLocalSpoiler && !tag.isGlobalSpoiler
  {
  }

  /** Under the default genre filter a tag passes exactly when it is no
      spoiler, sits one level deep, and is weightless or weighs at least
      four stars. */
  lemma DefaultGenreFilterPasses(name: Path, tag: ResolvedTag)
    ensures Passes(name, tag, DefaultIncludeFilters, 400, 1) <==>
      !tag.isLocalSpoiler && !tag.isGlobalSpoiler && Depth(name) == 1 && (tag.isWeightless || tag.weight >= 400)
  {
  }

  /** The defaults choose every tag source but the ungrouped and unsorted
      tags. */
  lemma DefaultTagSourcesAll(t: TagSource)
    ensures t in DefaultTagSources <==> t != Ungrouped && t != Unsorted
  {
  }

  /** `FilterTags`: the defaults take every tag but spoilers, at any weight
      and depth. */
  function FilterTags(dict: seq<Entry>, settings: FilterSettings): (r: Option<seq<string>>)
    ensures r.Some? ==> Seqs.LexSorted(r.value) && Seqs.NoDuplicates(r.value)
    ensures !settings.override ==> (r.None? <==> GetSourceMaterial(dict).None?)
    ensures !settings.override && r.Some? ==> GetSourceMaterial(dict).value in r.value
    ensures settings.override ==>
      r == FilterInternal(dict, settings.sources, settings.includeFilters, settings.minimumWeight, settings.maximumDepth)
  {
    if !settings.override then
      SourceMaterialChosen(dict, DefaultTagSources, DefaultIncludeFilters, 0, 0);
      FilterInternal(dict, DefaultTagSources, DefaultIncludeFilters, 0, 0)
    else FilterInternal(dict, settings.sources, settings.includeFilters, settings.minimumWeight, settings.maximumDepth)
  }

  /** `FilterGenres`: the defaults take the source material, the target
      audience and the elements, weighing at least four stars, one level
      deep. */
  function FilterGenres(dict: seq<Entry>, settings: FilterSettings): (r: Option<seq<string>>)
    ensures r.Some? ==> Seqs.LexSorted(r.value) && Seqs.NoDuplicates(r.value)
    ensures !settings.override ==> (r.None? <==> GetSourceMaterial(dict).None?)
    ensures !settings.override && r.Some? ==> GetSourceMaterial(dict).value in r.value
    ensures settings.override ==>
      r == FilterInternal(dict, settings.sources, settings.includeFilters, settings.minimumWeight, settings.maximumDepth)
  {
    if !settings.override then
      SourceMaterialChosen(dict, DefaultGenreSources, DefaultIncludeFilters, 400, 1);
      FilterInternal(dict, DefaultGenreSources, DefaultIncludeFilters, 400, 1)
    else FilterInternal(dict, settings.sources, settings.includeFilters, settings.minimumWeight, settings.maximumDepth)
  }

  /** With the default tag settings the tags are exactly those the chosen
      sources give, under a filter that drops only spoilers, and the custom
      tags' contribution. */
  lemma DefaultTagsExactly(dict: seq<Entry>, settings: FilterSettings, x: string)
    requires !settings.override && FilterTags(dict, settings).Some?
    ensures x in FilterTags(dict, settings).value <==>
      x in FromSources(dict, AllFlagsToUse, DefaultTagSources, DefaultIncludeFilters, 0, 0).value
      || x in CustomPart(dict, DefaultTagSources, DefaultIncludeFilters, 0, 0)
  {
  }

  /** With the default genre settings the genres are exactly those the
      source material, target audience and elements give under the genre
      filter; the custom tags add nothing. */
  lemma DefaultGenresExactly(dict: seq<Entry>, settings: FilterSettings, x: string)
    requires !settings.override && FilterGenres(dict, settings).Some?
    ensures CustomPart(dict, DefaultGenreSources, DefaultIncludeFilters, 400, 1) == []
    ensures x in FilterGenres(dict, settings).value <==>
      x in FromSources(dict, AllFlagsToUse, DefaultGenreSources, DefaultIncludeFilters, 400, 1).value
  {
    GenresUseDefaults(dict, settings);
    UnchosenCustomTags(dict, DefaultGenreSources, DefaultIncludeFilters, 400, 1, x);
  }

  /** The default genre settings leave the custom tags out. */
  lemma GenresUseDefaults(dict: seq<Entry>, settings: FilterSettings)
    requires !settings.override
    ensures CustomTags !in DefaultGenreSources
    ensures FilterGenres(dict, settings) == FilterInternal(dict, DefaultGenreSources, DefaultIncludeFilters, 400, 1)
  {
  }

  /** Without the custom tags chosen, the result holds exactly the chosen
      sources' tags. */
  lemma UnchosenCustomTags(dict: seq<Entry>, source: set<TagSource>, filter: set<IncludeFilter>,
                           minWeight: int, maxDepth: int, x: string)
    requires CustomTags !in source && FilterInternal(dict, source, filter, minWeight, maxDepth).Some?
    ensures CustomPart(dict, source, filter, minWeight, maxDepth) == []
    ensures x in FilterInternal(dict, source, filter, minWeight, maxDepth).value <==>
      x in FromSources(dict, AllFlagsToUse, source, filter, minWeight, maxDepth).value
  {
  }
}
