/** The shared page script: which settings tabs are shown, the address of a
    settings tab, and reading the checkbox lists. The page state and the
    checkbox elements are values here. */
module CommonPage {
  import opened Wrappers
  import Strings
  import Seqs

  // ----- Tabs -----

  /** A settings tab: its id, and the connection and expert-mode states it
      is limited to, when it is limited. */
  datatype Tab = Tab(id: string, connected: Option<bool>, expertMode: Option<bool>)

  /** The part of the page state the tabs depend on. */
  datatype PageState = PageState(currentTab: string, connected: bool, expertMode: bool)

  /** A limit is met when there is none or it equals the state. */
  predicate Meets(limit: Option<bool>, value: bool) {
    limit.None? || limit.value == value
  }

  /** A tab is shown when it is the current one or both limits are met. */
  predicate IsShown(t: Tab, st: PageState) {
    t.id == st.currentTab || (Meets(t.connected, st.connected) && Meets(t.expertMode, st.expertMode))
  }

  /** The tabs shown, in order. */
  function ShownTabs(tabs: seq<Tab>, st: PageState): (r: seq<Tab>)
    ensures |r| <= |tabs|
    ensures forall t :: t in r <==> t in tabs && IsShown(t, st)
    ensures r == Seqs.Filter(tabs, t => IsShown(t, st))
    ensures Seqs.Subsequence(r, tabs)
    decreases |tabs|
  {
    if |tabs| == 0 then []
    else (if IsShown(tabs[0], st) then [tabs[0]] else []) + ShownTabs(tabs[1..], st)
  }

  /** The position of the first tab with this id, or -1 (`findIndex`). */
  function FindTab(tabs: seq<Tab>, id: string): (i: int)
    ensures -1 <= i < |tabs|
    ensures i == -1 <==> forall k :: 0 <= k < |tabs| ==> tabs[k].id != id
    ensures i >= 0 ==> tabs[i].id == id && forall k :: 0 <= k < i ==> tabs[k].id != id
    decreases |tabs|
  {
    if |tabs| == 0 then -1
    else if tabs[0].id == id then 0
    else
      var i := FindTab(tabs[1..], id);
      if i == -1 then -1 else i + 1
  }

  /** What `updateTabs` leaves behind: the state, the tabs handed to the
      menu, and the selected position. */
  datatype TabUpdate = TabUpdate(state: PageState, shown: seq<Tab>, index: nat)

  /** `updateTabs`: a given tab name becomes the current tab; the shown tabs
      are filtered; the current tab is selected, or the first tab when it is
      not shown. */
  function UpdateTabs(tabs: seq<Tab>, st: PageState, tabName: string): (r: TabUpdate)
    ensures r.state == (if tabName != [] then st.(currentTab := tabName) else st)
    ensures forall t :: t in r.shown <==> t in tabs && IsShown(t, r.state)
    ensures forall t :: t in tabs && t.id == r.state.currentTab ==> t in r.shown
    ensures FindTab(r.shown, r.state.currentTab) >= 0 ==>
      r.index < |r.shown| && r.shown[r.index].id == r.state.currentTab
      && forall k :: 0 <= k < r.index ==> r.shown[k].id != r.state.currentTab
    ensures (forall t :: t in tabs ==> t.id != r.state.currentTab) ==> r.index == 0
  {
    var state := if tabName != [] then st.(currentTab := tabName) else st;
    var shown := ShownTabs(tabs, state);
    var i := FindTab(shown, state.currentTab);
    TabUpdate(state, shown, if i == -1 then 0 else i)
  }

  /** Updating again without a tab name changes nothing. */
  lemma UpdateTabsStable(tabs: seq<Tab>, st: PageState, tabName: string)
    ensures var r := UpdateTabs(tabs, st, tabName);
      UpdateTabs(tabs, r.state, []) == r
  {
  }

  // ----- The page address -----

  /** Characters the form encoding leaves as they are. */
  predicate IsUnreserved(c: char) {
    ('a' <= c <= 'z') || ('A' <= c <= 'Z') || ('0' <= c <= '9') || c == '*' || c == '-' || c == '.' || c == '_'
  }

  /** The value of an upper-case hexadecimal digit, or -1 for any other
      character. */
  function HexValue(c: char): (v: int)
    ensures -1 <= v < 16
    ensures v >= 0 <==> ('0' <= c <= '9') || ('A' <= c <= 'F')
  {
    if '0' <= c <= '9' then c as int - '0' as int
    else if 'A' <= c <= 'F' then c as int - 'A' as int + 10
    else -1
  }

  /** The upper-case hexadecimal digit for a value below 16. */
  function HexDigit(n: nat): (c: char)
    requires n < 16
    ensures ('0' <= c <= '9') || ('A' <= c <= 'F')
    ensures HexValue(c) == n
  {
    if n < 10 then ('0' as int + n) as char else ('A' as int + n - 10) as char
  }

  /** A byte that continues a UTF-8 sequence. */
  predicate IsContinuation(b: nat) {
    0x80 <= b < 0xC0
  }

  /** How many bytes the UTF-8 sequence a lead byte starts has. */
  function Utf8Length(lead: nat): (n: nat)
    ensures 1 <= n <= 4
  {
    if lead < 0x80 then 1 else if lead < 0xE0 then 2 else if lead < 0xF0 then 3 else 4
  }

  /** The character a code point names, if it is a Unicode scalar value. */
  function Scalar(cp: int): (c: Option<char>)
    ensures c.Some? ==> c.value as int == cp
    ensures c.None? <==> cp < 0 || (0xD800 <= cp < 0xE000) || cp >= 0x11_0000
  {
    if 0 <= cp < 0xD800 || 0xE000 <= cp < 0x11_0000 then Some(cp as char) else None
  }

  /** Reads one UTF-8 sequence back: the lead byte's pattern, the
      continuation bytes and the bits they carry. */
  function Utf8Decode(bytes: seq<nat>): (c: Option<char>)
    ensures c.Some? ==> 1 <= |bytes| <= 4 && Utf8Length(bytes[0]) == |bytes|
    ensures c.Some? ==> forall i :: 1 <= i < |bytes| ==> IsContinuation(bytes[i])
  {
    if |bytes| == 1 && bytes[0] < 0x80 then Scalar(bytes[0])
    else if |bytes| == 2 && 0xC0 <= bytes[0] < 0xE0 && IsContinuation(bytes[1]) then
      Scalar((bytes[0] - 0xC0) * 0x40 + (bytes[1] - 0x80))
    else if |bytes| == 3 && 0xE0 <= bytes[0] < 0xF0 && IsContinuation(bytes[1]) && IsContinuation(bytes[2]) then
      Scalar((bytes[0] - 0xE0) * 0x1000 + (bytes[1] - 0x80) * 0x40 + (bytes[2] - 0x80))
    else if |bytes| == 4 && 0xF0 <= bytes[0] < 0xF8 && IsContinuation(bytes[1]) && IsContinuation(bytes[2])
      && IsContinuation(bytes[3]) then
      Scalar((bytes[0] - 0xF0) * 0x4_0000 + (bytes[1] - 0x80) * 0x1000 + (bytes[2] - 0x80) * 0x40 + (bytes[3] - 0x80))
    else None
  }

  /** The UTF-8 bytes of a character. */
  function Utf8(c: char): (bytes: seq<nat>)
    ensures 1 <= |bytes| <= 4
    ensures forall i :: 0 <= i < |bytes| ==> bytes[i] < 256
    ensures |bytes| == 1 <==> (c as int) < 0x80
  {
    var cp := c as int;
    if cp < 0x80 then [cp]
    else if cp < 0x800 then [0xC0 + cp / 0x40, 0x80 + cp % 0x40]
    else if cp < 0x10000 then [0xE0 + cp / 0x1000, 0x80 + (cp / 0x40) % 0x40, 0x80 + cp % 0x40]
    else [0xF0 + cp / 0x40000, 0x80 + (cp / 0x1000) % 0x40, 0x80 + (cp / 0x40) % 0x40, 0x80 + cp % 0x40]
  }

  /** Splitting a two-byte code point into its bits and joining them again. */
  lemma TwoBytes(cp: int)
    requires 0x80 <= cp < 0x800
    ensures 0xC0 <= 0xC0 + cp / 0x40 < 0xE0
    ensures (cp / 0x40) * 0x40 + cp % 0x40 == cp
  {
  }

  /** Splitting a three-byte code point into its bits and joining them again. */
  lemma ThreeBytes(cp: int)
    requires 0x800 <= cp < 0x1_0000
    ensures 0xE0 <= 0xE0 + cp / 0x1000 < 0xF0
    ensures (cp / 0x1000) * 0x1000 + ((cp / 0x40) % 0x40) * 0x40 + cp % 0x40 == cp
  {
    var hi, mid, lo := cp / 0x1000, (cp / 0x40) % 0x40, cp % 0x40;
    assert cp / 0x40 == hi * 0x40 + mid;
    assert cp == (cp / 0x40) * 0x40 + lo;
  }

  /** Splitting a four-byte code point into its bits and joining them again. */
  lemma FourBytes(cp: int)
    requires 0x1_0000 <= cp < 0x11_0000
    ensures 0xF0 <= 0xF0 + cp / 0x4_0000 < 0xF8
    ensures (cp / 0x4_0000) * 0x4_0000 + ((cp / 0x1000) % 0x40) * 0x1000 + ((cp / 0x40) % 0x40) * 0x40 + cp % 0x40 == cp
  {
    var b0, b1, b2, b3 := cp / 0x4_0000, (cp / 0x1000) % 0x40, (cp / 0x40) % 0x40, cp % 0x40;
    assert cp / 0x1000 == b0 * 0x40 + b1;
    assert cp / 0x40 == (cp / 0x1000) * 0x40 + b2;
    assert cp == (cp / 0x40) * 0x40 + b3;
  }

  /** The bytes of a character read back as the character, and the lead byte
      announces how many there are. */
  lemma Utf8RoundTrip(c: char)
    ensures Utf8Length(Utf8(c)[0]) == |Utf8(c)|
    ensures Utf8Decode(Utf8(c)) == Some(c)
  {
    var cp := c as int;
    if cp < 0x80 {
    } else if cp < 0x800 {
      TwoBytes(cp);
    } else if cp < 0x1_0000 {
      ThreeBytes(cp);
    } else {
      FourBytes(cp);
    }
  }

  /** Reads `%XX` groups back into bytes; anything else is an error. */
  function PercentDecode(r: string): (bytes: Option<seq<nat>>)
    ensures bytes.Some? ==> |r| == 3 * |bytes.value|
    ensures bytes.Some? ==> forall i :: 0 <= i < |bytes.value| ==> bytes.value[i] < 256
    decreases |r|
  {
    if |r| == 0 then Some([])
    else if |r| >= 3 && r[0] == '%' && HexValue(r[1]) >= 0 && HexValue(r[2]) >= 0 then
      match PercentDecode(r[3..])
      case None => None
      case Some(rest) => Some([HexValue(r[1]) * 16 + HexValue(r[2])] + rest)
    else None
  }

  /** Bytes written as `%XX` each. */
  function PercentEncode(bytes: seq<nat>): (r: string)
    requires forall i :: 0 <= i < |bytes| ==> bytes[i] < 256
    ensures forall i :: 0 <= i < |r| ==> r[i] == '%' || ('0' <= r[i] <= '9') || ('A' <= r[i] <= 'F')
    ensures |r| == 3 * |bytes|
    ensures |bytes| > 0 ==> r[0] == '%' && HexValue(r[1]) * 16 + HexValue(r[2]) == bytes[0]
    decreases |bytes|
  {
    if |bytes| == 0 then []
    else ['%', HexDigit(bytes[0] / 16), HexDigit(bytes[0] % 16)] + PercentEncode(bytes[1..])
  }

  /** Percent-decoding gives the encoded bytes back. */
  lemma {:induction false} PercentRoundTrip(bytes: seq<nat>)
    requires forall i :: 0 <= i < |bytes| ==> bytes[i] < 256
    ensures PercentDecode(PercentEncode(bytes)) == Some(bytes)
    decreases |bytes|
  {
    if |bytes| > 0 {
      var r := PercentEncode(bytes);
      assert r[3..] == PercentEncode(bytes[1..]);
      PercentRoundTrip(bytes[1..]);
      assert [bytes[0]] + bytes[1..] == bytes;
    }
  }

  /** One character as the form encoding writes it. */
  function EncodeChar(c: char): (r: string)
    ensures IsUnreserved(c) ==> r == [c]
    ensures forall i :: 0 <= i < |r| ==> r[i] != '&' && r[i] != '='
  {
    if IsUnreserved(c) then [c]
    else if c == ' ' then "+"
    else PercentEncode(Utf8(c))
  }

  /** `application/x-www-form-urlencoded` byte serialisation, as
      `URLSearchParams` applies it to names and values. */
  function FormEncode(s: string): (r: string)
    ensures '&' !in r && '=' !in r
    decreases |s|
  {
    if |s| == 0 then [] else EncodeChar(s[0]) + FormEncode(s[1..])
  }

  /** Reads form-encoded text back: an unreserved character stands for
      itself, `+` for a space, and a run of `%XX` groups for the character
      whose UTF-8 bytes they hold, its length set by the lead byte. */
  function FormDecode(r: string): (s: Option<string>)
    decreases |r|
  {
    if |r| == 0 then Some([])
    else if IsUnreserved(r[0]) || r[0] == '+' then
      Prepend(if r[0] == '+' then ' ' else r[0], FormDecode(r[1..]))
    else if r[0] == '%' && |r| >= 3 && HexValue(r[1]) >= 0 && HexValue(r[2]) >= 0 then
      var n := 3 * Utf8Length(HexValue(r[1]) * 16 + HexValue(r[2]));
      if n > |r| then None
      else
        match PercentDecode(r[..n])
        case None => None
        case Some(bytes) =>
          match Utf8Decode(bytes)
          case None => None
          case Some(c) => Prepend(c, FormDecode(r[n..]))
    else None
  }

  /** A character in front of a decoded rest. */
  function Prepend(c: char, rest: Option<string>): (s: Option<string>)
    ensures s.Some? <==> rest.Some?
    ensures s.Some? ==> s.value == [c] + rest.value
  {
    match rest
    case None => None
    case Some(t) => Some([c] + t)
  }

  /** One encoded character in front of more text decodes to the character
      in front of the rest's decoding. */
  lemma DecodeEncodedChar(c: char, rest: string)
    ensures FormDecode(EncodeChar(c) + rest) == Prepend(c, FormDecode(rest))
  {
    var e := EncodeChar(c);
    var r := e + rest;
    if IsUnreserved(c) || c == ' ' {
      assert r[0] == e[0] && r[1..] == rest;
    } else {
      var bytes := Utf8(c);
      assert e == PercentEncode(bytes);
      assert r[..|e|] == e && r[|e|..] == rest;
      assert r[0] == e[0] && r[1] == e[1] && r[2] == e[2];
      PercentRoundTrip(bytes);
      Utf8RoundTrip(c);
    }
  }

  /** Decoding the form encoding gives the text back. */
  lemma {:induction false} FormRoundTrip(s: string)
    ensures FormDecode(FormEncode(s)) == Some(s)
    decreases |s|
  {
    if |s| > 0 {
      DecodeEncodedChar(s[0], FormEncode(s[1..]));
      FormRoundTrip(s[1..]);
      assert [s[0]] + s[1..] == s;
    }
  }

  /** Text of unreserved characters is written as it is. */
  lemma {:induction false} FormEncodeUnreserved(s: string)
    requires forall i :: 0 <= i < |s| ==> IsUnreserved(s[i])
    ensures FormEncode(s) == s
    decreases |s|
  {
    if |s| > 0 {
      FormEncodeUnreserved(s[1..]);
    }
  }

  const PagePrefix: string := "configurationpage?"

  /** The labels of the page and tab parameters. */
  const NameKey: string := "name="
  const TabKey: string := "tab="

  /** `getConfigurationPageUrl`: the page name, and the tab when one is given. */
  function ConfigurationPageUrl(page: string, tab: string): (r: string)
    ensures Strings.StartsWith(r, PagePrefix)
  {
    var name := NameKey + FormEncode(page);
    var query := if tab == [] then name else name + ['&'] + (TabKey + FormEncode(tab));
    assert (PagePrefix + query)[..|PagePrefix|] == PagePrefix;
    PagePrefix + query
  }

  /** A labelled parameter holds no parameter separator. */
  lemma ParameterHasNoSeparator(key: string, value: string)
    requires '&' !in key
    ensures '&' !in key + FormEncode(value)
  {
  }

  /** Dropping a prefix leaves the rest. */
  lemma DropPrefix(prefix: string, rest: string)
    ensures (prefix + rest)[|prefix|..] == rest
  {
  }

  /** Without a tab the query is the name parameter alone. */
  lemma QueryWithoutTab(page: string)
    ensures Strings.Split(ConfigurationPageUrl(page, [])[|PagePrefix|..], '&') == [NameKey + FormEncode(page)]
  {
    var name := NameKey + FormEncode(page);
    ParameterHasNoSeparator(NameKey, page);
    assert ConfigurationPageUrl(page, []) == PagePrefix + name;
    DropPrefix(PagePrefix, name);
  }

  /** With a tab the query is the name parameter, then the tab parameter. */
  lemma QueryWithTab(page: string, tab: string)
    requires tab != []
    ensures Strings.Split(ConfigurationPageUrl(page, tab)[|PagePrefix|..], '&')
         == [NameKey + FormEncode(page), TabKey + FormEncode(tab)]
  {
    var name := NameKey + FormEncode(page);
    var second := TabKey + FormEncode(tab);
    ParameterHasNoSeparator(NameKey, page);
    ParameterHasNoSeparator(TabKey, tab);
    assert ConfigurationPageUrl(page, tab) == PagePrefix + (name + ['&'] + second);
    DropPrefix(PagePrefix, name + ['&'] + second);
    Strings.SplitAt(name, '&', second);
  }

  /** The query splits back into its parameters: the name always, then the
      tab exactly when one was given. */
  lemma ConfigurationPageQuery(page: string, tab: string)
    ensures var query := ConfigurationPageUrl(page, tab)[|PagePrefix|..];
      Strings.Split(query, '&') == (if tab == [] then [NameKey + FormEncode(page)]
                                    else [NameKey + FormEncode(page), TabKey + FormEncode(tab)])
  {
    if tab == [] {
      QueryWithoutTab(page);
    } else {
      QueryWithTab(page, tab);
    }
  }

  // ----- Checkbox lists -----

  /** A checkbox of a list: its option value and whether it is checked. */
  datatype Checkbox = Checkbox(option: string, checked: bool)

  /** The options of the checked boxes, in list order. */
  function CheckedOptions(items: seq<Checkbox>): (r: seq<string>)
    ensures |r| <= |items|
    ensures forall o :: o in r <==> exists i :: 0 <= i < |items| && items[i].checked && items[i].option == o
    decreases |items|
  {
    if |items| == 0 then []
    else
      var rest := CheckedOptions(items[1..]);
      assert forall i :: 1 <= i < |items| ==> items[1..][i - 1] == items[i];
      (if items[0].checked then [items[0].option] else []) + rest
  }

  /** Every option, in list order. */
  function Options(items: seq<Checkbox>): (r: seq<string>)
    ensures |r| == |items|
    ensures forall i :: 0 <= i < |items| ==> r[i] == items[i].option
  {
    seq(|items|, i requires 0 <= i < |items| => items[i].option)
  }

  /** Listing the options of a list with one more box in front. */
  lemma OptionsCons(b: Checkbox, items: seq<Checkbox>)
    ensures Options([b] + items) == [b.option] + Options(items)
  {
  }

  /** The options read are those of the checked boxes, in list order. */
  lemma {:induction false} CheckedOptionsInOrder(items: seq<Checkbox>)
    ensures CheckedOptions(items) == Options(Seqs.Filter(items, (b: Checkbox) => b.checked))
    decreases |items|
  {
    if |items| > 0 {
      CheckedOptionsInOrder(items[1..]);
      var rest := Seqs.Filter(items[1..], (b: Checkbox) => b.checked);
      if items[0].checked {
        OptionsCons(items[0], rest);
      }
    }
  }

  /** `retrieveCheckboxList`: the checked options, sorted. */
  function RetrieveCheckboxList(items: seq<Checkbox>): (r: seq<string>)
    ensures Seqs.LexSorted(r)
    ensures multiset(r) == multiset(CheckedOptions(items))
  {
    Seqs.SortStrings(CheckedOptions(items))
  }

  /** `retrieveSortableCheckboxList`: the checked options sorted, and every
      option in the order the list shows them. */
  function RetrieveSortableCheckboxList(items: seq<Checkbox>): (r: (seq<string>, seq<string>))
    ensures Seqs.LexSorted(r.0)
    ensures multiset(r.0) == multiset(CheckedOptions(items))
    ensures r.1 == Options(items)
  {
    (Seqs.SortStrings(CheckedOptions(items)), Options(items))
  }

  /** `renderCheckboxList`: check every box whose option is enabled; the
      other boxes keep their state. */
  function RenderCheckboxList(items: seq<Checkbox>, enabled: seq<string>): (r: seq<Checkbox>)
    ensures |r| == |items|
    ensures forall i :: 0 <= i < |items| ==>
      r[i].option == items[i].option && r[i].checked == (items[i].checked || items[i].option in enabled)
  {
    seq(|items|, i requires 0 <= i < |items| =>
      if items[i].option in enabled then items[i].(checked := true) else items[i])
  }

  /** Rendering what was read from a list with distinct options leaves the
      list as it was, so saving and reloading the page keeps the choice. */
  lemma RenderRetrieved(items: seq<Checkbox>)
    requires Seqs.NoDuplicates(Options(items))
    ensures RenderCheckboxList(items, RetrieveCheckboxList(items)) == items
  {
    var got := RetrieveCheckboxList(items);
    forall i | 0 <= i < |items|
      ensures items[i].option in got ==> items[i].checked
    {
      if items[i].option in got {
        assert items[i].option in multiset(got);
        assert items[i].option in CheckedOptions(items);
        var k :| 0 <= k < |items| && items[k].checked && items[k].option == items[i].option;
        assert Options(items)[k] == Options(items)[i];
      }
    }
    forall i | 0 <= i < |items|
      ensures items[i].checked ==> items[i].option in got
    {
      if items[i].checked {
        assert items[i].option in CheckedOptions(items);
        assert items[i].option in multiset(CheckedOptions(items));
      }
    }
  }
}
