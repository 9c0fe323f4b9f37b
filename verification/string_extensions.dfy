/** List deconstruction with padding, and the replacement of characters that
    file systems reject by look-alike characters. */
module StringExtensions {
  import Strings

  /** The `Deconstruct` overloads for one to five out values: position `i`
      holds `list[i]` when the list is long enough and "" otherwise. */
  function Deconstruct(list: seq<string>, arity: nat): (r: seq<string>)
    requires 1 <= arity <= 5
    ensures |r| == arity
    ensures forall i :: 0 <= i < arity && i < |list| ==> r[i] == list[i]
    ensures forall i :: |list| <= i < arity ==> r[i] == ""
  {
    seq(arity, i requires 0 <= i < arity => if i < |list| then list[i] else "")
  }

  /** The overloads agree on the positions they share, and a list at least as
      long as the arity is deconstructed into its prefix. */
  lemma DeconstructOverloadsAgree(list: seq<string>, m: nat, n: nat)
    requires 1 <= m <= n <= 5
    ensures Deconstruct(list, m) == Deconstruct(list, n)[..m]
    ensures |list| >= n ==> Deconstruct(list, n) == list[..n]
  {
  }

  /** One `string.Replace` of a character by a text. */
  datatype Rule = Rule(from: char, to: string)

  /** No rule puts in a character that some rule replaces. */
  predicate Disjoint(rules: seq<Rule>)
  {
    forall j, k :: 0 <= j < |rules| && 0 <= k < |rules| ==> rules[j].from !in rules[k].to
  }

  /** `s` with every `c` replaced by the text `rep` (`string.Replace`). */
  function ReplaceWith(s: string, c: char, rep: string): (r: string)
    ensures forall x :: x in r ==> (x in s && x != c) || x in rep
    ensures c !in s ==> r == s
    decreases |s|
  {
    if |s| == 0 then []
    else
      var rest := ReplaceWith(s[1..], c, rep);
      assert forall x :: x in s <==> x == s[0] || x in s[1..];
      assert c !in s ==> s == [s[0]] + s[1..];
      (if s[0] == c then rep else [s[0]]) + rest
  }

  /** `string.Replace` works piece by piece. */
  lemma {:induction false} ReplaceWithAppend(a: string, b: string, c: char, rep: string)
    ensures ReplaceWith(a + b, c, rep) == ReplaceWith(a, c, rep) + ReplaceWith(b, c, rep)
    decreases |a|
  {
    if |a| > 0 {
      assert (a + b)[0] == a[0];
      assert (a + b)[1..] == a[1..] + b;
      ReplaceWithAppend(a[1..], b, c, rep);
    } else {
      assert a + b == b;
    }
  }

  /** What one character becomes under the rules: the text of the first rule
      for it, or the character itself when no rule replaces it. */
  function Substitute(x: char, rules: seq<Rule>): (r: string)
    ensures (forall k :: 0 <= k < |rules| ==> rules[k].from != x) ==> r == [x]
    ensures forall k :: 0 <= k < |rules| && rules[k].from == x && (forall j :: 0 <= j < k ==> rules[j].from != x) ==>
      r == rules[k].to
    decreases |rules|
  {
    if |rules| == 0 then [x]
    else if rules[0].from == x then rules[0].to
    else
      assert forall k :: 1 <= k < |rules| ==> rules[k] == rules[1..][k - 1];
      Substitute(x, rules[1..])
  }

  /** Every character of `s` substituted on its own, the results in order. */
  function SubstituteEach(s: string, rules: seq<Rule>): (r: string)
    decreases |s|
  {
    if |s| == 0 then [] else Substitute(s[0], rules) + SubstituteEach(s[1..], rules)
  }

  /** The rules applied one after the other. When no rule puts in a character
      that a rule replaces, none of the replaced characters is left, every
      character was in `s` or was put in by a rule, and a text without any of
      the replaced characters is unchanged. */
  function ReplaceAll(s: string, rules: seq<Rule>): (r: string)
    requires Disjoint(rules)
    ensures forall k :: 0 <= k < |rules| ==> rules[k].from !in r
    ensures forall x :: x in r ==> x in s || exists k :: 0 <= k < |rules| && x in rules[k].to
    ensures (forall k :: 0 <= k < |rules| ==> rules[k].from !in s) ==> r == s
    decreases |rules|
  {
    if |rules| == 0 then s
    else
      var rest := rules[1..];
      assert forall k :: 0 <= k < |rest| ==> rest[k] == rules[k + 1];
      var once := ReplaceWith(s, rules[0].from, rules[0].to);
      ReplaceAll(once, rest)
  }

  /** The rules applied in turn work piece by piece. */
  lemma {:induction false} ReplaceAllAppend(a: string, b: string, rules: seq<Rule>)
    requires Disjoint(rules)
    ensures ReplaceAll(a + b, rules) == ReplaceAll(a, rules) + ReplaceAll(b, rules)
    decreases |rules|
  {
    if |rules| > 0 {
      ReplaceWithAppend(a, b, rules[0].from, rules[0].to);
      ReplaceAllAppend(ReplaceWith(a, rules[0].from, rules[0].to), ReplaceWith(b, rules[0].from, rules[0].to), rules[1..]);
    }
  }

  /** One character under the rules in turn becomes its substitute: a rule's
      text is never touched by the later rules. */
  lemma {:induction false} ReplaceAllChar(x: char, rules: seq<Rule>)
    requires Disjoint(rules)
    ensures ReplaceAll([x], rules) == Substitute(x, rules)
    decreases |rules|
  {
    if |rules| > 0 {
      var rest := rules[1..];
      assert forall k :: 0 <= k < |rest| ==> rest[k] == rules[k + 1];
      var once := ReplaceWith([x], rules[0].from, rules[0].to);
      assert [x][1..] == [];
      if rules[0].from == x {
        assert once == rules[0].to;
        assert forall k :: 0 <= k < |rest| ==> rest[k].from !in once;
      } else {
        assert once == [x];
        ReplaceAllChar(x, rest);
      }
    }
  }

  /** Applying the rules one after the other is substituting every character
      on its own, when no rule puts back a character that a rule replaces. */
  lemma {:induction false} ReplaceAllIsSubstitution(s: string, rules: seq<Rule>)
    requires Disjoint(rules)
    ensures ReplaceAll(s, rules) == SubstituteEach(s, rules)
    decreases |s|
  {
    if |s| > 0 {
      assert s == [s[0]] + s[1..];
      ReplaceAllAppend([s[0]], s[1..], rules);
      ReplaceAllChar(s[0], rules);
      ReplaceAllIsSubstitution(s[1..], rules);
    } else {
      assert forall k :: 0 <= k < |rules| ==> rules[k].from !in s;
    }
  }

  /** The replacements in the source's order, with the look-alike for '*'
      given as `star`. */
  function PathRules(star: string): (rules: seq<Rule>)
    ensures |rules| == 10
  {
    [Rule('*', star), Rule('|', "\U{FF5C}"), Rule('\\', "\U{29F9}"), Rule('/', "\U{29F8}"),
     Rule(':', "\U{0589}"), Rule('"', "\U{2033}"), Rule('>', "\U{203A}"), Rule('<', "\U{2039}"),
     Rule('?', "\U{FF1F}"), Rule('.', "\U{2024}")]
  }

  /** The characters a path segment may not hold. */
  predicate IsInvalidPathChar(c: char)
  {
    c in {'*', '|', '\\', '/', ':', '"', '>', '<', '?', '.'}
  }

  /** No two rules replace the same character. */
  lemma PathRulesDistinct(star: string)
    ensures forall j, k :: 0 <= j < k < 10 ==> PathRules(star)[j].from != PathRules(star)[k].from
  {
    var rs := PathRules(star);
    assert rs[0].from == '*' && rs[1].from == '|' && rs[2].from == '\\' && rs[3].from == '/' && rs[4].from == ':';
    assert rs[5].from == '"' && rs[6].from == '>' && rs[7].from == '<' && rs[8].from == '?' && rs[9].from == '.';
  }

  /** The rules replace exactly the invalid characters and put none back. */
  lemma PathRulesCover(star: string)
    requires forall x :: x in star ==> !IsInvalidPathChar(x)
    ensures Disjoint(PathRules(star))
    ensures forall x :: IsInvalidPathChar(x) <==> exists k :: 0 <= k < 10 && PathRules(star)[k].from == x
  {
    var rs := PathRules(star);
    assert forall k :: 0 <= k < 10 ==> IsInvalidPathChar(rs[k].from);
    assert forall k :: 1 <= k < 10 ==> |rs[k].to| == 1 && !IsInvalidPathChar(rs[k].to[0]);
    assert rs[0].from == '*' && rs[1].from == '|' && rs[2].from == '\\' && rs[3].from == '/' && rs[4].from == ':';
    assert rs[5].from == '"' && rs[6].from == '>' && rs[7].from == '<' && rs[8].from == '?' && rs[9].from == '.';
  }

  /** The ten replacements: no invalid character is left, and a text without
      one is unchanged. */
  function ReplaceAllInvalid(path: string, star: string): (r: string)
    requires forall x :: x in star ==> !IsInvalidPathChar(x)
    ensures forall x :: x in r ==> !IsInvalidPathChar(x)
    ensures (forall x :: x in path ==> !IsInvalidPathChar(x)) ==> r == path
    ensures r == SubstituteEach(path, PathRules(star))
  {
    PathRulesCover(star);
    ReplaceAllIsSubstitution(path, PathRules(star));
    ReplaceAll(path, PathRules(star))
  }

  /** Each invalid character has its own look-alike, and every other
      character is kept. */
  lemma PathSubstitutes(star: string, x: char)
    requires forall y :: y in star ==> !IsInvalidPathChar(y)
    ensures !IsInvalidPathChar(x) ==> Substitute(x, PathRules(star)) == [x]
    ensures forall k :: 0 <= k < 10 && PathRules(star)[k].from == x ==> Substitute(x, PathRules(star)) == PathRules(star)[k].to
    ensures x == '*' ==> Substitute(x, PathRules(star)) == star
  {
    PathRulesCover(star);
    PathRulesDistinct(star);
  }

  /** The escape "ὺF" as C# reads it: the four hex digits U+1F7A, then a
      literal 'F'. */
  const StarAsWritten: string := ['\U{1F7A}', 'F']

  /** LIGHT FIVE SPOKED ASTERISK, the character the comment names. */
  const StarIntended: string := ['\U{1F7AF}']

  /** ReplaceInvalidPathCharacters as written: '*' becomes two characters. */
  function ReplaceInvalidPathCharactersAsWritten(path: string): (r: string)
    ensures forall x :: x in r ==> !IsInvalidPathChar(x)
    ensures r == Strings.Trim(Strings.DotNet, SubstituteEach(path, PathRules(StarAsWritten)))
  {
    Strings.TrimSubset(Strings.DotNet, ReplaceAllInvalid(path, StarAsWritten));
    Strings.Trim(Strings.DotNet, ReplaceAllInvalid(path, StarAsWritten))
  }

  /** ReplaceInvalidPathCharacters with the intended look-alike for '*': no
      character a path segment may not hold survives, no whitespace is left at
      either end, and every character either was in the path or is one of the
      look-alikes. */
  function ReplaceInvalidPathCharacters(path: string): (r: string)
    ensures Sanitised(r)
    ensures r == Strings.Trim(Strings.DotNet, SubstituteEach(path, PathRules(StarIntended)))
  {
    var replaced := ReplaceAllInvalid(path, StarIntended);
    Strings.TrimSubset(Strings.DotNet, replaced);
    Strings.TrimIsTrimmed(Strings.DotNet, replaced);
    Strings.Trim(Strings.DotNet, replaced)
  }

  /** A name with no invalid character and no surrounding whitespace. */
  predicate Sanitised(s: string) {
    && (forall x :: x in s ==> !IsInvalidPathChar(x))
    && Strings.Trimmed(Strings.DotNet, s)
  }

  /** A sanitised name is kept. */
  lemma ReplaceInvalidPathCharactersKeepsValid(path: string)
    requires Sanitised(path)
    ensures ReplaceInvalidPathCharacters(path) == path
  {
    var replaced := ReplaceAllInvalid(path, StarIntended);
    assert replaced == path;
    Strings.TrimNoop(Strings.DotNet, path);
  }

  /** Sanitising a sanitised name changes nothing. */
  lemma ReplaceInvalidPathCharactersIdempotent(path: string)
    ensures ReplaceInvalidPathCharacters(ReplaceInvalidPathCharacters(path)) == ReplaceInvalidPathCharacters(path)
  {
    var r := ReplaceInvalidPathCharacters(path);
    ReplaceInvalidPathCharactersKeepsValid(r);
  }

  /** "*" alone becomes the given look-alike. */
  lemma StarAlone(path: string, star: string)
    requires path == "*"
    requires forall x :: x in star ==> !IsInvalidPathChar(x)
    ensures ReplaceAllInvalid(path, star) == star
  {
    var rs := PathRules(star);
    PathRulesCover(star);
    var once := ReplaceWith(path, '*', star);
    assert once == star by {
      assert path[1..] == [];
    }
    assert forall k :: 0 <= k < 9 ==> rs[1..][k].from !in star;
    assert ReplaceAll(once, rs[1..]) == star;
  }

  /** Neither look-alike has whitespace to trim. */
  lemma StarsTrimmed(star: string)
    requires star == StarAsWritten || star == StarIntended
    ensures Strings.Trim(Strings.DotNet, star) == star
  {
    assert !Strings.IsWhiteSpace(Strings.DotNet, star[0]);
    assert !Strings.IsWhiteSpace(Strings.DotNet, star[|star| - 1]);
    Strings.TrimNoop(Strings.DotNet, star);
  }

  /** As written, "*" turns into U+1F7A followed by 'F' rather than the single
      intended character. */
  lemma StarReplacementAsWritten(path: string)
    requires path == "*"
    ensures ReplaceInvalidPathCharactersAsWritten(path) == ['\U{1F7A}', 'F']
  {
    StarAlone(path, StarAsWritten);
    StarsTrimmed(StarAsWritten);
  }

  /** With the intended escape, "*" turns into the one look-alike character. */
  lemma StarReplacementIntended(path: string)
    requires path == "*"
    ensures ReplaceInvalidPathCharacters(path) == ['\U{1F7AF}']
  {
    StarAlone(path, StarIntended);
    StarsTrimmed(StarIntended);
  }
}
