/** String helpers shared by the model: whitespace trimming as .NET, Python
    and JavaScript define it, ASCII case mapping, prefix tests, splitting and
    joining. Strings are sequences of characters. */
module Strings {

  /** The runtimes whose notion of whitespace the model needs. */
  datatype Runtime = DotNet | Python | JavaScript

  /** The whitespace all three runtimes agree on. */
  predicate CommonWhiteSpace(c: char) {
    c == ' ' || c == '\t' || c == '\n' || c == '\U{000B}' || c == '\U{000C}' || c == '\r'
      || c == '\U{00A0}' || c == '\U{1680}' || ('\U{2000}' <= c <= '\U{200A}')
      || c == '\U{2028}' || c == '\U{2029}' || c == '\U{202F}' || c == '\U{205F}' || c == '\U{3000}'
  }

  /** The characters each runtime's trim removes: .NET `char.IsWhiteSpace`,
      Python `str.isspace`, and the ECMAScript WhiteSpace and LineTerminator
      productions. */
  predicate IsWhiteSpace(rt: Runtime, c: char) {
    match rt
    case DotNet => CommonWhiteSpace(c) || c == '\U{0085}'
    case Python => CommonWhiteSpace(c) || c == '\U{0085}' || ('\U{001C}' <= c <= '\U{001F}')
    case JavaScript => CommonWhiteSpace(c) || c == '\U{FEFF}'
  }

  /** True when every character of `s` is whitespace (`string.IsNullOrWhiteSpace`
      for a non-null string). */
  predicate AllWhiteSpace(rt: Runtime, s: string) {
    forall i :: 0 <= i < |s| ==> IsWhiteSpace(rt, s[i])
  }

  /** `s` with its leading whitespace removed. */
  function TrimStart(rt: Runtime, s: string): (r: string)
    ensures |r| <= |s| && r == s[|s| - |r|..]
    ensures r == [] || !IsWhiteSpace(rt, r[0])
    ensures forall i :: 0 <= i < |s| - |r| ==> IsWhiteSpace(rt, s[i])
    decreases |s|
  {
    if |s| > 0 && IsWhiteSpace(rt, s[0]) then
      TrimStart(rt, s[1..])
    else s
  }

  /** `s` with its trailing whitespace removed. */
  function TrimEnd(rt: Runtime, s: string): (r: string)
    ensures |r| <= |s| && r == s[..|r|]
    ensures r == [] || !IsWhiteSpace(rt, r[|r| - 1])
    ensures forall i :: |r| <= i < |s| ==> IsWhiteSpace(rt, s[i])
    decreases |s|
  {
    if |s| > 0 && IsWhiteSpace(rt, s[|s| - 1]) then
      TrimEnd(rt, s[..|s| - 1])
    else s
  }

  /** `s` with whitespace removed from both ends: empty exactly when `s` is all
      whitespace, and otherwise starting and ending with a non-whitespace character
      of `s`. */
  function Trim(rt: Runtime, s: string): (r: string)
    ensures |r| <= |s|
    ensures r == [] <==> AllWhiteSpace(rt, s)
    ensures r == [] || (!IsWhiteSpace(rt, r[0]) && !IsWhiteSpace(rt, r[|r| - 1]))
  {
    TrimBothEmpty(rt, s);
    TrimEnd(rt, TrimStart(rt, s))
  }

  /** Trimming both ends leaves nothing exactly when all was whitespace. */
  lemma TrimBothEmpty(rt: Runtime, s: string)
    ensures TrimEnd(rt, TrimStart(rt, s)) == [] <==> AllWhiteSpace(rt, s)
  {
    var t := TrimStart(rt, s);
    if TrimEnd(rt, t) != [] {
      assert t[0] == s[|s| - |t|];
    }
  }

  /** A string whose ends are not whitespace is its own trim. */
  lemma TrimNoop(rt: Runtime, s: string)
    requires s == [] || (!IsWhiteSpace(rt, s[0]) && !IsWhiteSpace(rt, s[|s| - 1]))
    ensures Trim(rt, s) == s
  {
  }

  /** Trimming only removes characters. */
  lemma TrimSubset(rt: Runtime, s: string)
    ensures forall x :: x in Trim(rt, s) ==> x in s
  {
    var t := TrimStart(rt, s);
    var r := TrimEnd(rt, t);
    var a := |s| - |t|;
    assert r == s[a..a + |r|] by {
      assert t == s[a..];
    }
    SliceMembers(s, a, a + |r|);
  }

  /** A slice holds only characters of the whole. */
  lemma SliceMembers(s: string, a: nat, b: nat)
    requires a <= b <= |s|
    ensures forall x :: x in s[a..b] ==> x in s
  {
    forall x | x in s[a..b]
      ensures x in s
    {
      var i :| 0 <= i < b - a && s[a..b][i] == x;
      assert s[a + i] == x;
    }
  }

  /** ASCII lower-casing of one character. */
  function LowerChar(c: char): (r: char)
    ensures 'A' <= c <= 'Z' ==> r as int == c as int + 32
    ensures !('A' <= c <= 'Z') ==> r == c
  {
    if 'A' <= c <= 'Z' then (c as int + 32) as char else c
  }

  /** `s` with every ASCII upper-case letter lowered. */
  function ToLower(s: string): (r: string)
    ensures |r| == |s|
    ensures forall i :: 0 <= i < |s| ==> r[i] == LowerChar(s[i])
  {
    seq(|s|, i requires 0 <= i < |s| => LowerChar(s[i]))
  }

  /** A lower-cased string has no ASCII upper-case letters. */
  predicate IsLower(s: string) {
    forall i :: 0 <= i < |s| ==> !('A' <= s[i] <= 'Z')
  }

  /** Lower-casing whitespace keeps it whitespace, so trimming and lowering commute. */
  lemma LowerKeepsWhiteSpace(rt: Runtime, c: char)
    ensures IsWhiteSpace(rt, LowerChar(c)) <==> IsWhiteSpace(rt, c)
  {
  }

  /** Case-insensitive equality on ASCII letters (`StringComparison.OrdinalIgnoreCase`). */
  predicate EqualsIgnoreCase(a: string, b: string) {
    ToLower(a) == ToLower(b)
  }

  /** `s` begins with `prefix`. */
  predicate StartsWith(s: string, prefix: string) {
    |prefix| <= |s| && s[..|prefix|] == prefix
  }

  /** `s` ends with `suffix`. */
  predicate EndsWith(s: string, suffix: string) {
    |suffix| <= |s| && s[|s| - |suffix|..] == suffix
  }

  /** `sub` occurs somewhere in `s`. */
  predicate Contains(s: string, sub: string)
    decreases |s|
  {
    StartsWith(s, sub) || (|s| > 0 && Contains(s[1..], sub))
  }

  /** `s` with every occurrence of `c` replaced by `d`. */
  function ReplaceChar(s: string, c: char, d: char): (r: string)
    ensures |r| == |s|
    ensures forall i :: 0 <= i < |s| ==> r[i] == (if s[i] == c then d else s[i])
  {
    seq(|s|, i requires 0 <= i < |s| => if s[i] == c then d else s[i])
  }

  /** `s` with every occurrence of `c` deleted (`Replace("c", "")`). */
  function RemoveChar(s: string, c: char): (r: string)
    ensures c !in r
    ensures forall x :: x != c ==> (x in r <==> x in s)
    ensures |r| <= |s|
  {
    if |s| == 0 then [] else if s[0] == c then RemoveChar(s[1..], c) else [s[0]] + RemoveChar(s[1..], c)
  }

  /** Deleting a character from a concatenation deletes it from each part. */
  lemma {:induction false} RemoveCharAppend(a: string, b: string, c: char)
    ensures RemoveChar(a + b, c) == RemoveChar(a, c) + RemoveChar(b, c)
    decreases |a|
  {
    if |a| > 0 {
      assert (a + b)[0] == a[0];
      assert (a + b)[1..] == a[1..] + b;
      RemoveCharAppend(a[1..], b, c);
    } else {
      assert a + b == b;
    }
  }

  /** Deleting a character that does not occur changes nothing. */
  lemma {:induction false} RemoveCharAbsent(s: string, c: char)
    requires c !in s
    ensures RemoveChar(s, c) == s
    decreases |s|
  {
    if |s| > 0 {
      RemoveCharAbsent(s[1..], c);
      assert s == [s[0]] + s[1..];
    }
  }

  /** `s` without its first `n` characters; empty when it is shorter. */
  function Drop(s: string, n: int): (r: string)
    ensures 0 <= n <= |s| ==> r == s[n..]
    ensures n > |s| ==> r == []
  {
    if 0 <= n <= |s| then s[n..] else []
  }

  /** The position of the first `c` in `s`. */
  function IndexOf(s: string, c: char): (i: nat)
    requires c in s
    ensures i < |s| && s[i] == c && c !in s[..i]
  {
    if s[0] == c then 0 else 1 + IndexOf(s[1..], c)
  }

  /** `parts` joined with `sep` between consecutive entries. */
  function Join(parts: seq<string>, sep: string): (r: string)
    ensures |parts| == 1 ==> r == parts[0]
  {
    if |parts| == 0 then []
    else if |parts| == 1 then parts[0]
    else parts[0] + sep + Join(parts[1..], sep)
  }

  /** `s` cut at every `sep` (`String.Split(char)`, JavaScript `split`): never empty,
      no piece holds the separator, and joining the pieces back gives `s`. */
  function Split(s: string, sep: char): (parts: seq<string>)
    ensures |parts| >= 1
    ensures forall i :: 0 <= i < |parts| ==> sep !in parts[i]
    ensures Join(parts, [sep]) == s
    decreases |s|
  {
    if sep !in s then [s]
    else
      var i := IndexOf(s, sep);
      var rest := Split(s[i + 1..], sep);
      assert s == s[..i] + [sep] + s[i + 1..];
      [s[..i]] + rest
  }

  /** Cutting at the first separator: the piece before it, then the rest's pieces. */
  lemma SplitAt(a: string, sep: char, b: string)
    requires sep !in a
    ensures Split(a + [sep] + b, sep) == [a] + Split(b, sep)
  {
    var s := a + [sep] + b;
    assert s[|a|] == sep;
    var i := IndexOf(s, sep);
    assert s[..|a|] == a;
    assert i == |a|;
    assert s[i + 1..] == b;
  }

  /** Splitting what was joined with the separator followed by `pad` gives
      the parts back, every one after the first with `pad` in front, when no
      part and not `pad` holds the separator. `prefix` is text already in
      front of the first part. */
  lemma {:induction false} SplitJoin(prefix: string, parts: seq<string>, sep: char, pad: string)
    requires |parts| >= 1 && sep !in prefix && sep !in pad
    requires forall i :: 0 <= i < |parts| ==> sep !in parts[i]
    ensures |Split(prefix + Join(parts, [sep] + pad), sep)| == |parts|
    ensures Split(prefix + Join(parts, [sep] + pad), sep)[0] == prefix + parts[0]
    ensures forall i :: 1 <= i < |parts| ==> Split(prefix + Join(parts, [sep] + pad), sep)[i] == pad + parts[i]
    decreases |parts|
  {
    if |parts| == 1 {
      assert sep !in prefix + parts[0];
    } else {
      var rest := parts[1..];
      assert prefix + Join(parts, [sep] + pad) == (prefix + parts[0]) + [sep] + (pad + Join(rest, [sep] + pad));
      assert sep !in prefix + parts[0];
      SplitAt(prefix + parts[0], sep, pad + Join(rest, [sep] + pad));
      SplitJoin(pad, rest, sep, pad);
    }
  }

  /** Splitting joined separator-free parts gives back as many parts. */
  lemma SplitOfJoin(parts: seq<string>, sep: char)
    requires |parts| >= 1
    requires forall i :: 0 <= i < |parts| ==> sep !in parts[i]
    ensures |Split(Join(parts, [sep]), sep)| == |parts|
  {
    assert [sep] + [] == [sep];
    assert [] + Join(parts, [sep]) == Join(parts, [sep]);
    SplitJoin([], parts, sep, []);
  }

  /** No whitespace at either end. */
  predicate Trimmed(rt: Runtime, s: string) {
    s == [] || (!IsWhiteSpace(rt, s[0]) && !IsWhiteSpace(rt, s[|s| - 1]))
  }

  /** What trimming returns is trimmed. */
  lemma TrimIsTrimmed(rt: Runtime, s: string)
    ensures Trimmed(rt, Trim(rt, s))
  {
  }

  /** Lower-casing keeps a string trimmed. */
  lemma LowerOfTrimmed(rt: Runtime, s: string)
    requires Trimmed(rt, s)
    ensures Trimmed(rt, ToLower(s))
  {
    if s != [] {
      var l := ToLower(s);
      assert l[0] == LowerChar(s[0]) && l[|l| - 1] == LowerChar(s[|s| - 1]);
      LowerKeepsWhiteSpace(rt, s[0]);
      LowerKeepsWhiteSpace(rt, s[|s| - 1]);
    }
  }

  /** Whitespace in front of a trimmed string is what trimming removes. */
  lemma TrimPadded(rt: Runtime, pad: string, s: string)
    requires AllWhiteSpace(rt, pad)
    requires Trimmed(rt, s)
    ensures Trim(rt, pad + s) == s
  {
    var t := TrimStart(rt, pad + s);
    if s == [] {
      assert AllWhiteSpace(rt, pad + s);
    } else {
      assert (pad + s)[|pad|] == s[0];
      assert |t| == |s|;
      assert t == s;
      TrimNoop(rt, s);
    }
  }

  /** Lower-casing a string without upper-case letters changes nothing. */
  lemma ToLowerOfLower(s: string)
    requires IsLower(s)
    ensures ToLower(s) == s
  {
    var r := ToLower(s);
    forall k | 0 <= k < |s|
      ensures r[k] == s[k]
    {
      assert !('A' <= s[k] <= 'Z');
    }
  }

  /** A single space, like the empty string, is all whitespace. */
  lemma SpaceIsWhiteSpace(rt: Runtime)
    ensures AllWhiteSpace(rt, " ") && AllWhiteSpace(rt, [])
  {
  }

  // ----- Decimal digits -----

  /** A decimal digit. */
  predicate IsDigit(c: char) {
    '0' <= c <= '9'
  }

  /** The longest prefix of `s` made of decimal digits. */
  function DigitPrefix(s: string): (r: string)
    ensures |r| <= |s| && r == s[..|r|]
    ensures forall i :: 0 <= i < |r| ==> IsDigit(r[i])
    ensures |r| < |s| ==> !IsDigit(s[|r|])
  {
    if |s| == 0 || !IsDigit(s[0]) then []
    else [s[0]] + DigitPrefix(s[1..])
  }

  /** The number a string of decimal digits spells. */
  function DigitsValue(ds: string): (n: nat)
    decreases |ds|
  {
    if |ds| == 0 then 0
    else
      var d := ds[|ds| - 1] as int - '0' as int;
      DigitsValue(ds[..|ds| - 1]) * 10 + (if 0 <= d <= 9 then d else 0)
  }

  /** The decimal digits of a natural number, as both runtimes print it. */
  function NatText(n: nat): (r: string)
    ensures |r| >= 1
    ensures forall i :: 0 <= i < |r| ==> IsDigit(r[i])
    ensures DigitsValue(r) == n
  {
    var last := [('0' as int + n % 10) as char];
    if n < 10 then last
    else
      var r := NatText(n / 10) + last;
      assert r[..|r| - 1] == NatText(n / 10);
      r
  }

  /** A string of digits is its own digit prefix. */
  lemma {:induction false} DigitPrefixAll(s: string)
    requires forall i :: 0 <= i < |s| ==> IsDigit(s[i])
    ensures DigitPrefix(s) == s
    decreases |s|
  {
    if |s| > 0 {
      DigitPrefixAll(s[1..]);
    }
  }

  /** An integer in decimal, with a minus sign when negative. */
  function IntText(n: int): (r: string)
    ensures |r| >= 1
  {
    if n < 0 then "-" + NatText(-n) else NatText(n)
  }
}
