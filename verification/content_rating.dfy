/** TV content ratings: formatting a rating with its content indicators as
    text, parsing such text back, the show rating chosen from its seasons, and
    the rating derived from AniDB tags. */
module ContentRating {
  import opened Wrappers
  import opened Variants
  import Strings
  import Seqs

  /** The ratings, in increasing order of restriction. */
  datatype TvRating = NoRating | TvG | TvY | TvY7 | TvPG | Tv14 | TvMA | Xxx

  /** The enum's underlying value; the source compares ratings by it. */
  function Level(r: TvRating): nat
  {
    match r
    case NoRating => 0
    case TvG => 1
    case TvY => 2
    case TvY7 => 3
    case TvPG => 4
    case Tv14 => 5
    case TvMA => 6
    case Xxx => 7
  }

  /** Content indicators are enum values; parsing can yield values without a
      name, so they are kept as integers. */
  type Indicator = int

  const FV: Indicator := 1
  const D: Indicator := 2
  const L: Indicator := 3
  const S: Indicator := 4
  const V: Indicator := 5

  /** The name of a named indicator. */
  function IndicatorName(i: Indicator): string
    requires FV <= i <= V
  {
    if i == FV then "FV" else if i == D then "D" else if i == L then "L" else if i == S then "S" else "V"
  }

  /** The rating's text code after "TV-" (the whole description for XXX). */
  function RatingCode(r: TvRating): string
    requires r != NoRating
  {
    match r
    case TvG => "G"
    case TvY => "Y"
    case TvY7 => "Y7"
    case TvPG => "PG"
    case Tv14 => "14"
    case TvMA => "MA"
    case Xxx => "XXX"
  }

  /** The rating's description attribute; NoRating has none. */
  function Description(r: TvRating): Option<string>
  {
    match r
    case NoRating => None
    case Xxx => Some(RatingCode(r))
    case _ => Some("TV-" + RatingCode(r))
  }

  /** The indicators a rating may carry, in declaration order. */
  function AllowedIndicators(r: TvRating): (a: seq<Indicator>)
    ensures forall k :: 0 <= k < |a| ==> FV <= a[k] <= V
    ensures Seqs.NoDuplicates(a)
  {
    match r
    case TvY7 => [FV]
    case TvPG => [D, L, S, V]
    case Tv14 => [D, L, S, V]
    case TvMA => [D, L, S, V]
    case Xxx => [L, S, V]
    case _ => []
  }

  /** The elements of `allowed` that are in `given`, in `allowed`'s order (LINQ `Intersect`). */
  function Shown(allowed: seq<Indicator>, given: set<Indicator>): (r: seq<Indicator>)
    ensures forall x :: x in r <==> x in allowed && x in given
    ensures forall k :: 0 <= k < |r| ==> r[k] in allowed
    ensures Seqs.Subsequence(r, allowed)
    decreases |allowed|
  {
    if |allowed| == 0 then []
    else
      var rest := Shown(allowed[1..], given);
      if allowed[0] in given then
        assert ([allowed[0]] + rest)[1..] == rest;
        [allowed[0]] + rest
      else
        assert |rest| > 0 ==> rest[0] in rest && rest[0] != allowed[0];
        rest
  }

  /** The names of the indicators, concatenated. */
  function Names(xs: seq<Indicator>): string
    requires forall k :: 0 <= k < |xs| ==> FV <= xs[k] <= V
  {
    if |xs| == 0 then [] else IndicatorName(xs[0]) + Names(xs[1..])
  }

  /** ConvertRatingToText: no text for NoRating; otherwise the description,
      followed by "-" and the names of the given indicators the rating allows,
      when there are any. */
  function FormatRating(r: TvRating, given: set<Indicator>): (t: Option<string>)
    ensures t.None? <==> r == NoRating
    ensures t.Some? ==> Strings.StartsWith(t.value, Description(r).value)
    ensures t.Some? && Shown(AllowedIndicators(r), given) == [] ==> t.value == Description(r).value
    ensures t.Some? && Shown(AllowedIndicators(r), given) != [] ==>
      Strings.StartsWith(t.value, Description(r).value + "-")
  {
    match Description(r)
    case None => None
    case Some(desc) =>
      var shown := Shown(AllowedIndicators(r), given);
      if |shown| > 0 then Some(desc + "-" + Names(shown)) else Some(desc)
  }

  /** A parsed rating text. */
  datatype Parsed = Parsed(rating: TvRating, indicators: set<Indicator>)

  /** Lower-cased, trimmed, and with '-' and '_' removed. */
  function Normalize(s: string): string
  {
    Strings.RemoveChar(Strings.RemoveChar(Strings.Trim(Strings.DotNet, Strings.ToLower(s)), '-'), '_')
  }

  /** Normalised text holds no dash, no underscore and no upper-case ASCII
      letter, and only characters of the lower-cased input. */
  lemma NormalizeShape(s: string)
    ensures '-' !in Normalize(s) && '_' !in Normalize(s)
    ensures forall k :: 0 <= k < |Normalize(s)| ==> !('A' <= Normalize(s)[k] <= 'Z')
    ensures forall x :: x in Normalize(s) ==> x in Strings.ToLower(s)
  {
    var l := Strings.ToLower(s);
    Strings.TrimSubset(Strings.DotNet, l);
    LowerHasNoUpper(s);
    var r := Normalize(s);
    assert forall k :: 0 <= k < |r| ==> r[k] in r;
  }

  /** Lower-cased text holds no upper-case ASCII letter. */
  lemma LowerHasNoUpper(s: string)
    ensures forall x :: x in Strings.ToLower(s) ==> !('A' <= x <= 'Z')
  {
    var l := Strings.ToLower(s);
    forall x | x in l
      ensures !('A' <= x <= 'Z')
    {
      var k :| 0 <= k < |l| && l[k] == x;
      assert x == Strings.LowerChar(s[k]);
    }
  }


  // ----- Parsing as the source writes it -----

  function OneLetterRating(c: char): TvRating
  {
    if c == 'y' then TvY else if c == 'g' then TvG else NoRating
  }

  function TwoLetterRating(s: string): TvRating
  {
    if s == "y7" then TvY7 else if s == "pg" then TvPG else if s == "14" then Tv14 else if s == "ma" then TvMA else NoRating
  }

  function ThreeLetterRating(s: string): TvRating
  {
    if s == "xxx" then Xxx else NoRating
  }

  /** `Enum.TryParse` of a one-character string: a digit parses as its numeric
      value, named or not; a letter parses only as an exact, upper-case name. */
  function ParseIndicatorChar(c: char): (r: Option<Indicator>)
    ensures r.Some? ==> 0 <= r.value <= 9
    ensures 'a' <= c <= 'z' ==> r.None?
  {
    if '0' <= c <= '9' then Some(c as int - '0' as int)
    else if c == 'D' then Some(D)
    else if c == 'L' then Some(L)
    else if c == 'S' then Some(S)
    else if c == 'V' then Some(V)
    else None
  }

  /** Every character parsed on its own; the first failure fails the whole. */
  function ParseIndicatorsAsWritten(s: string): (r: Option<set<Indicator>>)
    ensures r.Some? <==> forall k :: 0 <= k < |s| ==> ParseIndicatorChar(s[k]).Some?
    ensures r.Some? ==> forall x :: x in r.value <==> exists k :: 0 <= k < |s| && ParseIndicatorChar(s[k]) == Some(x)
    decreases |s|
  {
    if |s| == 0 then Some({})
    else
      var rest := ParseIndicatorsAsWritten(s[1..]);
      assert forall k :: 1 <= k < |s| ==> s[k] == s[1..][k - 1];
      match (ParseIndicatorChar(s[0]), rest)
      case (Some(i), Some(more)) =>
        assert forall x :: x in more ==> exists k :: 0 <= k < |s| && ParseIndicatorChar(s[k]) == Some(x);
        Some({i} + more)
      case _ => None
  }

  /** The rating and indicators of normalised text, as the source writes it.
      The C# ranges `[0..1]` and `[0..2]` are one and two characters long, so
      the comparisons with "tv", the two-letter codes and "xxx" can never hold:
      only text that starts with 'y' or 'g' parses. */
  function ParseNormalizedAsWritten(v0: string): (r: Option<Parsed>)
    ensures r.Some? ==> r.value.rating == TvY || r.value.rating == TvG
    ensures r.Some? ==> |v0| > 0 && v0[0] in {'y', 'g'}
  {
    var v := if |v0| > 1 && v0[0..1] == "tv" then Strings.Drop(v0, 2) else v0;
    var r1 := if |v| > 0 then OneLetterRating(v[0]) else NoRating;
    var off1 := if r1 != NoRating then 1 else 0;
    var r2 := if r1 == NoRating && |v| > 1 then TwoLetterRating(v[0..1]) else r1;
    var off2 := if r1 == NoRating && r2 != NoRating then 2 else off1;
    var r3 := if r2 == NoRating && |v| > 2 then ThreeLetterRating(v[0..2]) else r2;
    var off3 := if r2 == NoRating && r3 != NoRating then 3 else off2;
    if r3 == NoRating then None
    else if |v| <= off3 then Some(Parsed(r3, {}))
    else match ParseIndicatorsAsWritten(v[off3..])
      case None => None
      case Some(inds) => Some(Parsed(r3, inds))
  }

  /** TryConvertRatingFromText as written: no rating for missing or empty text,
      otherwise the as-written parse of the normalised text. */
  function TryConvertRatingFromTextAsWritten(value: Option<string>): (r: Option<Parsed>)
    ensures value.None? || value.value == [] ==> r.None?
    ensures r.Some? ==> r.value.rating == TvY || r.value.rating == TvG
    ensures r.Some? ==> |Normalize(value.value)| > 0 && Normalize(value.value)[0] in {'y', 'g'}
  {
    if value.None? || value.value == [] then None
    else ParseNormalizedAsWritten(Normalize(value.value))
  }

  /** The formatted TV-PG rating does not parse back as written: "TV-PG"
      normalises to "tvpg", whose first character is neither 'y' nor 'g'. */
  lemma AsWrittenMissesTwoLetterCodes(s: string)
    requires s == "TV-PG"
    ensures FormatRating(TvPG, {}) == Some(s)
    ensures TryConvertRatingFromTextAsWritten(Some(s)) == None
    ensures TryConvertRatingFromText(Some(s)) == Some(Parsed(TvPG, {}))
  {
    FormattedCode(TvPG, {});
    assert "TV-" + RatingCode(TvPG) == s;
    NormalizeTvPg(s);
    AsWrittenNeedsYOrG("tvpg");
    ReadTvPg(s);
  }

  /** With no indicator to show, a rating other than XXX is written as "TV-"
      and its code. */
  lemma FormattedCode(r: TvRating, given: set<Indicator>)
    requires r != NoRating && r != Xxx
    requires forall x :: x in AllowedIndicators(r) ==> x !in given
    ensures FormatRating(r, given) == Some("TV-" + RatingCode(r))
  {
  }

  /** Normalised text that starts with neither 'y' nor 'g' never parses as written. */
  lemma AsWrittenNeedsYOrG(v0: string)
    requires |v0| > 0 && v0[0] != 'y' && v0[0] != 'g'
    ensures ParseNormalizedAsWritten(v0) == None
  {
  }

  lemma NormalizeTvPg(s: string)
    requires s == "TV-PG"
    ensures Normalize(s) == "tvpg"
  {
    NormalizeAlnumEnds(s);
    SquashTvPg(s);
  }

  lemma SquashTvPg(s: string)
    requires s == "TV-PG"
    ensures Squash(s) == "tvpg"
  {
    assert s == "TV" + "-" + "PG";
    SquashAppend("TV" + "-", "PG");
    SquashAppend("TV", "-");
    SquashDash();
    SquashPlain("TV");
    SquashPlain("PG");
    assert Strings.ToLower("TV") == "tv" && Strings.ToLower("PG") == "pg";
  }

  /** The intended parser reads "TV-PG" back. */
  lemma ReadTvPg(s: string)
    requires s == "TV-PG"
    ensures TryConvertRatingFromText(Some(s)) == Some(Parsed(TvPG, {}))
  {
    FormattedCode(TvPG, {});
    assert "TV-" + RatingCode(TvPG) == s;
    FormatParseRoundTrip(TvPG, {});
    assert ShownSet(TvPG, {}) == {};
  }

  lemma SquashYD(s: string)
    requires s == "Y-D"
    ensures Squash(s) == "yd"
  {
    assert s == "Y" + "-" + "D";
    SquashAppend("Y" + "-", "D");
    SquashAppend("Y", "-");
    SquashDash();
    SquashPlain("Y");
    SquashPlain("D");
    assert Strings.ToLower("Y") == "y" && Strings.ToLower("D") == "d";
  }

  lemma NormalizeYD(s: string)
    requires s == "Y-D"
    ensures Normalize(s) == "yd"
  {
    NormalizeAlnumEnds(s);
    SquashYD(s);
  }

  lemma ParseYD(v: string)
    requires v == "yd"
    ensures ParseNormalizedAsWritten(v) == None
    ensures ParseNormalized(v) == Some(Parsed(TvY, {D}))
  {
    assert v[1..] == "d";
    assert v[..2] == v && v[1] == 'd';
    assert LeadingRating(v) == (TvY, 1);
    var d := v[1..];
    assert d[0] == 'd' && |d| == 1 && d[1..] == [];
    assert !Strings.StartsWith(d, "fv");
    assert ParseIndicators(d[1..]) == Some({});
    assert {D} + {} == {D};
  }

  /** An indicator letter never parses as written: "Y-D" normalises to "yd",
      and the lower-case "d" is not an indicator name. */
  lemma AsWrittenRejectsIndicatorLetters(s: string)
    requires s == "Y-D"
    ensures TryConvertRatingFromTextAsWritten(Some(s)) == None
    ensures TryConvertRatingFromText(Some(s)) == Some(Parsed(TvY, {D}))
  {
    NormalizeYD(s);
    ParseYD(Normalize(s));
  }

  /** As written, the one-letter 'y' is tested before "y7", and a digit is an
      indicator: normalised text starting "y7" never reads as TV-Y7 but, when it
      parses at all, as TV-Y carrying indicator 7. Read as intended it is TV-Y7. */
  lemma AsWrittenReadsY7AsY(v: string)
    requires |v| >= 2 && v[0] == 'y' && v[1] == '7'
    ensures ParseNormalizedAsWritten(v).Some? ==>
      ParseNormalizedAsWritten(v).value.rating == TvY && 7 in ParseNormalizedAsWritten(v).value.indicators
    ensures ParseNormalizedAsWritten(v).Some? <==> ParseIndicatorsAsWritten(v[1..]).Some?
    ensures ParseNormalized(v).Some? ==> ParseNormalized(v).value.rating == TvY7
  {
    assert v[0..1] == "y";
    var d := v[1..];
    assert d[0] == '7';
    assert ParseIndicatorChar(d[0]) == Some(7);
    assert Strings.StartsWith(v, "y7");
  }

  /** "Y7" reads back as TV-Y with indicator 7 as written, and as TV-Y7 as intended. */
  lemma AsWrittenReadsY7Text(s: string)
    requires s == "Y7"
    ensures TryConvertRatingFromTextAsWritten(Some(s)) == Some(Parsed(TvY, {7}))
    ensures TryConvertRatingFromText(Some(s)) == Some(Parsed(TvY7, {}))
  {
    NormalizeY7(s);
    ParseY7(Normalize(s));
  }

  lemma NormalizeY7(s: string)
    requires s == "Y7"
    ensures Normalize(s) == "y7"
  {
    NormalizeAlnumEnds(s);
    SquashPlain(s);
    assert Strings.ToLower(s) == "y7";
  }

  lemma ParseY7(v: string)
    requires v == "y7"
    ensures ParseNormalizedAsWritten(v) == Some(Parsed(TvY, {7}))
    ensures ParseNormalized(v) == Some(Parsed(TvY7, {}))
  {
    assert v[0..1] == "y" && v[1..] == "7" && v[2..] == [];
    assert v[0..1] != "tv" && OneLetterRating(v[0]) == TvY;
    assert "7"[1..] == [] && ParseIndicatorChar('7') == Some(7);
    assert ParseIndicatorsAsWritten("7") == Some({7} + {});
    assert {7} + {} == {7};
    assert ParseIndicatorsAsWritten(v[1..]) == Some({7});
    assert !Strings.StartsWith(v, "tv");
    assert Strings.StartsWith(v, "y7") && LeadingRating(v) == (TvY7, 2);
  }

  // ----- Parsing as intended -----

  /** The rating code at the start of `v`, longest code first, and its length. */
  function LeadingRating(v: string): (r: (TvRating, nat))
    ensures r.1 <= |v|
    ensures r.0 == NoRating <==> r.1 == 0
  {
    if Strings.StartsWith(v, "xxx") then (Xxx, 3)
    else if Strings.StartsWith(v, "y7") then (TvY7, 2)
    else if Strings.StartsWith(v, "pg") then (TvPG, 2)
    else if Strings.StartsWith(v, "14") then (Tv14, 2)
    else if Strings.StartsWith(v, "ma") then (TvMA, 2)
    else if |v| > 0 && v[0] == 'y' then (TvY, 1)
    else if |v| > 0 && v[0] == 'g' then (TvG, 1)
    else (NoRating, 0)
  }

  /** The indicators of lower-cased text, read case-insensitively, "fv" as one name. */
  function ParseIndicators(s: string): (r: Option<set<Indicator>>)
    ensures r.Some? ==> forall x :: x in r.value ==> 0 <= x <= 9
    decreases |s|
  {
    if |s| == 0 then Some({})
    else
      var (i, n) :=
        if Strings.StartsWith(s, "fv") then (Some(FV), 2)
        else if s[0] == 'd' then (Some(D), 1)
        else if s[0] == 'l' then (Some(L), 1)
        else if s[0] == 's' then (Some(S), 1)
        else if s[0] == 'v' then (Some(V), 1)
        else (ParseIndicatorChar(s[0]), 1);
      match (i, ParseIndicators(s[n..]))
      case (Some(x), Some(rest)) => Some({x} + rest)
      case _ => None
  }

  /** The rating and indicators of normalised text, with the prefix slices
      of the intended length: the optional "tv" prefix is dropped, the longest
      rating code is read, and the remaining characters are indicator names. */
  function ParseNormalized(v0: string): (r: Option<Parsed>)
    ensures r.Some? ==> r.value.rating != NoRating
  {
    ParseCoded(if Strings.StartsWith(v0, "tv") then v0[2..] else v0)
  }

  /** The rating and indicators of normalised text once the "tv" prefix is
      gone: the longest rating code, then indicator names. */
  function ParseCoded(v: string): (r: Option<Parsed>)
    ensures r.Some? ==> r.value.rating != NoRating
    ensures r.Some? ==> Strings.StartsWith(v, LowerCode(r.value.rating))
  {
    var (rating, n) := LeadingRating(v);
    if rating == NoRating then None
    else match ParseIndicators(v[n..])
      case None => None
      case Some(inds) => Some(Parsed(rating, inds))
  }

  /** TryConvertRatingFromText as intended: no rating for missing or empty
      text, otherwise the parse of the normalised text. */
  function TryConvertRatingFromText(value: Option<string>): (r: Option<Parsed>)
    ensures value.None? || value.value == [] ==> r.None?
    ensures r.Some? ==> r.value.rating != NoRating
  {
    if value.None? || value.value == [] then None
    else ParseNormalized(Normalize(value.value))
  }

  // ----- Round trip of the intended parser -----

  /** Lower-cased with dashes and underscores dropped, character by character. */
  function Squash(s: string): string
  {
    Strings.RemoveChar(Strings.RemoveChar(Strings.ToLower(s), '-'), '_')
  }

  lemma SquashAppend(a: string, b: string)
    ensures Squash(a + b) == Squash(a) + Squash(b)
  {
    assert Strings.ToLower(a + b) == Strings.ToLower(a) + Strings.ToLower(b);
    Strings.RemoveCharAppend(Strings.ToLower(a), Strings.ToLower(b), '-');
    Strings.RemoveCharAppend(Strings.RemoveChar(Strings.ToLower(a), '-'), Strings.RemoveChar(Strings.ToLower(b), '-'), '_');
  }

  /** Text without dashes or underscores only has its case lowered. */
  lemma SquashPlain(s: string)
    requires '-' !in s && '_' !in s
    ensures Squash(s) == Strings.ToLower(s)
  {
    var t := Strings.ToLower(s);
    assert forall i :: 0 <= i < |t| ==> t[i] == Strings.LowerChar(s[i]) && s[i] in s;
    Strings.RemoveCharAbsent(t, '-');
    Strings.RemoveCharAbsent(t, '_');
  }

  lemma SquashDash()
    ensures Squash("-") == []
  {
    assert Strings.ToLower("-") == "-";
    assert Strings.RemoveChar("-", '-') == [];
  }

  predicate IsAlnum(c: char)
  {
    'a' <= c <= 'z' || 'A' <= c <= 'Z' || '0' <= c <= '9'
  }

  /** Text that begins and ends with a letter or digit is normalised without trimming. */
  lemma NormalizeAlnumEnds(s: string)
    requires |s| > 0 && IsAlnum(s[0]) && IsAlnum(s[|s| - 1])
    ensures Normalize(s) == Squash(s)
  {
    var t := Strings.ToLower(s);
    assert IsAlnum(t[0]) && IsAlnum(t[|t| - 1]);
    Strings.TrimNoop(Strings.DotNet, t);
  }

  /** The lower-case form of an indicator name. */
  function LowerName(i: Indicator): string
    requires FV <= i <= V
  {
    if i == FV then "fv" else if i == D then "d" else if i == L then "l" else if i == S then "s" else "v"
  }

  /** The lower-case indicator names, concatenated. */
  function LowerNames(xs: seq<Indicator>): string
    requires forall k :: 0 <= k < |xs| ==> FV <= xs[k] <= V
  {
    if |xs| == 0 then [] else LowerName(xs[0]) + LowerNames(xs[1..])
  }

  /** The elements of `xs` as a set. */
  function SetOf(xs: seq<Indicator>): (r: set<Indicator>)
    ensures forall x :: x in r <==> x in xs
  {
    if |xs| == 0 then {} else {xs[0]} + SetOf(xs[1..])
  }

  /** An indicator name squashes to its lower-case form. */
  lemma SquashName(x: Indicator)
    requires FV <= x <= V
    ensures Squash(IndicatorName(x)) == LowerName(x)
  {
    SquashPlain(IndicatorName(x));
  }

  lemma {:induction false} SquashNames(xs: seq<Indicator>)
    requires forall k :: 0 <= k < |xs| ==> FV <= xs[k] <= V
    ensures Squash(Names(xs)) == LowerNames(xs)
    decreases |xs|
  {
    if |xs| > 0 {
      SquashAppend(IndicatorName(xs[0]), Names(xs[1..]));
      SquashNames(xs[1..]);
      SquashName(xs[0]);
    }
  }

  /** One indicator name in front of more text parses as that indicator. */
  lemma ParseIndicatorsCons(x: Indicator, rest: string)
    requires FV <= x <= V
    ensures ParseIndicators(LowerName(x) + rest) ==
      match ParseIndicators(rest)
      case Some(inds) => Some({x} + inds)
      case None => None
  {
    var s := LowerName(x) + rest;
    if x == FV {
      assert s[..2] == "fv";
      assert s[2..] == rest;
    } else {
      assert s[0] != 'f';
      assert s[1..] == rest;
    }
  }

  lemma {:induction false} ParseLowerNames(xs: seq<Indicator>)
    requires forall k :: 0 <= k < |xs| ==> FV <= xs[k] <= V
    ensures ParseIndicators(LowerNames(xs)) == Some(SetOf(xs))
    decreases |xs|
  {
    if |xs| > 0 {
      ParseLowerNames(xs[1..]);
      ParseIndicatorsCons(xs[0], LowerNames(xs[1..]));
    }
  }

  /** A rating code squashes to its lower-case form. */
  lemma SquashCode(r: TvRating)
    requires r != NoRating
    ensures Squash(RatingCode(r)) == LowerCode(r)
  {
    SquashPlain(RatingCode(r));
  }

  /** The "TV-" in front of a code squashes to "tv". */
  lemma SquashTvDash()
    ensures Squash("TV-") == "tv"
  {
    assert "TV-" == "TV" + "-";
    SquashAppend("TV", "-");
    SquashDash();
    SquashPlain("TV");
  }

  /** Squashed rating descriptions: "tv" and the lower-case code, or "xxx". */
  lemma SquashDescription(r: TvRating)
    requires r != NoRating
    ensures Squash(Description(r).value) == (if r == Xxx then [] else "tv") + LowerCode(r)
  {
    SquashCode(r);
    if r != Xxx {
      SquashAppend("TV-", RatingCode(r));
      SquashTvDash();
    }
  }

  /** The lower-case code of a rating. */
  function LowerCode(r: TvRating): (c: string)
    requires r != NoRating
    ensures |c| > 0
  {
    match r
    case TvG => "g"
    case TvY => "y"
    case TvY7 => "y7"
    case TvPG => "pg"
    case Tv14 => "14"
    case TvMA => "ma"
    case Xxx => "xxx"
  }

  /** The longest code is the rating's own, whatever indicator names follow. */
  lemma LeadingRatingOfCode(r: TvRating, rest: string)
    requires r != NoRating
    requires rest == [] || rest[0] in {'f', 'd', 'l', 's', 'v'}
    requires r == TvG || r == TvY ==> rest == []
    ensures LeadingRating(LowerCode(r) + rest) == (r, |LowerCode(r)|)
  {
    var v := LowerCode(r) + rest;
    assert v[..|LowerCode(r)|] == LowerCode(r);
  }

  lemma LowerNamesStart(xs: seq<Indicator>)
    requires forall k :: 0 <= k < |xs| ==> FV <= xs[k] <= V
    ensures LowerNames(xs) == [] <==> xs == []
    ensures LowerNames(xs) != [] ==> LowerNames(xs)[0] in {'f', 'd', 'l', 's', 'v'}
  {
    if |xs| > 0 {
      var n := LowerName(xs[0]);
      assert |n| > 0 && n[0] in {'f', 'd', 'l', 's', 'v'};
      assert LowerNames(xs) == n + LowerNames(xs[1..]);
      assert LowerNames(xs)[0] == n[0];
    }
  }

  lemma {:induction false} NamesLastAlnum(xs: seq<Indicator>)
    requires |xs| > 0
    requires forall k :: 0 <= k < |xs| ==> FV <= xs[k] <= V
    ensures |Names(xs)| > 0 && IsAlnum(Names(xs)[|Names(xs)| - 1])
    decreases |xs|
  {
    if |xs| > 1 {
      NamesLastAlnum(xs[1..]);
    }
  }

  /** The allowed indicators among `given`, as a set. */
  function ShownSet(r: TvRating, given: set<Indicator>): (s: set<Indicator>)
    ensures forall x :: x in s <==> x in AllowedIndicators(r) && x in given
  {
    SetOf(Shown(AllowedIndicators(r), given))
  }

  /** The "tv" prefix the normalised description of a rating starts with. */
  function TvPrefix(r: TvRating): string
  {
    if r == Xxx then [] else "tv"
  }

  /** A formatted rating squashes to the prefix, the lower-case code and the
      lower-case indicator names. */
  lemma SquashFormatted(r: TvRating, given: set<Indicator>)
    requires r != NoRating
    ensures Squash(FormatRating(r, given).value)
         == TvPrefix(r) + LowerCode(r) + LowerNames(Shown(AllowedIndicators(r), given))
  {
    var shown := Shown(AllowedIndicators(r), given);
    SquashDescription(r);
    if |shown| > 0 {
      SquashFormattedShown(r, given);
    } else {
      assert FormatRating(r, given).value == Description(r).value;
      assert LowerNames(shown) == [];
    }
  }

  /** `SquashFormatted` when some indicator is shown. */
  lemma SquashFormattedShown(r: TvRating, given: set<Indicator>)
    requires r != NoRating && |Shown(AllowedIndicators(r), given)| > 0
    ensures Squash(FormatRating(r, given).value)
         == TvPrefix(r) + LowerCode(r) + LowerNames(Shown(AllowedIndicators(r), given))
  {
    var desc := Description(r).value;
    var shown := Shown(AllowedIndicators(r), given);
    var names := Names(shown);
    assert FormatRating(r, given).value == desc + "-" + names;
    SquashDescription(r);
    SquashAppend(desc + "-", names);
    SquashAppend(desc, "-");
    SquashDash();
    SquashNames(shown);
    assert Squash(desc + "-") == Squash(desc);
  }

  /** A formatted rating begins and ends with a letter or digit. */
  lemma FormattedAlnumEnds(r: TvRating, given: set<Indicator>)
    requires r != NoRating
    ensures var t := FormatRating(r, given).value; |t| > 0 && IsAlnum(t[0]) && IsAlnum(t[|t| - 1])
  {
    var shown := Shown(AllowedIndicators(r), given);
    if |shown| > 0 {
      NamesLastAlnum(shown);
    }
  }

  /** A formatted rating normalises to the prefix, the lower-case code and the
      lower-case indicator names. */
  lemma NormalizeFormatted(r: TvRating, given: set<Indicator>)
    requires r != NoRating
    ensures Normalize(FormatRating(r, given).value)
         == TvPrefix(r) + LowerCode(r) + LowerNames(Shown(AllowedIndicators(r), given))
  {
    FormattedAlnumEnds(r, given);
    NormalizeAlnumEnds(FormatRating(r, given).value);
    SquashFormatted(r, given);
  }

  /** A rating code followed by indicator names parses to that rating and
      those indicators. */
  lemma ParseCodedNames(r: TvRating, xs: seq<Indicator>)
    requires r != NoRating
    requires forall k :: 0 <= k < |xs| ==> FV <= xs[k] <= V
    requires r == TvG || r == TvY ==> xs == []
    ensures ParseCoded(LowerCode(r) + LowerNames(xs)) == Some(Parsed(r, SetOf(xs)))
  {
    var names := LowerNames(xs);
    ParseLowerNames(xs);
    LowerNamesStart(xs);
    LeadingRatingOfCode(r, names);
    assert (LowerCode(r) + names)[|LowerCode(r)|..] == names;
  }

  /** The "tv" prefix, and only it, is dropped in front of a rating code. */
  lemma DropTvPrefix(r: TvRating, rest: string)
    requires r != NoRating
    ensures var v0 := TvPrefix(r) + LowerCode(r) + rest;
      (if Strings.StartsWith(v0, "tv") then v0[2..] else v0) == LowerCode(r) + rest
  {
    var v0 := TvPrefix(r) + LowerCode(r) + rest;
    if r == Xxx {
      assert v0 == LowerCode(r) + rest;
      assert v0[0] == 'x';
    } else {
      assert v0[..2] == "tv";
      assert v0[2..] == LowerCode(r) + rest;
    }
  }

  /** A prefix, a rating code and indicator names parse to that rating and
      those indicators. */
  lemma ParseCodeAndNames(r: TvRating, xs: seq<Indicator>)
    requires r != NoRating
    requires forall k :: 0 <= k < |xs| ==> FV <= xs[k] <= V
    requires r == TvG || r == TvY ==> xs == []
    ensures ParseNormalized(TvPrefix(r) + LowerCode(r) + LowerNames(xs)) == Some(Parsed(r, SetOf(xs)))
  {
    DropTvPrefix(r, LowerNames(xs));
    ParseCodedNames(r, xs);
  }

  /** A formatted rating is read by parsing its normalised text. */
  lemma FormattedParses(r: TvRating, given: set<Indicator>)
    requires r != NoRating
    ensures TryConvertRatingFromText(FormatRating(r, given))
         == ParseNormalized(TvPrefix(r) + LowerCode(r) + LowerNames(Shown(AllowedIndicators(r), given)))
  {
    NormalizeFormatted(r, given);
    FormattedAlnumEnds(r, given);
  }

  /** Every rating text the formatter produces parses back to its rating and the
      allowed indicators it was given. */
  lemma FormatParseRoundTrip(r: TvRating, given: set<Indicator>)
    requires r != NoRating
    ensures TryConvertRatingFromText(FormatRating(r, given)) == Some(Parsed(r, ShownSet(r, given)))
  {
    var shown := Shown(AllowedIndicators(r), given);
    FormattedParses(r, given);
    ParseCodeAndNames(r, shown);
  }

  // ----- Show rating -----

  /** TryConvertRatingFromText in the chosen reading. */
  function Convert(v: Variant, value: Option<string>): (r: Option<Parsed>)
    ensures value.None? || value.value == [] ==> r.None?
    ensures r.Some? ==> r.value.rating != NoRating
    ensures v == AsWritten && r.Some? ==> r.value.rating == TvY || r.value.rating == TvG
    ensures v == Intended ==> r == TryConvertRatingFromText(value)
  {
    if v == AsWritten then TryConvertRatingFromTextAsWritten(value) else TryConvertRatingFromText(value)
  }

  /** The successful parses of the given rating texts, in order. */
  function ParseAll(v: Variant, texts: seq<string>): (ps: seq<Parsed>)
    ensures forall p :: p in ps ==> p.rating != NoRating
    decreases |texts|
  {
    if |texts| == 0 then []
    else
      var rest := ParseAll(v, texts[1..]);
      var c := Convert(v, Some(texts[0]));
      if c.Some? then [c.value] + rest else rest
  }

  /** As written, every parse is TV-Y or TV-G. */
  lemma {:induction false} ParseAllAsWritten(texts: seq<string>)
    ensures forall p :: p in ParseAll(AsWritten, texts) ==> p.rating == TvY || p.rating == TvG
    decreases |texts|
  {
    if |texts| > 0 {
      ParseAllAsWritten(texts[1..]);
      var c := Convert(AsWritten, Some(texts[0]));
      assert c.Some? ==> c.value.rating == TvY || c.value.rating == TvG;
    }
  }

  /** Some text of `texts` parses to `p`. */
  ghost predicate ParsesTo(v: Variant, texts: seq<string>, p: Parsed)
  {
    exists t :: t in texts && Convert(v, Some(t)) == Some(p)
  }

  /** `ParseAll` keeps exactly the parses of its texts. */
  lemma {:induction false} ParseAllMembers(v: Variant, texts: seq<string>, p: Parsed)
    ensures p in ParseAll(v, texts) <==> ParsesTo(v, texts, p)
    decreases |texts|
  {
    if |texts| > 0 {
      ParseAllMembers(v, texts[1..], p);
      if ParsesTo(v, texts, p) && Convert(v, Some(texts[0])) != Some(p) {
        var t :| t in texts && Convert(v, Some(t)) == Some(p);
        assert t in texts[1..];
      }
      if ParsesTo(v, texts[1..], p) {
        var t :| t in texts[1..] && Convert(v, Some(t)) == Some(p);
        assert t in texts;
      }
    }
  }

  /** The highest rating among `ps`, NoRating when there is none. */
  function MaxRating(ps: seq<Parsed>): (m: TvRating)
    ensures forall k :: 0 <= k < |ps| ==> Level(ps[k].rating) <= Level(m)
    ensures |ps| > 0 ==> exists k :: 0 <= k < |ps| && ps[k].rating == m
    ensures |ps| == 0 ==> m == NoRating
    decreases |ps|
  {
    if |ps| == 0 then NoRating
    else
      var m := MaxRating(ps[1..]);
      var r := if Level(ps[0].rating) >= Level(m) then ps[0].rating else m;
      assert forall k :: 1 <= k < |ps| ==> ps[k] == ps[1..][k - 1];
      r
  }

  /** The union of the indicators of the entries rated `m`. */
  function IndicatorsAt(ps: seq<Parsed>, m: TvRating): (s: set<Indicator>)
    ensures forall x :: x in s <==> exists k :: 0 <= k < |ps| && ps[k].rating == m && x in ps[k].indicators
    decreases |ps|
  {
    if |ps| == 0 then {}
    else
      var rest := IndicatorsAt(ps[1..], m);
      assert forall k :: 1 <= k < |ps| ==> ps[k] == ps[1..][k - 1];
      (if ps[0].rating == m then ps[0].indicators else {}) + rest
  }

  /** Every entry's rating is at most the highest rating. */
  lemma MaxRatingBound(ps: seq<Parsed>, p: Parsed)
    requires p in ps
    ensures Level(p.rating) <= Level(MaxRating(ps))
  {
    var k :| 0 <= k < |ps| && ps[k] == p;
  }

  /** Distinct ratings have distinct levels. */
  lemma LevelInjective(a: TvRating, b: TvRating)
    requires Level(a) == Level(b)
    ensures a == b
  {
  }

  /** Two lists with the same elements have the same highest rating. */
  lemma MaxRatingOfSameElements(a: seq<Parsed>, b: seq<Parsed>)
    requires forall p :: p in a <==> p in b
    ensures MaxRating(a) == MaxRating(b)
  {
    var ma, mb := MaxRating(a), MaxRating(b);
    SameElementsEmpty(a, b);
    if |a| > 0 {
      var i :| 0 <= i < |a| && a[i].rating == ma;
      var j :| 0 <= j < |b| && b[j].rating == mb;
      MaxRatingBound(b, a[i]);
      MaxRatingBound(a, b[j]);
      LevelInjective(ma, mb);
    }
  }

  /** Two lists with the same elements are empty together. */
  lemma SameElementsEmpty<T>(a: seq<T>, b: seq<T>)
    requires forall p :: p in a <==> p in b
    ensures |a| == 0 <==> |b| == 0
  {
    if |a| > 0 {
      assert a[0] in b;
    }
    if |b| > 0 {
      assert b[0] in a;
    }
  }

  /** Two lists with the same elements have the same indicators at any rating. */
  lemma IndicatorsAtOfSameElements(a: seq<Parsed>, b: seq<Parsed>, m: TvRating)
    requires forall p :: p in a <==> p in b
    ensures IndicatorsAt(a, m) == IndicatorsAt(b, m)
  {
    forall x | x in IndicatorsAt(a, m)
      ensures x in IndicatorsAt(b, m)
    {
      var k :| 0 <= k < |a| && a[k].rating == m && x in a[k].indicators;
      assert a[k] in b;
      var j :| 0 <= j < |b| && b[j] == a[k];
    }
    forall x | x in IndicatorsAt(b, m)
      ensures x in IndicatorsAt(a, m)
    {
      var k :| 0 <= k < |b| && b[k].rating == m && x in b[k].indicators;
      assert b[k] in a;
      var j :| 0 <= j < |a| && a[j] == b[k];
    }
  }

  /** The texts that are present and not empty. */
  function NonEmptyTexts(ratings: seq<Option<string>>): (ts: seq<string>)
    ensures forall t :: t in ts <==> Some(t) in ratings && t != []
    decreases |ratings|
  {
    if |ratings| == 0 then []
    else
      var rest := NonEmptyTexts(ratings[1..]);
      assert forall o :: o in ratings <==> o == ratings[0] || o in ratings[1..];
      match ratings[0]
      case Some(t) => if t != [] then [t] + rest else rest
      case None => rest
  }

  /** Dropping duplicate texts changes neither the highest rating nor its
      indicators; a rating exists exactly when some season's text parses. */
  lemma DistinctTextsSameRating(v: Variant, seasonRatings: seq<Option<string>>)
    ensures var all := ParseAll(v, NonEmptyTexts(seasonRatings));
      var parsed := ParseAll(v, Seqs.Distinct(NonEmptyTexts(seasonRatings)));
      MaxRating(parsed) == MaxRating(all)
      && IndicatorsAt(parsed, MaxRating(parsed)) == IndicatorsAt(all, MaxRating(all))
    ensures MaxRating(ParseAll(v, NonEmptyTexts(seasonRatings))) == NoRating <==>
      forall k :: 0 <= k < |seasonRatings| ==> Convert(v, seasonRatings[k]).None?
  {
    var texts := NonEmptyTexts(seasonRatings);
    var parsed := ParseAll(v, Seqs.Distinct(texts));
    var all := ParseAll(v, texts);
    DistinctTextsSameParses(v, texts);
    MaxRatingOfSameElements(parsed, all);
    IndicatorsAtOfSameElements(parsed, all, MaxRating(all));
    NoSeasonParses(v, seasonRatings);
  }

  /** Parsing the distinct texts yields the same parses as parsing them all. */
  lemma DistinctTextsSameParses(v: Variant, texts: seq<string>)
    ensures forall p :: p in ParseAll(v, Seqs.Distinct(texts)) <==> p in ParseAll(v, texts)
  {
    var distinct := Seqs.Distinct(texts);
    forall p
      ensures p in ParseAll(v, distinct) <==> p in ParseAll(v, texts)
    {
      ParseAllMembers(v, texts, p);
      ParseAllMembers(v, distinct, p);
      if ParsesTo(v, texts, p) {
        var t :| t in texts && Convert(v, Some(t)) == Some(p);
        assert t in distinct;
      }
      if ParsesTo(v, distinct, p) {
        var t :| t in distinct && Convert(v, Some(t)) == Some(p);
        assert t in texts;
      }
    }
  }

  /** No season's text parses exactly when the show has no rating. */
  lemma NoSeasonParses(v: Variant, seasonRatings: seq<Option<string>>)
    ensures MaxRating(ParseAll(v, NonEmptyTexts(seasonRatings))) == NoRating <==>
      forall k :: 0 <= k < |seasonRatings| ==> Convert(v, seasonRatings[k]).None?
  {
    var texts := NonEmptyTexts(seasonRatings);
    NoRatingIffNoParse(v, texts);
    ParseAllEmpty(v, texts);
    NoTextParses(v, seasonRatings);
  }

  /** The parses have no highest rating exactly when there are none. */
  lemma NoRatingIffNoParse(v: Variant, texts: seq<string>)
    ensures MaxRating(ParseAll(v, texts)) == NoRating <==> ParseAll(v, texts) == []
  {
    var ps := ParseAll(v, texts);
    if |ps| > 0 {
      var k :| 0 <= k < |ps| && ps[k].rating == MaxRating(ps);
      assert ps[k] in ps;
    }
  }

  /** No non-empty text parses exactly when no season's text does. */
  lemma NoTextParses(v: Variant, seasonRatings: seq<Option<string>>)
    ensures (forall t :: t in NonEmptyTexts(seasonRatings) ==> Convert(v, Some(t)).None?) <==>
      forall k :: 0 <= k < |seasonRatings| ==> Convert(v, seasonRatings[k]).None?
  {
    var texts := NonEmptyTexts(seasonRatings);
    forall k | 0 <= k < |seasonRatings| && seasonRatings[k].Some? && seasonRatings[k].value != []
      ensures seasonRatings[k].value in texts
    {
      assert Some(seasonRatings[k].value) in seasonRatings;
    }
    forall t | t in texts
      ensures exists k :: 0 <= k < |seasonRatings| && seasonRatings[k] == Some(t)
    {
      assert Some(t) in seasonRatings;
    }
  }



  /** Nothing parses exactly when no text parses. */
  lemma ParseAllEmpty(v: Variant, texts: seq<string>)
    ensures ParseAll(v, texts) == [] <==> forall t :: t in texts ==> Convert(v, Some(t)).None?
  {
    if ParseAll(v, texts) != [] {
      ParseAllMembers(v, texts, ParseAll(v, texts)[0]);
    }
    if exists t :: t in texts && Convert(v, Some(t)).Some? {
      var t :| t in texts && Convert(v, Some(t)).Some?;
      ParseAllMembers(v, texts, Convert(v, Some(t)).value);
    }
  }

  /** GetShowContentRating: the highest rating among the seasons' rating texts,
      with the union of the indicators of every season at that rating; no text
      when no season's rating parses. Duplicate texts are dropped first, which
      the result does not depend on. */
  function ShowContentRating(v: Variant, seasonRatings: seq<Option<string>>): (t: Option<string>)
    ensures var ps := ParseAll(v, NonEmptyTexts(seasonRatings));
      t == FormatRating(MaxRating(ps), IndicatorsAt(ps, MaxRating(ps)))
    ensures t.None? <==> forall k :: 0 <= k < |seasonRatings| ==> Convert(v, seasonRatings[k]).None?
    ensures v == AsWritten && t.Some? ==> t.value == "TV-Y" || t.value == "TV-G"
  {
    var texts := NonEmptyTexts(seasonRatings);
    var parsed := ParseAll(v, Seqs.Distinct(texts));
    DistinctTextsSameRating(v, seasonRatings);
    ParseAllAsWritten(Seqs.Distinct(texts));
    var m := MaxRating(parsed);
    var given := IndicatorsAt(parsed, m);
    assert m == MaxRating(ParseAll(v, texts)) && given == IndicatorsAt(ParseAll(v, texts), m);
    YOrGFormatted(m, given);
    FormatRating(m, given)
  }

  /** TV-Y and TV-G carry no indicators, so they are written as their description alone. */
  lemma YOrGFormatted(r: TvRating, given: set<Indicator>)
    ensures r == TvY ==> FormatRating(r, given) == Some("TV-Y")
    ensures r == TvG ==> FormatRating(r, given) == Some("TV-G")
  {
    if r == TvY || r == TvG {
      assert Shown(AllowedIndicators(r), given) == [];
      assert "TV-" + RatingCode(r) == (if r == TvY then "TV-Y" else "TV-G");
    }
  }

  /** As written, a show whose only season is rated TV-PG gets no rating,
      where the corrected parser keeps TV-PG. */
  lemma ShowAsWrittenDropsTvPg(s: string)
    requires s == "TV-PG"
    ensures ShowContentRating(AsWritten, [Some(s)]) == None
    ensures ShowContentRating(Intended, [Some(s)]) == Some(s)
  {
    ShowTvPgAsWritten(s);
    ShowTvPgIntended(s);
  }

  /** As written, a show whose one season is rated "TV-PG" gets no rating. */
  lemma ShowTvPgAsWritten(s: string)
    requires s == "TV-PG"
    ensures ShowContentRating(AsWritten, [Some(s)]) == None
  {
    AsWrittenMissesTwoLetterCodes(s);
    assert Convert(AsWritten, [Some(s)][0]) == None;
  }

  /** With the corrected parser, a show whose one season is rated "TV-PG" is
      rated "TV-PG". */
  lemma ShowTvPgIntended(s: string)
    requires s == "TV-PG"
    ensures ShowContentRating(Intended, [Some(s)]) == Some(s)
  {
    var p := Parsed(TvPG, {});
    assert Convert(Intended, Some(s)) == Some(p) by {
      ReadTvPg(s);
    }
    OneSeasonShow(Intended, s, p);
    WriteTvPg(s);
  }

  lemma WriteTvPg(s: string)
    requires s == "TV-PG"
    ensures FormatRating(TvPG, {}) == Some(s)
  {
    FormattedCode(TvPG, {});
    assert "TV-" + RatingCode(TvPG) == s;
  }

  /** A show with one season whose rating text parses is rated as that parse. */
  lemma OneSeasonShow(v: Variant, s: string, p: Parsed)
    requires Convert(v, Some(s)) == Some(p)
    ensures ShowContentRating(v, [Some(s)]) == FormatRating(p.rating, p.indicators)
  {
    assert NonEmptyTexts([Some(s)]) == [s] by {
      assert NonEmptyTexts([Some(s)][1..]) == [];
    }
    assert ParseAll(v, [s]) == [p] by {
      assert [s][1..] == [];
    }
    OneParse(p);
  }

  /** A single parse is the highest, with its own indicators. */
  lemma OneParse(p: Parsed)
    ensures MaxRating([p]) == p.rating && IndicatorsAt([p], p.rating) == p.indicators
  {
    assert [p][1..] == [];
  }

  // ----- Tag-based rating -----

  /** The names of the tags the rating is derived from. */
  const NudityTag := "/content indicators/nudity"
  const SexTag := "/content indicators/sex"
  const ViolenceTag := "/content indicators/violence"
  const GoreTag := "/content indicators/violence/gore"
  const CustomAudienceTag := "/custom user tags/target audience"
  const EcchiTag := "/elements/ecchi"
  const GainaxBounceTag := "/elements/ecchi/Gainax bounce"
  const BorderlinePornTag := "/elements/ecchi/borderline porn"
  const BreastFondlingTag := "/elements/ecchi/breast fondling"
  const PaperClothesTag := "/elements/ecchi/paper clothes"
  const SkimpyClothingTag := "/elements/ecchi/skimpy clothing"
  const SexualHumourTag := "/elements/sexual humour"
  const FantasyTag := "/elements/speculative fiction/fantasy"
  const TargetAudienceTag := "/target audience"
  const BloodyWoundTag := "/technical aspects/very bloody wound in low-pg series"

  /** A resolved AniDB tag: its weight and the names of its children. */
  datatype Tag = Tag(name: string, weight: int, children: seq<string>)

  type Tags = map<string, Tag>

  /** The name of the single child of `key`, if the tag exists and has exactly one child. */
  function SingleChild(tags: Tags, key: string): (c: Option<string>)
    ensures c.Some? <==> key in tags && |tags[key].children| == 1
  {
    if key in tags && |tags[key].children| == 1 then Some(tags[key].children[0]) else None
  }

  /** The lower-cased name of the single target-audience child is `n`. */
  predicate AudienceIs(tags: Tags, n: string)
  {
    SingleChild(tags, TargetAudienceTag).Some? && Strings.ToLower(SingleChild(tags, TargetAudienceTag).value) == n
  }

  /** The rating named by the target-audience tag: mina is TV-G, kodomo TV-Y,
      shoujo and shounen TV-Y7, josei and seinen TV-14, 18 restricted XXX,
      and anything else, or no single child, no rating. */
  function BaseRating(tags: Tags): (r: TvRating)
    ensures SingleChild(tags, TargetAudienceTag).None? ==> r == NoRating
    ensures r == TvG <==> AudienceIs(tags, "mina")
    ensures r == TvY <==> AudienceIs(tags, "kodomo")
    ensures r == TvY7 <==> AudienceIs(tags, "shoujo") || AudienceIs(tags, "shounen")
    ensures r == Tv14 <==> AudienceIs(tags, "josei") || AudienceIs(tags, "seinen")
    ensures r == Xxx <==> AudienceIs(tags, "18 restricted")
    ensures r != TvPG && r != TvMA
  {
    match SingleChild(tags, TargetAudienceTag)
    case None => NoRating
    case Some(name) =>
      var n := Strings.ToLower(name);
      if n == "mina" then TvG
      else if n == "kodomo" then TvY
      else if n == "shoujo" || n == "shounen" then TvY7
      else if n == "josei" || n == "seinen" then Tv14
      else if n == "18 restricted" then Xxx
      else NoRating
  }

  /** One upgrade: raise to `target` when `cond` holds and the rating is below
      the target (and above TV-G when `aboveG` is set). */
  datatype Upgrade = Upgrade(target: TvRating, aboveG: bool, cond: bool)

  function ApplyUpgrade(r: TvRating, u: Upgrade): TvRating
  {
    if u.cond && Level(r) < Level(u.target) && (!u.aboveG || Level(r) > Level(TvG)) then u.target else r
  }

  /** The upgrades applied in order. */
  function ApplyUpgrades(r: TvRating, us: seq<Upgrade>): (q: TvRating)
    ensures Level(q) >= Level(r)
    ensures (forall k :: 0 <= k < |us| ==> Level(us[k].target) <= Level(r)) ==> q == r
    decreases |us|
  {
    if |us| == 0 then r else ApplyUpgrades(ApplyUpgrade(r, us[0]), us[1..])
  }

  /** A weight-graded upgrade (the ecchi and nudity tags): an else-if chain,
      which equals the three upgrades applied in turn because each one that
      fires lifts the rating past the guards of the rest. */
  function WeightUpgrades(tags: Tags, key: string): seq<Upgrade>
  {
    var w := if key in tags then tags[key].weight else 0;
    [Upgrade(Tv14, false, key in tags && w >= 400),
     Upgrade(TvPG, false, key in tags && w >= 300),
     Upgrade(TvY7, false, key in tags && w >= 200)]
  }

  /** The rating upgrades the tags call for, in source order. */
  function Upgrades(tags: Tags): (us: seq<Upgrade>)
  {
    var violence := ViolenceTag in tags;
    var vw := if violence then tags[ViolenceTag].weight else 0;
    [Upgrade(TvMA, false, BorderlinePornTag in tags),
     Upgrade(Tv14, false, GainaxBounceTag in tags || BreastFondlingTag in tags
                          || PaperClothesTag in tags || SkimpyClothingTag in tags),
     Upgrade(TvPG, false, SexualHumourTag in tags || BloodyWoundTag in tags)]
    + WeightUpgrades(tags, EcchiTag)
    + [Upgrade(Tv14, false, SexTag in tags)]
    + WeightUpgrades(tags, NudityTag)
    + [Upgrade(Tv14, true, violence && vw >= 400),
       Upgrade(TvY7, true, violence && vw >= 200),
       Upgrade(TvY7, true, GoreTag in tags)]
  }

  /** No upgrade targets a rating above TV-MA, and the first is the borderline-porn one. */
  lemma UpgradeTargets(tags: Tags)
    ensures forall k :: 0 <= k < |Upgrades(tags)| ==> Level(Upgrades(tags)[k].target) <= Level(TvMA)
    ensures Upgrades(tags)[0] == Upgrade(TvMA, false, BorderlinePornTag in tags)
  {
    var us := Upgrades(tags);
    assert |us| == 13;
    forall k | 0 <= k < 13
      ensures Level(us[k].target) <= Level(TvMA)
    {
      assert us[k].target in {TvMA, Tv14, TvPG, TvY7};
    }
  }

  /** The graded chain as the source writes it. */
  function WeightChain(r: TvRating, tags: Tags, key: string): TvRating
  {
    if key !in tags then r
    else
      var w := tags[key].weight;
      if Level(r) < Level(Tv14) && w >= 400 then Tv14
      else if Level(r) < Level(TvPG) && w >= 300 then TvPG
      else if Level(r) < Level(TvY7) && w >= 200 then TvY7
      else r
  }

  /** The else-if chain and the three upgrades in turn agree. */
  lemma WeightChainAsUpgrades(r: TvRating, tags: Tags, key: string)
    ensures ApplyUpgrades(r, WeightUpgrades(tags, key)) == WeightChain(r, tags, key)
  {
    var us := WeightUpgrades(tags, key);
    var r1 := ApplyUpgrade(r, us[0]);
    var r2 := ApplyUpgrade(r1, us[1]);
    var r3 := ApplyUpgrade(r2, us[2]);
    assert us[1..] == [us[1], us[2]];
    assert us[1..][1..] == [us[2]];
    assert us[1..][1..][1..] == [];
    assert ApplyUpgrades(r2, us[1..][1..]) == r3;
    assert ApplyUpgrades(r1, us[1..]) == r3;
  }

  /** The target-audience rating raised by the content tags: never lowered,
      never raised past TV-MA, and at least TV-MA with the borderline-porn tag. */
  function RaisedRating(base: TvRating, tags: Tags): (r: TvRating)
    ensures Level(r) >= Level(base)
    ensures Level(base) >= Level(TvMA) ==> r == base
    ensures Level(r) <= Level(TvMA) || r == base
    ensures BorderlinePornTag in tags ==> Level(r) >= Level(TvMA)
  {
    UpgradeTargets(tags);
    RaisedRatingBounded(base, tags);
    ApplyUpgrades(base, Upgrades(tags))
  }

  lemma RaisedRatingBounded(base: TvRating, tags: Tags)
    ensures Level(base) <= Level(TvMA) ==> Level(ApplyUpgrades(base, Upgrades(tags))) <= Level(TvMA)
    ensures BorderlinePornTag in tags ==> Level(ApplyUpgrades(base, Upgrades(tags))) >= Level(TvMA)
  {
    var us := Upgrades(tags);
    UpgradeTargets(tags);
    var first := ApplyUpgrade(base, us[0]);
    assert ApplyUpgrades(base, us) == ApplyUpgrades(first, us[1..]);
    if Level(base) <= Level(TvMA) {
      UpgradesBounded(base, us);
    }
  }

  lemma {:induction false} UpgradesBounded(r: TvRating, us: seq<Upgrade>)
    requires Level(r) <= Level(TvMA)
    requires forall k :: 0 <= k < |us| ==> Level(us[k].target) <= Level(TvMA)
    ensures Level(ApplyUpgrades(r, us)) <= Level(TvMA)
    decreases |us|
  {
    if |us| > 0 {
      UpgradesBounded(ApplyUpgrade(r, us[0]), us[1..]);
    }
  }

  /** The content indicators derived from the tags. */
  function TagIndicators(tags: Tags): (s: set<Indicator>)
    ensures D in s <==> (SexualHumourTag in tags
      || (SexTag in tags && tags[SexTag].weight <= 200))
    ensures S in s <==> ((SexTag in tags && tags[SexTag].weight > 200)
      || (NudityTag in tags && tags[NudityTag].weight >= 400))
    ensures FV in s <==> ViolenceTag in tags && FantasyTag in tags
    ensures V in s <==> ViolenceTag in tags && tags[ViolenceTag].weight >= 200
    ensures L !in s
  {
    var s1 := if SexualHumourTag in tags then {D} else {};
    var s2 := if SexTag in tags then
      (if tags[SexTag].weight <= 200 then {D} else {S}) else {};
    var s3 := if NudityTag in tags && tags[NudityTag].weight >= 400 then {S} else {};
    var violence := ViolenceTag in tags;
    var s4 := if violence && FantasyTag in tags then {FV} else {};
    var s5 := if violence && tags[ViolenceTag].weight >= 200 then {V} else {};
    s1 + s2 + s3 + s4 + s5
  }

  /** The custom target-audience text, lower-cased and without dashes, parsed
      in the chosen reading; nothing without a single custom child. */
  function CustomRating(v: Variant, tags: Tags): (p: Option<Parsed>)
    ensures SingleChild(tags, CustomAudienceTag).None? ==> p.None?
    ensures p.Some? ==> p.value.rating != NoRating
    ensures v == AsWritten && p.Some? ==> p.value.rating == TvY || p.value.rating == TvG
  {
    match SingleChild(tags, CustomAudienceTag)
    case None => None
    case Some(name) => Convert(v, Some(Strings.RemoveChar(Strings.ToLower(name), '-')))
  }

  /** GetTagBasedContentRating: a user's single custom target-audience tag that
      parses as a rating wins; otherwise the target-audience rating, upgraded by
      the content tags and never lowered, with the indicators the tags imply. */
  function TagBasedContentRating(v: Variant, tags: Tags): (t: Option<string>)
    ensures t.None? <==> CustomRating(v, tags).None? && RaisedRating(BaseRating(tags), tags) == NoRating
    ensures CustomRating(v, tags).None? && BaseRating(tags) != NoRating ==> t.Some?
  {
    match CustomRating(v, tags)
    case Some(p) => FormatRating(p.rating, p.indicators)
    case None => FormatRating(RaisedRating(BaseRating(tags), tags), TagIndicators(tags))
  }

  /** The tag-based rating text reads back as the custom rating when there is
      one, otherwise as the upgraded target-audience rating, with the
      indicators the rating allows. */
  lemma TagBasedReadsBack(v: Variant, tags: Tags)
    ensures CustomRating(v, tags).Some? ==>
      var p := CustomRating(v, tags).value;
      TryConvertRatingFromText(TagBasedContentRating(v, tags)) == Some(Parsed(p.rating, ShownSet(p.rating, p.indicators)))
    ensures CustomRating(v, tags).None? && RaisedRating(BaseRating(tags), tags) != NoRating ==>
      var r := RaisedRating(BaseRating(tags), tags);
      TryConvertRatingFromText(TagBasedContentRating(v, tags)) == Some(Parsed(r, ShownSet(r, TagIndicators(tags))))
  {
    match CustomRating(v, tags)
    case Some(p) => FormatParseRoundTrip(p.rating, p.indicators);
    case None =>
      var r := RaisedRating(BaseRating(tags), tags);
      if r != NoRating {
        FormatParseRoundTrip(r, TagIndicators(tags));
      }
  }

  /** Text without upper-case ASCII letters is its own lower-case form. */
  lemma LowerOfLower(s: string)
    requires Strings.IsLower(s)
    ensures Strings.ToLower(s) == s
  {
  }

  /** Lower-casing neither makes nor removes an underscore. */
  lemma LowerKeepsUnderscore(s: string)
    ensures '_' in Strings.ToLower(s) <==> '_' in s
  {
    var l := Strings.ToLower(s);
    if '_' in l {
      var k :| 0 <= k < |l| && l[k] == '_';
      assert s[k] == '_';
    }
    if '_' in s {
      var k :| 0 <= k < |s| && s[k] == '_';
      assert l[k] == '_';
    }
  }

  /** The squashed description of a rating: its prefix and lower-case code,
      with no upper-case letter. */
  lemma SquashedDescriptionLower(r: TvRating)
    requires r != NoRating
    ensures var c := TvPrefix(r) + LowerCode(r);
      |c| > 0 && IsAlnum(c[0]) && IsAlnum(c[|c| - 1]) && '-' !in c && '_' !in c
      && (c[0] == 't' || c[0] == 'x')
      && Strings.IsLower(c)
  {
  }

  /** A rating's description, lower-cased and without dashes as the custom tag
      is, is its prefix and lower-case code. */
  lemma CustomDescriptionText(r: TvRating)
    requires r != NoRating
    ensures Strings.RemoveChar(Strings.ToLower(Description(r).value), '-') == TvPrefix(r) + LowerCode(r)
  {
    var desc := Description(r).value;
    var text := Strings.RemoveChar(Strings.ToLower(desc), '-');
    assert '_' !in desc;
    LowerKeepsUnderscore(desc);
    Strings.RemoveCharAbsent(text, '_');
    SquashDescription(r);
  }

  /** A prefix and lower-case code is already normalised. */
  lemma CodeNormal(r: TvRating)
    requires r != NoRating
    ensures Normalize(TvPrefix(r) + LowerCode(r)) == TvPrefix(r) + LowerCode(r)
  {
    SquashedDescriptionLower(r);
    NormalOfLower(TvPrefix(r) + LowerCode(r));
  }

  /** Lower-case text with letters or digits at both ends and no dash or
      underscore is already normalised. */
  lemma NormalOfLower(c: string)
    requires |c| > 0 && IsAlnum(c[0]) && IsAlnum(c[|c| - 1]) && '-' !in c && '_' !in c
    requires Strings.IsLower(c)
    ensures Normalize(c) == c
  {
    assert Normalize(c) == Squash(c) by {
      NormalizeAlnumEnds(c);
    }
    assert Squash(c) == Strings.ToLower(c) by {
      SquashPlain(c);
    }
    LowerOfLower(c);
  }

  /** A rating's description, as the custom tag is read, normalises to its
      prefix and lower-case code. */
  lemma CustomDescriptionNormal(r: TvRating)
    requires r != NoRating
    ensures var text := Strings.RemoveChar(Strings.ToLower(Description(r).value), '-');
      text != [] && Normalize(text) == TvPrefix(r) + LowerCode(r)
  {
    CustomDescriptionText(r);
    CodeNormal(r);
    SquashedDescriptionLower(r);
  }

  /** The as-written parser reads no rating's description as the custom tag is read. */
  lemma CustomDescriptionAsWritten(r: TvRating)
    requires r != NoRating
    ensures TryConvertRatingFromTextAsWritten(Some(Strings.RemoveChar(Strings.ToLower(Description(r).value), '-'))) == None
  {
    CustomDescriptionNormal(r);
    SquashedDescriptionLower(r);
    AsWrittenNeedsYOrG(TvPrefix(r) + LowerCode(r));
  }

  /** The corrected parser reads a rating's description, as the custom tag is
      read, as that rating. */
  lemma CustomDescriptionIntended(r: TvRating)
    requires r != NoRating
    ensures TryConvertRatingFromText(Some(Strings.RemoveChar(Strings.ToLower(Description(r).value), '-'))) == Some(Parsed(r, {}))
  {
    var text := Strings.RemoveChar(Strings.ToLower(Description(r).value), '-');
    CustomDescriptionNormal(r);
    CodeParses(r);
    assert TryConvertRatingFromText(Some(text)) == ParseNormalized(Normalize(text));
  }

  /** A rating's prefix and lower-case code alone parse as that rating. */
  lemma CodeParses(r: TvRating)
    requires r != NoRating
    ensures ParseNormalized(TvPrefix(r) + LowerCode(r)) == Some(Parsed(r, {}))
  {
    var c := TvPrefix(r) + LowerCode(r);
    ParseCodeAndNames(r, []);
    assert LowerNames([]) == [] && SetOf([]) == {};
    assert c + [] == c;
  }

  /** The custom-tag reading of a rating's description, in both readings. */
  lemma ConvertCustomDescription(r: TvRating)
    requires r != NoRating
    ensures var text := Strings.RemoveChar(Strings.ToLower(Description(r).value), '-');
      Convert(AsWritten, Some(text)) == None && Convert(Intended, Some(text)) == Some(Parsed(r, {}))
  {
    CustomDescriptionAsWritten(r);
    CustomDescriptionIntended(r);
  }

  /** As written, a custom target-audience tag naming any rating by its
      description is passed over for the target-audience rating, where the
      corrected parser reads the rating it names. */
  lemma CustomAsWrittenFallsThrough(tags: Tags, r: TvRating)
    requires r != NoRating
    requires SingleChild(tags, CustomAudienceTag) == Some(Description(r).value)
    ensures CustomRating(AsWritten, tags) == None
    ensures TagBasedContentRating(AsWritten, tags)
         == FormatRating(RaisedRating(BaseRating(tags), tags), TagIndicators(tags))
    ensures CustomRating(Intended, tags) == Some(Parsed(r, {}))
    ensures TagBasedContentRating(Intended, tags) == Description(r)
  {
    CustomRatingOfDescription(tags, r);
    FormatWithoutIndicators(r);
    assert TagBasedContentRating(AsWritten, tags)
        == FormatRating(RaisedRating(BaseRating(tags), tags), TagIndicators(tags));
    assert TagBasedContentRating(Intended, tags) == FormatRating(r, {});
  }

  /** A custom target-audience tag naming a rating by its description gives no
      custom rating as written, and that rating under the corrected parser. */
  lemma CustomRatingOfDescription(tags: Tags, r: TvRating)
    requires r != NoRating
    requires SingleChild(tags, CustomAudienceTag) == Some(Description(r).value)
    ensures CustomRating(AsWritten, tags) == None
    ensures CustomRating(Intended, tags) == Some(Parsed(r, {}))
  {
    ConvertCustomDescription(r);
  }

  /** With no indicators given, every rating is written as its description. */
  lemma FormatWithoutIndicators(r: TvRating)
    ensures FormatRating(r, {}) == Description(r)
  {
    assert Shown(AllowedIndicators(r), {}) == [];
  }
}
