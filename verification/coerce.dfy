/**
 * `Reality::Coerce`: turns loosely typed values into a geographic
 * coordinate or a MediaWiki category title, and raises ArgumentError
 * ("Can't coerce <value> to <target>") on shapes it does not know.
 *
 * `Geo::Coord.new` belongs to another library; a coordinate is modelled as
 * the list of arguments it was built from.
 */
module Coerce {
  import opened Outcome
  import opened Text

  /** An argument handed to `Geo::Coord.new`: a number or a string. */
  datatype CoordArg = Number(x: real) | Chars(s: string)

  datatype Coord = Coord(args: seq<CoordArg>)

  /** What `geo_coord` is given; `OtherValue` is any other object, shown as its `to_s`. */
  datatype GeoInput =
    | ArrayValue(items: seq<CoordArg>)
    | CoordValue(c: Coord)
    | StringValue(s: string)
    | OtherValue(shown: string)

  /** What `media_wiki_category` is given; a link is reduced to its target. */
  datatype CategoryInput =
    | LinkInput(target: string)
    | StringInput(s: string)
    | OtherInput(shown: string)

  /**
   * `Uncoercible` is the ArgumentError "Can't coerce <shown> to <target>";
   * `NameError` is Ruby's error for an undefined local variable or method.
   */
  datatype CoerceError = Uncoercible(shown: string, target: string) | NameError(name: string)

  /** `uncoercible(value, target)`: always raises. */
  function Fail<T>(shown: string, target: string): (r: Result<T, CoerceError>)
    ensures r.Err? && r.error.Uncoercible?
    ensures r.error.shown == shown && r.error.target == target
  {
    Err(Uncoercible(shown, target))
  }

  /** `[,\| ;]` */
  predicate IsSeparator(c: char) { c == ',' || c == '|' || c == ' ' || c == ';' }

  /** `\d+(?:\.\d+)?`: digits, optionally a dot and more digits. */
  predicate IsDecimal(t: string)
  {
    (|t| > 0 && AllDigits(t)) ||
    exists d :: 0 < d < |t| - 1 && t[d] == '.' && AllDigits(t[..d]) && AllDigits(t[d + 1..])
  }

  /** A whole line of the form decimal, one separator, decimal. */
  predicate IsCoordLine(t: string)
  {
    exists k :: 0 <= k < |t| && IsSeparator(t[k]) && IsDecimal(t[..k]) && IsDecimal(t[k + 1..])
  }

  /** `s =~ /^\d+(?:\.\d+)?[,\| ;]\d+(?:\.\d+)?$/`: some line of s has the coordinate form. */
  predicate GeoPatternMatches(s: string)
  {
    exists p, q :: 0 <= p <= q <= |s| && LineStart(s, p) && LineEnd(s, q) && IsCoordLine(s[p..q])
  }

  /** The separators of s, in order. */
  function Seps(s: string): (cs: seq<char>)
    ensures forall i :: 0 <= i < |cs| ==> IsSeparator(cs[i])
  {
    if s == [] then []
    else if IsSeparator(s[0]) then [s[0]] + Seps(s[1..])
    else Seps(s[1..])
  }

  /** The fields written out again, with separator i between field i and field i + 1. */
  function Join(fs: seq<string>, seps: seq<char>): string
    requires |seps| + 1 == |fs|
  {
    if |fs| == 1 then fs[0] else fs[0] + [seps[0]] + Join(fs[1..], seps[1..])
  }

  /** The pieces between separators, empty ones included: joined again with the separators, they give back s. */
  function Fields(s: string): (fs: seq<string>)
    ensures |fs| == |Seps(s)| + 1
    ensures forall i, j :: 0 <= i < |fs| && 0 <= j < |fs[i]| ==> !IsSeparator(fs[i][j])
    ensures Join(fs, Seps(s)) == s
  {
    if s == [] then [[]]
    else if IsSeparator(s[0]) then
      var rest := Fields(s[1..]);
      assert ([[]] + rest)[1..] == rest;
      [[]] + rest
    else
      var rest := Fields(s[1..]);
      JoinFirstExtended([s[0]], rest, Seps(s[1..]));
      [[s[0]] + rest[0]] + rest[1..]
  }

  /** Putting x in front of the first field puts it in front of the joined text. */
  lemma JoinFirstExtended(x: string, fs: seq<string>, seps: seq<char>)
    requires |seps| + 1 == |fs|
    ensures Join([x + fs[0]] + fs[1..], seps) == x + Join(fs, seps)
  {
    var gs := [x + fs[0]] + fs[1..];
    assert gs[1..] == fs[1..];
  }

  /** Ruby's `split` drops the empty fields at the end, and only those. */
  function DropTrailingEmpty(fs: seq<string>): (r: seq<string>)
    ensures r <= fs
    ensures r == [] || r[|r| - 1] != []
    ensures forall i :: |r| <= i < |fs| ==> fs[i] == []
  {
    if fs != [] && fs[|fs| - 1] == [] then DropTrailingEmpty(fs[..|fs| - 1]) else fs
  }

  /**
   * `s.split(/[,\| ;]/)`: the fields of s, with the empty ones at the end
   * dropped. No part holds a separator.
   */
  function Split(s: string): (parts: seq<string>)
    ensures parts <= Fields(s)
    ensures forall i :: |parts| <= i < |Fields(s)| ==> Fields(s)[i] == []
    ensures parts == [] || parts[|parts| - 1] != []
    ensures forall i, j :: 0 <= i < |parts| && 0 <= j < |parts[i]| ==> !IsSeparator(parts[i][j])
  {
    var fs := Fields(s);
    var parts := DropTrailingEmpty(fs);
    assert forall i :: 0 <= i < |parts| ==> parts[i] == fs[i];
    parts
  }

  /** The split strings, each handed to the constructor as a string. */
  function ToChars(parts: seq<string>): (args: seq<CoordArg>)
    ensures |args| == |parts| && forall i :: 0 <= i < |parts| ==> args[i] == Chars(parts[i])
  {
    if parts == [] then [] else [Chars(parts[0])] + ToChars(parts[1..])
  }

  function GeoCoord(v: GeoInput): (r: Result<Coord, CoerceError>)
    ensures r.Err? ==> r.error.Uncoercible? && r.error.target == "Geo::Coord"
  {
    match v
    case ArrayValue(items) => Ok(Coord(items))
    case CoordValue(c) => Ok(c)
    case StringValue(s) =>
      if GeoPatternMatches(s) then
        Ok(Coord(ToChars(Split(s))))
      else Fail(s, "Geo::Coord")
    case OtherValue(shown) => Fail(shown, "Geo::Coord")
  }

  /**
   * `geo_coord` with the pattern anchored at the ends of the whole string
   * (`\A` and `\z`) rather than at line ends, so that no other line can make
   * a string acceptable.
   */
  function GeoCoordWholeString(v: GeoInput): (r: Result<Coord, CoerceError>)
    ensures r.Err? ==> r.error.Uncoercible? && r.error.target == "Geo::Coord"
  {
    match v
    case StringValue(s) =>
      if IsCoordLine(s) then
        Ok(Coord(ToChars(Split(s))))
      else Fail(s, "Geo::Coord")
    case _ => GeoCoord(v)
  }

  /** `^category:` with /i matches at position j of s. */
  predicate CategoryHere(s: string, j: nat)
  {
    j <= |s| && LineStart(s, j) && StartsWithIgnoringCase(s[j..], "category:")
  }

  /** The first position from p on where `^category:` matches. */
  function CategoryAt(s: string, p: nat): (r: Option<nat>)
    requires p <= |s|
    ensures r.Some? ==> p <= r.value <= |s| && CategoryHere(s, r.value)
    decreases |s| - p
  {
    if CategoryHere(s, p) then Some(p)
    else if p == |s| then None
    else CategoryAt(s, p + 1)
  }

  /** `s.sub(/^category:/i, '')`: removes the first "category:" that starts a line. */
  function RemoveCategoryPrefix(s: string): (r: string)
    ensures |r| == |s| || |r| + 9 == |s|
    ensures StartsWithIgnoringCase(s, "category:") ==> r == s[9..]
  {
    assert StartsWithIgnoringCase(s, "category:") ==> CategoryAt(s, 0) == Some(0) by {
      assert s[0..] == s;
    }
    match CategoryAt(s, 0)
    case None => s
    case Some(q) => s[..q] + s[q + 9..]
  }

  /**
   * `media_wiki_category(value, infoboxer)`. The `Link` branch reads the
   * variable `prefix`, which is defined nowhere, so it raises NameError.
   */
  function MediaWikiCategory(v: CategoryInput, infoboxer: string): (r: Result<string, CoerceError>)
    ensures r.Ok? ==> "Category:" <= r.value
    ensures v.OtherInput? ==> r == Err(Uncoercible(v.shown, "Category of " + infoboxer))
    ensures v.StringInput? <==> r.Ok?
  {
    match v
    case LinkInput(_) => Err(NameError("prefix"))
    case StringInput(s) => Ok("Category:" + RemoveCategoryPrefix(s))
    case OtherInput(shown) => Fail(shown, "Category of " + infoboxer)
  }
}

module CoerceProperties {
  import opened Outcome
  import opened Text
  import opened Coerce

  predicate SingleLine(s: string)
  {
    forall i :: 0 <= i < |s| ==> s[i] != '\n'
  }

  /** An existing coordinate is returned as it is. */
  lemma GeoCoordKeepsCoord(c: Coord)
    ensures GeoCoord(CoordValue(c)) == Ok(c)
  {
  }

  /** An array is spread, in order and whatever its length, into the coordinate's arguments. */
  lemma GeoCoordSpreadsArray(items: seq<CoordArg>)
    ensures GeoCoord(ArrayValue(items)) == Ok(Coord(items))
  {
  }

  /** Any other object is refused with "Can't coerce <it> to Geo::Coord". */
  lemma GeoCoordRefusesOthers(shown: string)
    ensures GeoCoord(OtherValue(shown)) == Err(Uncoercible(shown, "Geo::Coord"))
  {
  }

  /** Decimals hold digits and dots only: no separator, no line break. */
  lemma DecimalHasNoSeparator(t: string)
    requires IsDecimal(t)
    ensures forall i :: 0 <= i < |t| ==> !IsSeparator(t[i]) && t[i] != '\n'
  {
    if !AllDigits(t) {
      var d :| 0 < d < |t| - 1 && t[d] == '.' && AllDigits(t[..d]) && AllDigits(t[d + 1..]);
      forall i | 0 <= i < |t|
        ensures !IsSeparator(t[i]) && t[i] != '\n'
      {
        if i < d {
          assert t[..d][i] == t[i];
        } else if i > d {
          assert t[d + 1..][i - d - 1] == t[i];
        }
      }
    }
  }

  /** On a single line, `^` and `$` only match at its ends, so the whole line must have the form. */
  lemma SingleLineMatch(s: string)
    requires SingleLine(s)
    ensures GeoPatternMatches(s) <==> IsCoordLine(s)
  {
    assert s[0..|s|] == s;
    if GeoPatternMatches(s) {
      var p, q :| 0 <= p <= q <= |s| && LineStart(s, p) && LineEnd(s, q) && IsCoordLine(s[p..q]);
      assert p == 0 && q == |s|;
    }
  }

  /** A text without separators is one field. */
  lemma {:induction false} FieldsOfPlain(x: string)
    requires forall i :: 0 <= i < |x| ==> !IsSeparator(x[i])
    ensures Fields(x) == [x]
  {
    if x != [] {
      FieldsOfPlain(x[1..]);
      assert [x[0]] + x[1..] == x;
    }
  }

  /** A text without separators runs into the first field of what follows it. */
  lemma {:induction false} FieldsOfPlainThen(x: string, rest: string)
    requires forall i :: 0 <= i < |x| ==> !IsSeparator(x[i])
    ensures Fields(x + rest) == [x + Fields(rest)[0]] + Fields(rest)[1..]
  {
    if x != [] {
      assert (x + rest)[1..] == x[1..] + rest;
      FieldsOfPlainThen(x[1..], rest);
      assert [x[0]] + (x[1..] + Fields(rest)[0]) == x + Fields(rest)[0];
    } else {
      var f := Fields(rest);
      assert x + rest == rest;
      assert x + f[0] == f[0];
      assert f == [f[0]] + f[1..];
    }
  }

  /**
   * Round trip: fields without separators, joined with separators, split back
   * into the same fields.
   */
  lemma {:induction false} FieldsOfJoin(fs: seq<string>, seps: seq<char>)
    requires |seps| + 1 == |fs|
    requires forall i :: 0 <= i < |seps| ==> IsSeparator(seps[i])
    requires forall i, j :: 0 <= i < |fs| && 0 <= j < |fs[i]| ==> !IsSeparator(fs[i][j])
    ensures Fields(Join(fs, seps)) == fs
    decreases |fs|
  {
    if |fs| == 1 {
      FieldsOfPlain(fs[0]);
    } else {
      var tail := Join(fs[1..], seps[1..]);
      FieldsOfJoin(fs[1..], seps[1..]);
      assert ([seps[0]] + tail)[1..] == tail;
      assert Fields([seps[0]] + tail) == [[]] + fs[1..];
      assert Join(fs, seps) == fs[0] + ([seps[0]] + tail);
      FieldsOfPlainThen(fs[0], [seps[0]] + tail);
      assert fs[0] + [] == fs[0];
      assert fs == [fs[0]] + fs[1..];
    }
  }

  /** `split` gives back the fields a text was joined from, when the last one is not empty. */
  lemma SplitOfJoin(fs: seq<string>, seps: seq<char>)
    requires |seps| + 1 == |fs| && fs[|fs| - 1] != []
    requires forall i :: 0 <= i < |seps| ==> IsSeparator(seps[i])
    requires forall i, j :: 0 <= i < |fs| && 0 <= j < |fs[i]| ==> !IsSeparator(fs[i][j])
    ensures Split(Join(fs, seps)) == fs
  {
    FieldsOfJoin(fs, seps);
  }

  /** Splitting "a<sep>b" gives a and b. */
  lemma SplitCoordLine(a: string, c: char, b: string)
    requires IsDecimal(a) && IsSeparator(c) && IsDecimal(b)
    ensures Split(a + [c] + b) == [a, b]
  {
    DecimalHasNoSeparator(a);
    DecimalHasNoSeparator(b);
    assert Join([b], []) == b;
    assert Join([a, b], [c]) == a + [c] + b;
    SplitOfJoin([a, b], [c]);
  }

  /** Round trip: "lat<sep>lng" with two unsigned decimals builds the coordinate from the two texts, in order. */
  lemma GeoCoordOfLine(a: string, c: char, b: string)
    requires IsDecimal(a) && IsSeparator(c) && IsDecimal(b)
    ensures GeoCoord(StringValue(a + [c] + b)) == Ok(Coord([Chars(a), Chars(b)]))
  {
    var s := a + [c] + b;
    DecimalHasNoSeparator(a);
    DecimalHasNoSeparator(b);
    assert s[..|a|] == a && s[|a|] == c && s[|a| + 1..] == b;
    assert IsCoordLine(s);
    assert SingleLine(s);
    SingleLineMatch(s);
    SplitCoordLine(a, c, b);
    assert ToChars([a, b]) == [Chars(a), Chars(b)];
  }

  /**
   * On a single line, a string is accepted exactly when it is an unsigned
   * decimal, one separator and an unsigned decimal; otherwise it is refused
   * with "Can't coerce <string> to Geo::Coord".
   */
  lemma GeoCoordSingleLine(s: string)
    requires SingleLine(s)
    ensures GeoCoord(StringValue(s)).Ok? <==> IsCoordLine(s)
    ensures !IsCoordLine(s) ==> GeoCoord(StringValue(s)) == Err(Uncoercible(s, "Geo::Coord"))
  {
    SingleLineMatch(s);
  }

  lemma DecimalStartsWithDigit(t: string)
    ensures IsDecimal(t) ==> |t| > 0 && IsDigit(t[0])
  {
    if IsDecimal(t) && !AllDigits(t) {
      var d :| 0 < d < |t| - 1 && t[d] == '.' && AllDigits(t[..d]) && AllDigits(t[d + 1..]);
      assert t[..d][0] == t[0];
    }
  }

  /** A decimal holds digits and dots only. */
  lemma DecimalChars(t: string)
    requires IsDecimal(t)
    ensures forall i :: 0 <= i < |t| ==> IsDigit(t[i]) || t[i] == '.'
  {
    if !AllDigits(t) {
      var d :| 0 < d < |t| - 1 && t[d] == '.' && AllDigits(t[..d]) && AllDigits(t[d + 1..]);
      forall i | 0 <= i < |t|
        ensures IsDigit(t[i]) || t[i] == '.'
      {
        if i < d {
          assert t[i] == t[..d][i];
        } else if i > d {
          assert t[i] == t[d + 1..][i - d - 1];
        }
      }
    }
  }

  /** A coordinate line holds digits, dots and separators only. */
  lemma CoordLineChars(t: string)
    requires IsCoordLine(t)
    ensures forall i :: 0 <= i < |t| ==> IsDigit(t[i]) || t[i] == '.' || IsSeparator(t[i])
  {
    var k :| 0 <= k < |t| && IsSeparator(t[k]) && IsDecimal(t[..k]) && IsDecimal(t[k + 1..]);
    DecimalChars(t[..k]);
    DecimalChars(t[k + 1..]);
    forall i | 0 <= i < |t|
      ensures IsDigit(t[i]) || t[i] == '.' || IsSeparator(t[i])
    {
      if i < k {
        assert t[i] == t[..k][i];
      } else if i > k {
        assert t[i] == t[k + 1..][i - k - 1];
      }
    }
  }

  /** A sign anywhere on the line, in the latitude or the longitude, makes the string refused. */
  lemma GeoCoordRefusesSigned(s: string)
    requires SingleLine(s)
    requires exists k :: 0 <= k < |s| && (s[k] == '-' || s[k] == '+')
    ensures GeoCoord(StringValue(s)) == Err(Uncoercible(s, "Geo::Coord"))
  {
    var k :| 0 <= k < |s| && (s[k] == '-' || s[k] == '+');
    assert !IsCoordLine(s) by {
      if IsCoordLine(s) {
        CoordLineChars(s);
      }
    }
    GeoCoordSingleLine(s);
  }

  /** Worked example: a western longitude, "51.5,-0.12", is refused. */
  lemma GeoCoordRefusesWesternLongitude()
    ensures GeoCoord(StringValue("51.5,-0.12")) == Err(Uncoercible("51.5,-0.12", "Geo::Coord"))
  {
    var s := "51.5,-0.12";
    assert s[5] == '-';
    GeoCoordRefusesSigned(s);
  }

  /**
   * As written, the pattern only needs one line of the string to have the
   * coordinate form, and the whole string is then split: "abc\n1,2" becomes
   * a coordinate from "abc\n1" and "2".
   */
  lemma GeoCoordAcceptsOtherLines()
    ensures GeoCoord(StringValue("abc\n1,2")) == Ok(Coord([Chars("abc\n1"), Chars("2")]))
  {
    SecondLineMatches();
    SplitAcrossLines();
    assert ToChars(["abc\n1", "2"]) == [Chars("abc\n1"), Chars("2")];
  }

  lemma SecondLineMatches()
    ensures GeoPatternMatches("abc\n1,2")
  {
    var s := "abc\n1,2";
    var line := s[4..7];
    assert line == "1,2" && line[..1] == "1" && line[2..] == "2";
    assert AllDigits("1") && AllDigits("2");
    assert IsSeparator(line[1]) && IsDecimal(line[..1]) && IsDecimal(line[2..]);
    assert IsCoordLine(line);
    assert LineStart(s, 4) && LineEnd(s, 7);
  }

  lemma SplitAcrossLines()
    ensures Split("abc\n1,2") == ["abc\n1", "2"]
  {
    var fs := ["abc\n1", "2"];
    assert forall j :: 0 <= j < |fs[0]| ==> !IsSeparator(fs[0][j]);
    assert forall j :: 0 <= j < |fs[1]| ==> !IsSeparator(fs[1][j]);
    assert Join([fs[1]], []) == "2";
    assert Join(fs, [',']) == "abc\n1,2";
    SplitOfJoin(fs, [',']);
  }

  /** Round trip for the corrected coercion: the two decimals of the string, in order. */
  lemma WholeStringOfLine(a: string, c: char, b: string)
    requires IsDecimal(a) && IsSeparator(c) && IsDecimal(b)
    ensures GeoCoordWholeString(StringValue(a + [c] + b)) == Ok(Coord([Chars(a), Chars(b)]))
  {
    var s := a + [c] + b;
    assert s[..|a|] == a && s[|a|] == c && s[|a| + 1..] == b;
    SplitCoordLine(a, c, b);
    assert ToChars([a, b]) == [Chars(a), Chars(b)];
  }

  /**
   * The corrected coercion accepts a string exactly when the whole string is
   * decimal, separator, decimal.
   */
  lemma WholeStringAcceptsIff(s: string)
    ensures GeoCoordWholeString(StringValue(s)).Ok? <==> IsCoordLine(s)
    ensures !IsCoordLine(s) ==> GeoCoordWholeString(StringValue(s)) == Err(Uncoercible(s, "Geo::Coord"))
  {
  }

  /** The corrected coercion refuses "abc\n1,2": its text before the separator is not a decimal. */
  lemma WholeStringRefusesOtherLines()
    ensures GeoCoordWholeString(StringValue("abc\n1,2")) == Err(Uncoercible("abc\n1,2", "Geo::Coord"))
  {
    var t := "abc\n1,2";
    forall k | 0 <= k < |t|
      ensures !IsDecimal(t[..k])
    {
      DecimalStartsWithDigit(t[..k]);
      if k > 0 {
        assert t[..k][0] == 'a';
      }
    }
  }

  /** The search stops at the first match: no earlier position matches, and none matches when it finds nothing. */
  lemma {:induction false} CategoryAtIsFirst(s: string, p: nat)
    requires p <= |s|
    ensures CategoryAt(s, p).None? ==> forall j :: p <= j <= |s| ==> !CategoryHere(s, j)
    ensures CategoryAt(s, p).Some? ==> forall j :: p <= j < CategoryAt(s, p).value ==> !CategoryHere(s, j)
    decreases |s| - p
  {
    if !CategoryHere(s, p) && p < |s| {
      CategoryAtIsFirst(s, p + 1);
    }
  }

  /** A matching position with no match before it is the one found. */
  lemma {:induction false} CategoryAtFinds(s: string, p: nat, q: nat)
    requires p <= q <= |s| && CategoryHere(s, q)
    requires forall j :: p <= j < q ==> !CategoryHere(s, j)
    ensures CategoryAt(s, p) == Some(q)
    decreases q - p
  {
    if p < q {
      CategoryAtFinds(s, p + 1, q);
    }
  }

  /** With no matching position the search finds nothing. */
  lemma {:induction false} CategoryAtNone(s: string, p: nat)
    requires p <= |s|
    requires forall j :: p <= j <= |s| ==> !CategoryHere(s, j)
    ensures CategoryAt(s, p).None?
    decreases |s| - p
  {
    if p < |s| {
      CategoryAtNone(s, p + 1);
    }
  }

  /** A string that starts with "category:" in any case loses it, and "Category:" is put in its place. */
  lemma CategoryOfPrefixed(s: string, infoboxer: string)
    requires StartsWithIgnoringCase(s, "category:")
    ensures MediaWikiCategory(StringInput(s), infoboxer) == Ok("Category:" + s[9..])
  {
    assert s[0..] == s;
    assert s[..0] + s[9..] == s[9..];
  }

  /** A string with no line starting with "category:" is prefixed as it is. */
  lemma CategoryOfPlain(s: string, infoboxer: string)
    requires forall j :: 0 <= j <= |s| ==> !CategoryHere(s, j)
    ensures MediaWikiCategory(StringInput(s), infoboxer) == Ok("Category:" + s)
  {
    CategoryAtNone(s, 0);
  }

  /** Normalising a category name twice gives the same as normalising it once. */
  lemma CategoryIdempotent(s: string, infoboxer: string)
    ensures var once := MediaWikiCategory(StringInput(s), infoboxer).value;
            MediaWikiCategory(StringInput(once), infoboxer) == Ok(once)
  {
    var once := MediaWikiCategory(StringInput(s), infoboxer).value;
    var rest := RemoveCategoryPrefix(s);
    assert once == "Category:" + rest;
    assert once[..9] == "Category:";
    assert StartsWithIgnoringCase(once, "category:") by {
      assert AsciiLower('C') == 'c';
    }
    CategoryOfPrefixed(once, infoboxer);
    assert once[9..] == rest;
  }

  /** "category:" in lower case is removed. */
  lemma CategoryOfLowerPrefix(rest: string, infoboxer: string)
    ensures MediaWikiCategory(StringInput("category:" + rest), infoboxer) == Ok("Category:" + rest)
  {
    var s := "category:" + rest;
    assert s[..9] == "category:";
    assert StartsWithIgnoringCase(s, "category:");
    CategoryOfPrefixed(s, infoboxer);
    assert s[9..] == rest;
  }

  /** "CATEGORY:" in upper case is removed as well. */
  lemma CategoryOfUpperPrefix(rest: string, infoboxer: string)
    ensures MediaWikiCategory(StringInput("CATEGORY:" + rest), infoboxer) == Ok("Category:" + rest)
  {
    var s := "CATEGORY:" + rest;
    assert s[..9] == "CATEGORY:";
    assert StartsWithIgnoringCase(s, "category:") by {
      assert AsciiLower('C') == 'c' && AsciiLower('A') == 'a' && AsciiLower('T') == 't' && AsciiLower('E') == 'e';
      assert AsciiLower('G') == 'g' && AsciiLower('O') == 'o' && AsciiLower('R') == 'r' && AsciiLower('Y') == 'y';
    }
    CategoryOfPrefixed(s, infoboxer);
    assert s[9..] == rest;
  }

  /** Worked example: "Cities" gives "Category:Cities". */
  lemma CategoryOfBareName(infoboxer: string)
    ensures MediaWikiCategory(StringInput("Cities"), infoboxer) == Ok("Category:Cities")
  {
    var s := "Cities";
    forall j | 0 <= j <= |s|
      ensures !CategoryHere(s, j)
    {
      assert |s[j..]| < 9;
    }
    CategoryOfPlain(s, infoboxer);
    assert "Category:" + "Cities" == "Category:Cities";
  }

  /** `^` matches at any line start: "Foo\ncategory:Bar" loses the prefix of its second line. */
  lemma CategoryOnLaterLine(first: string, rest: string, infoboxer: string)
    requires SingleLine(first) && |first| > 0 && AsciiLower(first[0]) != 'c'
    ensures MediaWikiCategory(StringInput(first + "\ncategory:" + rest), infoboxer)
            == Ok("Category:" + first + "\n" + rest)
  {
    var s := first + "\ncategory:" + rest;
    var n := |first|;
    forall j | 0 <= j < n + 1
      ensures !CategoryHere(s, j)
    {
      if j == 0 {
        assert s[0..][0] == first[0];
      } else {
        assert s[j - 1] == first[j - 1];
      }
    }
    assert s[n + 1..][..9] == "category:";
    assert CategoryHere(s, n + 1);
    CategoryAtFinds(s, 0, n + 1);
    assert s[..n + 1] + s[n + 10..] == first + "\n" + rest;
    assert "Category:" + (first + "\n" + rest) == "Category:" + first + "\n" + rest;
  }

  /** A link raises NameError, as the branch reads an undefined `prefix`. */
  lemma CategoryOfLinkRaises(target: string, infoboxer: string)
    ensures MediaWikiCategory(LinkInput(target), infoboxer) == Err(NameError("prefix"))
  {
  }
}
