/**
 * Scaled-number extraction of lib/reality/entity.rb: the short-scale table,
 * `fetch_scale`, `parse_scaled`, `parse_maybe_scaled` and the empty check of
 * `fetch_named_measure`.
 *
 * The regexps `^([0-9.,]+)[[:space:]]*(million|billion|...)` (strict) and
 * `^([0-9.,]+)[[:space:]]*(million|...)?` (lenient) are modelled as a search
 * over the line starts of the text, trying at each one the greedy reading of
 * the amount and the spaces. StrictMatchUnique shows that a match can only be
 * read one way, so the backtracking order of the regexp engine does not matter.
 * The float product `to_f * scale` is computed exactly on reals; `to_i` of a
 * non-negative number is its floor.
 */
module Scaled {
  import opened Outcome
  import opened Text

  /** The short-scale words and their multipliers, in table order. */
  const Scales: seq<(string, nat)> := [
    ("million", 1_000_000),
    ("billion", 1_000_000_000),
    ("trillion", 1_000_000_000_000),
    ("quadrillion", 1_000_000_000_000_000),
    ("quintillion", 1_000_000_000_000_000_000),
    ("sextillion", 1_000_000_000_000_000_000_000),
    ("septillion", 1_000_000_000_000_000_000_000_000)
  ]

  /** Each word is a thousand times the previous one, starting at ten to the sixth. */
  lemma ScalesAreShortScale()
    ensures |Scales| == 7
    ensures forall i :: 0 <= i < |Scales| ==> Scales[i].1 == Pow10(3 * i + 6)
  {
    assert Pow10(6) == 1_000_000;
    assert Pow10(9) == 1_000_000_000;
    assert Pow10(12) == 1_000_000_000_000;
    assert Pow10(15) == 1_000_000_000_000_000;
    assert Pow10(18) == 1_000_000_000_000_000_000;
    assert Pow10(21) == 1_000_000_000_000_000_000_000;
    assert Pow10(24) == 1_000_000_000_000_000_000_000_000;
  }

  /** Every word begins with a lower-case letter. */
  lemma WordsStartWithLetter(k: nat)
    requires k < |Scales|
    ensures |Scales[k].0| > 0 && 'a' <= Scales[k].0[0] <= 'z'
  {
  }

  /** No word of the table is a prefix of another one. */
  lemma NoWordIsPrefixOfAnother(i: nat, j: nat)
    requires i < |Scales| && j < |Scales|
    requires Scales[i].0 <= Scales[j].0
    ensures i == j
  {
    var a, b := Scales[i].0, Scales[j].0;
    assert a[0] == b[0] && a[1] == b[1] && a[2] == b[2];
  }

  /** Two words that both begin t are the same word. */
  lemma PrefixWordsAgree(t: string, i: nat, j: nat)
    requires i < |Scales| && j < |Scales|
    requires Scales[i].0 <= t && Scales[j].0 <= t
    ensures i == j
  {
    var a, b := Scales[i].0, Scales[j].0;
    if |a| <= |b| {
      assert a == t[..|a|] == b[..|a|];
      NoWordIsPrefixOfAnother(i, j);
    } else {
      assert b == t[..|b|] == a[..|b|];
      NoWordIsPrefixOfAnother(j, i);
    }
  }

  /** The index of the first table word (from index i on) that t begins with: `SCALES.detect`. */
  function Detect(t: string, i: nat): (r: Option<nat>)
    requires i <= |Scales|
    ensures r.Some? ==> i <= r.value < |Scales| && Scales[r.value].0 <= t
    ensures r.Some? ==> forall j :: i <= j < r.value ==> !(Scales[j].0 <= t)
    ensures r.None? ==> forall j :: i <= j < |Scales| ==> !(Scales[j].0 <= t)
    decreases |Scales| - i
  {
    if i == |Scales| then None
    else if Scales[i].0 <= t then Some(i)
    else Detect(t, i + 1)
  }

  /** Failures of the parsers; `owner` is the entity the value belongs to (`#{self}` in the message). */
  datatype ParseError =
    | Unparseable(text: string, owner: string)   // ArgumentError "Unparseable scaled value ..."
    | ScaleNotFound(text: string, owner: string) // RuntimeError "Scale not found: ..."

  /** `fetch_scale`: the multiplier of the first word that str starts with. */
  function FetchScale(owner: string, str: string): (r: Result<nat, ParseError>)
    ensures r.Err? ==> r.error == ScaleNotFound(str, owner)
  {
    match Detect(str, 0)
    case Some(k) => Ok(Scales[k].1)
    case None => Err(ScaleNotFound(str, owner))
  }

  /**
   * `fetch_scale` succeeds exactly when str starts with a table word, and then
   * gives that word's multiplier: since no word is a prefix of another, taking
   * the first word in table order loses nothing.
   */
  lemma FetchScaleSpec(owner: string, str: string)
    ensures FetchScale(owner, str).Ok? <==> exists i :: 0 <= i < |Scales| && Scales[i].0 <= str
    ensures forall i :: 0 <= i < |Scales| && Scales[i].0 <= str ==> FetchScale(owner, str) == Ok(Scales[i].1)
  {
    var d := Detect(str, 0);
    if d.Some? {
      forall i | 0 <= i < |Scales| && Scales[i].0 <= str ensures i == d.value {
        PrefixWordsAgree(str, i, d.value);
      }
    }
  }

  /** Each table word, with anything after it, resolves to its own multiplier. */
  lemma FetchScaleOfWord(owner: string, k: nat, rest: string)
    requires k < |Scales|
    ensures FetchScale(owner, Scales[k].0 + rest) == Ok(Scales[k].1)
  {
    assert Scales[k].0 <= Scales[k].0 + rest;
    FetchScaleSpec(owner, Scales[k].0 + rest);
  }

  /** `[0-9.,]` */
  predicate IsAmountChar(c: char) { IsDigit(c) || c == '.' || c == ',' }

  /** `[[:space:]]`: the Unicode White_Space characters. */
  predicate IsSpace(c: char)
  {
    ('\t' <= c <= '\r') || c == ' ' || c == 0x85 as char || c == 0xA0 as char || c == 0x1680 as char
    || (0x2000 as char <= c <= 0x200A as char) || c == 0x2028 as char || c == 0x2029 as char
    || c == 0x202F as char || c == 0x205F as char || c == 0x3000 as char
  }

  /** End of the longest run of amount characters starting at i. */
  function AmountEnd(s: string, i: nat): (e: nat)
    requires i <= |s|
    ensures i <= e <= |s|
    ensures forall k :: i <= k < e ==> IsAmountChar(s[k])
    ensures e == |s| || !IsAmountChar(s[e])
    decreases |s| - i
  {
    if i < |s| && IsAmountChar(s[i]) then AmountEnd(s, i + 1) else i
  }

  /** End of the longest run of spaces starting at i. */
  function SpaceEnd(s: string, i: nat): (f: nat)
    requires i <= |s|
    ensures i <= f <= |s|
    ensures forall k :: i <= k < f ==> IsSpace(s[k])
    ensures f == |s| || !IsSpace(s[f])
    decreases |s| - i
  {
    if i < |s| && IsSpace(s[i]) then SpaceEnd(s, i + 1) else i
  }

  /** The two captures of a match: the amount text and the scale word read, as its index in the table. */
  datatype Match = Match(amount: string, scale: Option<nat>)

  /** The regexp tried at position p; `strict` makes the scale word required. */
  function MatchAt(s: string, p: nat, strict: bool): (r: Option<Match>)
    requires p <= |s|
    ensures r.Some? ==> p < |s| && IsAmountChar(s[p])
    ensures r.Some? && strict ==> r.value.scale.Some?
    ensures r.Some? && r.value.scale.Some? ==> r.value.scale.value < |Scales|
  {
    if p == |s| || !IsAmountChar(s[p]) then None
    else
      var e := AmountEnd(s, p);
      var f := SpaceEnd(s, e);
      match Detect(s[f..], 0)
      case Some(k) => Some(Match(s[p..e], Some(k)))
      case None => if strict then None else Some(Match(s[p..e], None))
  }

  /** The regexp matches at a line start q. */
  predicate Hit(s: string, q: nat, strict: bool)
    requires q <= |s|
  {
    LineStart(s, q) && MatchAt(s, q, strict).Some?
  }

  /** Regexp#match: the match at the leftmost line start (from p on) where the pattern matches. */
  function Search(s: string, p: nat, strict: bool): (r: Option<Match>)
    requires p <= |s|
    ensures r.Some? && strict ==> r.value.scale.Some?
    ensures r.Some? && r.value.scale.Some? ==> r.value.scale.value < |Scales|
    decreases |s| - p
  {
    if Hit(s, p, strict) then MatchAt(s, p, strict)
    else if p == |s| then None
    else Search(s, p + 1, strict)
  }

  /** `gsub(/[,]/, '')` */
  function RemoveCommas(t: string): (r: string)
    ensures forall i :: 0 <= i < |r| ==> r[i] != ','
    ensures |t| == 1 ==> r == if t[0] == ',' then [] else t
    ensures (forall i :: 0 <= i < |t| ==> t[i] != ',') ==> r == t
  {
    if t == [] then [] else (if t[0] == ',' then [] else [t[0]]) + RemoveCommas(t[1..])
  }

  /** End of the run of digits starting at i. */
  function DigitEnd(t: string, i: nat): (e: nat)
    requires i <= |t|
    ensures i <= e <= |t|
    ensures AllDigits(t[i..e])
    ensures e == |t| || !IsDigit(t[e])
    decreases |t| - i
  {
    if i < |t| && IsDigit(t[i]) then DigitEnd(t, i + 1) else i
  }

  /** Ruby's String#to_i on an amount: the value of its leading digits. */
  function ToI(t: string): (n: nat)
    ensures AllDigits(t) ==> n == DigitsValue(t)
  {
    var e := DigitEnd(t, 0);
    assert AllDigits(t) ==> e == |t| && t[..e] == t;
    DigitsValue(t[..e])
  }

  /** An amount as Ruby's String#to_f reads it, kept exact: the number `digits` / 10^`places`. */
  datatype Decimal = Decimal(digits: nat, places: nat)

  ghost function Value(d: Decimal): real
  {
    d.digits as real / Pow10(d.places) as real
  }

  /** Ruby's String#to_f on an amount, exactly: leading digits, then a dot and the digits of the fraction. */
  function ToF(t: string): (d: Decimal)
    ensures d.places <= |t|
    ensures AllDigits(t) ==> d == Decimal(DigitsValue(t), 0)
  {
    var e := DigitEnd(t, 0);
    assert AllDigits(t) ==> e == |t| && t[..e] == t;
    if e < |t| && t[e] == '.' then
      var g := DigitEnd(t, e + 1);
      Decimal(DigitsValue(t[..e] + t[e + 1..g]), g - e - 1)
    else Decimal(DigitsValue(t[..e]), 0)
  }

  /** `(d * m).to_i`: the product truncated to an integer. */
  function Truncate(d: Decimal, m: nat): (n: int)
  {
    d.digits * m / Pow10(d.places)
  }

  /** `(amount.gsub(/[,]/, '').to_f * fetch_scale(scale)).to_i` for the scale word k read by the regexp. */
  function ScaledValue(owner: string, amount: string, k: nat): (r: Result<int, ParseError>)
    requires k < |Scales|
    ensures r == Ok(Truncate(ToF(RemoveCommas(amount)), Scales[k].1))
  {
    assert Scales[k].0 + "" == Scales[k].0;
    FetchScaleOfWord(owner, k, "");
    match FetchScale(owner, Scales[k].0)
    case Ok(m) => Ok(Truncate(ToF(RemoveCommas(amount)), m))
    case Err(e) => Err(e)
  }

  /** `parse_scaled`: an amount followed by a scale word is required. */
  function ParseScaled(owner: string, s: string): (r: Result<int, ParseError>)
    ensures r.Err? ==> r.error == Unparseable(s, owner)
  {
    match Search(s, 0, true)
    case None => Err(Unparseable(s, owner))
    case Some(m) => ScaledValue(owner, m.amount, m.scale.value)
  }

  /** `parse_maybe_scaled`: an amount, multiplied by the scale word when one follows. */
  function ParseMaybeScaled(owner: string, s: string): (r: Result<int, ParseError>)
    ensures r.Err? ==> r.error == Unparseable(s, owner)
  {
    match Search(s, 0, false)
    case None => Err(Unparseable(s, owner))
    case Some(m) =>
      if m.scale.Some? then ScaledValue(owner, m.amount, m.scale.value)
      else Ok(ToI(RemoveCommas(m.amount)))
  }

  /** The unit a named measure is paired with; Reality::Measure itself is not part of this model. */
  datatype Measure = Measure(amount: int, unit: string)

  /**
   * `fetch_named_measure` from the text of the infobox field: nil for a blank
   * field, otherwise the lenient parse of the stripped text with the unit.
   */
  function NamedMeasure(owner: string, fieldText: string, unit: string): (r: Result<Option<Measure>, ParseError>)
    ensures r == Ok(None) <==> forall j :: 0 <= j < |fieldText| ==> IsStripSpace(fieldText[j])
    ensures r.Ok? && r.value.Some? ==> r.value.value.unit == unit
    ensures r.Ok? && r.value.Some? ==> ParseMaybeScaled(owner, Strip(fieldText)) == Ok(r.value.value.amount)
    ensures r.Err? ==> r.error == Unparseable(Strip(fieldText), owner)
    ensures r.Err? ==> ParseMaybeScaled(owner, Strip(fieldText)) == Err(r.error)
  {
    var src := Strip(fieldText);
    if src == [] then Ok(None)
    else
      match ParseMaybeScaled(owner, src)
      case Ok(n) => Ok(Some(Measure(n, unit)))
      case Err(e) => Err(e)
  }
}

/** Properties of the scaled-number parsers. */
module ScaledProperties {
  import opened Outcome
  import opened Text
  import opened Scaled

  /** A run [i, e) of amount characters that cannot be extended is the one AmountEnd finds. */
  lemma AmountEndUnique(s: string, i: nat, e: nat)
    requires i <= e <= |s|
    requires forall j :: i <= j < e ==> IsAmountChar(s[j])
    requires e == |s| || !IsAmountChar(s[e])
    ensures AmountEnd(s, i) == e
  {
  }

  /** A run [i, f) of spaces that cannot be extended is the one SpaceEnd finds. */
  lemma SpaceEndUnique(s: string, i: nat, f: nat)
    requires i <= f <= |s|
    requires forall j :: i <= j < f ==> IsSpace(s[j])
    requires f == |s| || !IsSpace(s[f])
    ensures SpaceEnd(s, i) == f
  {
  }

  /**
   * One reading of the strict regexp at p: the amount characters [p, e), the
   * spaces [e, f), and table word k at f.
   */
  ghost predicate ScaledReading(s: string, p: nat, e: nat, f: nat, k: nat)
  {
    p < e <= f <= |s| && k < |Scales|
    && (forall j :: p <= j < e ==> IsAmountChar(s[j]))
    && (forall j :: e <= j < f ==> IsSpace(s[j]))
    && Scales[k].0 <= s[f..]
  }

  /**
   * The strict regexp can be read only one way: any reading has the longest
   * amount, the longest run of spaces, and is the match MatchAt returns.
   */
  lemma {:induction false} StrictMatchUnique(s: string, p: nat, e: nat, f: nat, k: nat)
    requires ScaledReading(s, p, e, f, k)
    ensures e == AmountEnd(s, p) && f == SpaceEnd(s, e)
    ensures MatchAt(s, p, true) == Some(Match(s[p..e], Some(k)))
    ensures MatchAt(s, p, false) == Some(Match(s[p..e], Some(k)))
  {
    WordsStartWithLetter(k);
    assert f < |s| && s[f] == Scales[k].0[0];
    assert e == |s| || !IsAmountChar(s[e]) by {
      if e < f { assert IsSpace(s[e]); }
    }
    AmountEndUnique(s, p, e);
    SpaceEndUnique(s, e, f);
    var d := Detect(s[f..], 0);
    assert d.Some?;
    PrefixWordsAgree(s[f..], d.value, k);
  }

  /** The strict regexp matches at p exactly when it has a reading there. */
  lemma StrictMatchHasReading(s: string, p: nat)
    requires p <= |s|
    ensures MatchAt(s, p, true).Some? <==> exists e, f, k :: ScaledReading(s, p, e, f, k)
  {
    if MatchAt(s, p, true).Some? {
      var e := AmountEnd(s, p);
      var f := SpaceEnd(s, e);
      var k := MatchAt(s, p, true).value.scale.value;
      assert ScaledReading(s, p, e, f, k);
    }
    if exists e, f, k :: ScaledReading(s, p, e, f, k) {
      var e: nat, f: nat, k: nat :| ScaledReading(s, p, e, f, k);
      StrictMatchUnique(s, p, e, f, k);
    }
  }

  /** The search returns the match at the first line start where the regexp matches. */
  lemma SearchFindsFirst(s: string, p: nat, strict: bool)
    requires p <= |s| && Hit(s, p, strict)
    requires forall q :: 0 <= q < p ==> !Hit(s, q, strict)
    ensures Search(s, 0, strict) == MatchAt(s, p, strict)
  {
    SearchFrom(s, 0, p, strict);
  }

  lemma {:induction false} SearchFrom(s: string, i: nat, p: nat, strict: bool)
    requires i <= p <= |s| && Hit(s, p, strict)
    requires forall q :: i <= q < p ==> !Hit(s, q, strict)
    ensures Search(s, i, strict) == MatchAt(s, p, strict)
    decreases p - i
  {
    if i < p {
      SearchFrom(s, i + 1, p, strict);
    }
  }

  /** The search fails exactly when the regexp matches at no line start from i on. */
  lemma {:induction false} SearchFailsIff(s: string, i: nat, strict: bool)
    requires i <= |s|
    ensures Search(s, i, strict).None? <==> forall q :: i <= q <= |s| ==> !Hit(s, q, strict)
    decreases |s| - i
  {
    if !Hit(s, i, strict) && i < |s| {
      SearchFailsIff(s, i + 1, strict);
    }
  }

  /** The strict regexp has a reading at a line start q of s. */
  ghost predicate ReadableAt(s: string, q: nat)
  {
    LineStart(s, q) && exists e, f, k :: ScaledReading(s, q, e, f, k)
  }

  /**
   * `parse_scaled` fails, with the unparseable text, exactly when no line of
   * the text starts with an amount followed (after spaces) by a scale word.
   */
  lemma ParseScaledFailsIff(owner: string, s: string)
    ensures ParseScaled(owner, s).Err? <==> forall q :: 0 <= q <= |s| ==> !ReadableAt(s, q)
    ensures ParseScaled(owner, s).Err? ==> ParseScaled(owner, s).error == Unparseable(s, owner)
  {
    SearchFailsIff(s, 0, true);
    forall q | 0 <= q <= |s| ensures Hit(s, q, true) <==> ReadableAt(s, q) {
      StrictMatchHasReading(s, q);
    }
  }

  /**
   * On the first line that has a reading, `parse_scaled` multiplies the amount,
   * commas removed, by the word's multiplier and truncates.
   */
  lemma ParseScaledValue(owner: string, s: string, p: nat, e: nat, f: nat, k: nat)
    requires LineStart(s, p) && ScaledReading(s, p, e, f, k)
    requires forall q :: 0 <= q < p ==> !ReadableAt(s, q)
    ensures ParseScaled(owner, s) == Ok(Truncate(ToF(RemoveCommas(s[p..e])), Scales[k].1))
  {
    StrictMatchUnique(s, p, e, f, k);
    forall q | 0 <= q < p ensures !Hit(s, q, true) {
      assert !ReadableAt(s, q);
      StrictMatchHasReading(s, q);
    }
    SearchFindsFirst(s, p, true);
    assert Search(s, 0, true) == Some(Match(s[p..e], Some(k)));
  }

  /**
   * `parse_maybe_scaled` fails, with the unparseable text, exactly when no line
   * of the text starts with one of `0-9 . ,`.
   */
  lemma ParseMaybeScaledFailsIff(owner: string, s: string)
    ensures ParseMaybeScaled(owner, s).Err? <==>
              forall q :: 0 <= q < |s| && LineStart(s, q) ==> !IsAmountChar(s[q])
    ensures ParseMaybeScaled(owner, s).Err? ==> ParseMaybeScaled(owner, s).error == Unparseable(s, owner)
  {
    SearchFailsIff(s, 0, false);
    forall q | 0 <= q <= |s| ensures Hit(s, q, false) <==> (q < |s| && LineStart(s, q) && IsAmountChar(s[q])) {
    }
  }

  /**
   * Without a scale word after the amount at the start of the text,
   * `parse_maybe_scaled` reads the amount, commas removed, as an integer.
   */
  lemma ParseMaybeScaledUnscaled(owner: string, s: string, e: nat)
    requires 0 < e <= |s|
    requires forall j :: 0 <= j < e ==> IsAmountChar(s[j])
    requires e == |s| || !IsAmountChar(s[e])
    requires forall k :: 0 <= k < |Scales| ==> !(Scales[k].0 <= s[SpaceEnd(s, e)..])
    ensures ParseMaybeScaled(owner, s) == Ok(ToI(RemoveCommas(s[..e])))
  {
    ParseMaybeScaledUnscaledAt(owner, s, 0, e);
    assert s[0..e] == s[..e];
  }

  /**
   * The same on any line: when p is the first line start holding an amount
   * character, and no scale word follows that amount, `parse_maybe_scaled`
   * reads the amount [p, e), commas removed, as an integer.
   */
  lemma ParseMaybeScaledUnscaledAt(owner: string, s: string, p: nat, e: nat)
    requires p < e <= |s| && LineStart(s, p)
    requires forall q :: 0 <= q < p && LineStart(s, q) ==> !IsAmountChar(s[q])
    requires forall j :: p <= j < e ==> IsAmountChar(s[j])
    requires e == |s| || !IsAmountChar(s[e])
    requires forall k :: 0 <= k < |Scales| ==> !(Scales[k].0 <= s[SpaceEnd(s, e)..])
    ensures ParseMaybeScaled(owner, s) == Ok(ToI(RemoveCommas(s[p..e])))
  {
    AmountEndUnique(s, p, e);
    assert Hit(s, p, false);
    forall q | 0 <= q < p ensures !Hit(s, q, false) {
      assert LineStart(s, q) ==> !IsAmountChar(s[q]);
    }
    SearchFindsFirst(s, p, false);
  }

  /** On a single-line text, whenever `parse_scaled` succeeds, `parse_maybe_scaled` gives the same number. */
  lemma StrictAndLenientAgree(owner: string, s: string)
    requires forall j :: 0 <= j < |s| ==> s[j] != '\n'
    requires ParseScaled(owner, s).Ok?
    ensures ParseMaybeScaled(owner, s) == ParseScaled(owner, s)
  {
    ParseScaledFailsIff(owner, s);
    var q :| 0 <= q <= |s| && ReadableAt(s, q);
    assert q == 0;
    var e: nat, f: nat, k: nat :| ScaledReading(s, 0, e, f, k);
    ParseScaledValue(owner, s, 0, e, f, k);
    StrictMatchUnique(s, 0, e, f, k);
    SearchFindsFirst(s, 0, false);
  }

  lemma DigitsHaveNoCommas(d: string)
    requires AllDigits(d)
    ensures RemoveCommas(d) == d
  {
  }

  /**
   * Removing the commas of two texts one after the other is removing them from
   * their concatenation; with the one-character case in its contract, this
   * pins RemoveCommas down: every other character is kept, in order.
   */
  lemma {:induction false} RemoveCommasAppend(a: string, b: string)
    ensures RemoveCommas(a + b) == RemoveCommas(a) + RemoveCommas(b)
    decreases |a|
  {
    if a == [] {
      assert a + b == b;
    } else {
      assert (a + b)[0] == a[0] && (a + b)[1..] == a[1..] + b;
      RemoveCommasAppend(a[1..], b);
    }
  }

  /**
   * Round trip with Ruby's Integer#to_s: the rendered number, followed by
   * spaces and text that is neither an amount nor a scale word, parses back
   * to the number.
   */
  lemma ParseMaybeScaledOfNumber(owner: string, n: nat, sp: string, tail: string)
    requires forall j :: 0 <= j < |sp| ==> IsSpace(sp[j])
    requires tail == [] || (!IsSpace(tail[0]) && !IsAmountChar(tail[0]))
    requires forall k :: 0 <= k < |Scales| ==> !(Scales[k].0 <= tail)
    ensures ParseMaybeScaled(owner, NatToString(n) + sp + tail) == Ok(n)
  {
    var d := NatToString(n);
    var s := d + sp + tail;
    var e := |d|;
    assert s[..e] == d;
    assert e == |s| || !IsAmountChar(s[e]) by {
      if e < |s| {
        if sp != [] { assert s[e] == sp[0]; } else { assert s[e] == tail[0]; }
      }
    }
    SpaceEndUnique(s, e, e + |sp|);
    assert s[e + |sp|..] == tail;
    ParseMaybeScaledUnscaled(owner, s, e);
    DigitsHaveNoCommas(d);
    NatToStringRoundTrip(n);
  }

  /**
   * Round trip with a scale word: the rendered number, spaces and a table word
   * parse to the number times the word's multiplier, strictly and leniently.
   */
  lemma ParseScaledOfNumber(owner: string, n: nat, sp: string, k: nat, rest: string)
    requires k < |Scales|
    requires forall j :: 0 <= j < |sp| ==> IsSpace(sp[j])
    ensures ParseScaled(owner, NatToString(n) + sp + Scales[k].0 + rest) == Ok(n * Scales[k].1)
    ensures ParseMaybeScaled(owner, NatToString(n) + sp + Scales[k].0 + rest) == Ok(n * Scales[k].1)
  {
    var d := NatToString(n);
    var s := d + sp + Scales[k].0 + rest;
    var e, f := |d|, |d| + |sp|;
    assert s[f..] == Scales[k].0 + rest;
    assert ScaledReading(s, 0, e, f, k);
    ParseScaledValue(owner, s, 0, e, f, k);
    StrictMatchUnique(s, 0, e, f, k);
    assert Hit(s, 0, false);
    FetchScaleOfWord(owner, k, []);
    assert Scales[k].0 + [] == Scales[k].0;
    assert s[..e] == d;
    DigitsHaveNoCommas(d);
    NatToStringRoundTrip(n);
    TruncateWhole(n, Scales[k].1);
  }

  /** A whole amount is multiplied exactly. */
  lemma TruncateWhole(n: nat, m: nat)
    ensures Truncate(Decimal(n, 0), m) == n * m
  {
    assert Pow10(0) == 1;
  }

  /**
   * A decimal amount `w.fr` followed by spaces and a table word parses to the
   * exact product with the multiplier, truncated.
   */
  lemma ParseScaledOfDecimal(owner: string, w: string, fr: string, sp: string, k: nat, rest: string)
    requires AllDigits(w) && AllDigits(fr)
    requires k < |Scales|
    requires forall j :: 0 <= j < |sp| ==> IsSpace(sp[j])
    ensures AllDigits(w + fr)
    ensures ParseScaled(owner, w + "." + fr + sp + Scales[k].0 + rest)
            == Ok(Truncate(Decimal(DigitsValue(w + fr), |fr|), Scales[k].1))
  {
    var a := w + "." + fr;
    DecimalIsAmount(w, fr);
    AmountThenScale(a, sp, k, rest);
    var s := a + sp + Scales[k].0 + rest;
    assert s == w + "." + fr + sp + Scales[k].0 + rest;
    ParseScaledValue(owner, s, 0, |a|, |a| + |sp|, k);
    ToFOfDecimal(w, fr, "");
    assert w + "." + fr + "" == w + "." + fr;
  }

  lemma DecimalIsAmount(w: string, fr: string)
    requires AllDigits(w) && AllDigits(fr)
    ensures forall j :: 0 <= j < |w + "." + fr| ==> IsAmountChar((w + "." + fr)[j])
  {
  }

  /** An amount, spaces and a table word are read as such. */
  lemma AmountThenScale(a: string, sp: string, k: nat, rest: string)
    requires |a| > 0 && forall j :: 0 <= j < |a| ==> IsAmountChar(a[j])
    requires k < |Scales|
    requires forall j :: 0 <= j < |sp| ==> IsSpace(sp[j])
    ensures ScaledReading(a + sp + Scales[k].0 + rest, 0, |a|, |a| + |sp|, k)
    ensures (a + sp + Scales[k].0 + rest)[..|a|] == a
  {
    var s := a + sp + Scales[k].0 + rest;
    assert s[|a| + |sp|..] == Scales[k].0 + rest;
    assert s[..|a|] == a;
  }

  /**
   * `to_f` reads `w.fr` exactly, and stops there when what follows is not a
   * digit (a second dot, as in "1.2.3", ends the number); `w.fr` itself has no
   * separators to drop.
   */
  lemma ToFOfDecimal(w: string, fr: string, rest: string)
    requires AllDigits(w) && AllDigits(fr)
    requires rest == [] || !IsDigit(rest[0])
    ensures AllDigits(w + fr)
    ensures RemoveCommas(w + "." + fr) == w + "." + fr
    ensures ToF(w + "." + fr + rest) == Decimal(DigitsValue(w + fr), |fr|)
  {
    DecimalHasNoCommas(w, fr);
    var a := w + "." + fr + rest;
    var g := |w| + 1 + |fr|;
    assert a[..|w|] == w && a[|w|] == '.' && a[|w| + 1..g] == fr;
    assert g == |a| || a[g] == rest[0];
    ToFAt(a, |w|, g);
    DigitsValueAppend(w, fr);
  }

  lemma DecimalHasNoCommas(w: string, fr: string)
    requires AllDigits(w) && AllDigits(fr)
    ensures RemoveCommas(w + "." + fr) == w + "." + fr
  {
    var a := w + "." + fr;
    assert forall i :: 0 <= i < |a| ==> a[i] != ',';
  }

  /** `to_f` reads the digits before a dot at e and the run of digits after it, up to g. */
  lemma ToFAt(t: string, e: nat, g: nat)
    requires e < g <= |t| && t[e] == '.'
    requires AllDigits(t[..e]) && AllDigits(t[e + 1..g])
    requires g == |t| || !IsDigit(t[g])
    ensures ToF(t) == Decimal(DigitsValue(t[..e] + t[e + 1..g]), g - e - 1)
  {
    assert t[0..e] == t[..e];
    DigitEndAt(t, 0, e);
    DigitEndAt(t, e + 1, g);
  }

  /** Worked example: an amount with a second dot, "1.2.3", is read as 1.2. */
  lemma ExampleSecondDot()
    ensures ToF("1.2.3") == Decimal(12, 1)
  {
    ToFOfDecimal("1", "2", ".3");
    assert "1" + "." + "2" + ".3" == "1.2.3";
    assert "1" + "2" == "12" && "12"[..1] == "1";
  }

  /** DigitEnd stops exactly at the end of a run of digits. */
  lemma {:induction false} DigitEndAt(t: string, i: nat, e: nat)
    requires i <= e <= |t| && AllDigits(t[i..e])
    requires e == |t| || !IsDigit(t[e])
    ensures DigitEnd(t, i) == e
    decreases e - i
  {
    if i < e {
      assert IsDigit(t[i..e][0]);
      assert t[i + 1..e] == t[i..e][1..];
      DigitEndAt(t, i + 1, e);
    }
  }

  /** The exact decimal `w.fr` is w plus fr tenths, hundredths, ... */
  lemma DecimalOfParts(w: string, fr: string)
    requires AllDigits(w) && AllDigits(fr)
    ensures AllDigits(w + fr)
    ensures Value(Decimal(DigitsValue(w + fr), |fr|))
            == DigitsValue(w) as real + DigitsValue(fr) as real / Pow10(|fr|) as real
  {
    DigitsValueAppend(w, fr);
    PartsOverPower(DigitsValue(w), DigitsValue(fr), Pow10(|fr|));
  }

  lemma PartsOverPower(wv: nat, fv: nat, pv: nat)
    requires pv > 0
    ensures ((wv * pv + fv) as real) / pv as real == wv as real + fv as real / pv as real
  {
    CastMul(wv, pv);
    DivSplit(wv as real, pv as real, fv as real);
  }

  lemma CastMul(x: nat, y: nat)
    ensures (x * y) as real == x as real * y as real
  {
  }

  /** Truncate is the floor of the exact product, which is what `to_i` does to a non-negative float. */
  lemma TruncateIsFloor(d: Decimal, m: nat)
    ensures Truncate(d, m) == (Value(d) * m as real).Floor
  {
    var p, n := Pow10(d.places), d.digits * m;
    assert Truncate(d, m) == n / p;
    assert Value(d) == d.digits as real / p as real;
    DivTimes(d.digits as real, p as real, m as real);
    CastMul(d.digits, m);
    assert Value(d) * m as real == n as real / p as real;
    FloorOfQuotient(n, p);
  }

  /** Integer division of naturals is the floor of the exact quotient. */
  lemma FloorOfQuotient(n: nat, p: nat)
    requires p > 0
    ensures (n as real / p as real).Floor == n / p
  {
    var q, r := n / p, n % p;
    assert n == q * p + r && 0 <= r < p;
    CastMul(q, p);
    assert n as real == q as real * p as real + r as real;
    DivSplit(q as real, p as real, r as real);
    var f := r as real / p as real;
    assert n as real / p as real == q as real + f;
    FractionBelowOne(r, p);
    FloorOfWholeAndFraction(q, f);
  }

  lemma FractionBelowOne(r: int, p: int)
    requires 0 <= r < p
    ensures 0.0 <= r as real / p as real < 1.0
  {
    assert r as real < p as real;
  }

  lemma DivTimes(x: real, p: real, m: real)
    requires p > 0.0
    ensures (x / p) * m == (x * m) / p
  {
  }

  lemma DivSplit(q: real, p: real, r: real)
    requires p > 0.0
    ensures (q * p + r) / p == q + r / p
  {
  }

  lemma FloorOfWholeAndFraction(w: int, f: real)
    requires 0.0 <= f < 1.0
    ensures (w as real + f).Floor == w
  {
  }

  /** `to_i` on an amount is its `to_f` truncated: it stops at the first dot. */
  lemma ToIIsTruncatedToF(t: string)
    ensures ToI(t) == Truncate(ToF(t), 1)
  {
    var e := DigitEnd(t, 0);
    if e < |t| && t[e] == '.' {
      var g := DigitEnd(t, e + 1);
      var w, fr := t[..e], t[e + 1..g];
      DigitsValueAppend(w, fr);
      DigitsValueBound(fr);
      DivOfMulAdd(DigitsValue(w), Pow10(|fr|), DigitsValue(fr));
    }
  }

  /** Worked example: "1.5 million" is one and a half million. */
  lemma ExampleMillion(owner: string)
    ensures ParseScaled(owner, "1.5 million") == Ok(1_500_000)
  {
    MillionWord();
    ParseScaledOfDecimal(owner, "1", "5", " ", 0, "");
    OneAndAHalfMillion();
  }

  lemma MillionWord()
    ensures "1" + "." + "5" + " " + Scales[0].0 + "" == "1.5 million"
    ensures Scales[0].1 == 1_000_000
  {
    var word := Scales[0].0;
    assert word == "million";
    assert "1" + "." + "5" + " " == "1.5 ";
    assert "1.5 " + "million" + "" == "1.5 million";
  }

  lemma OneAndAHalfMillion()
    ensures AllDigits("1" + "5")
    ensures Truncate(Decimal(DigitsValue("1" + "5"), |"5"|), 1_000_000) == 1_500_000
  {
    assert "1" + "5" == "15";
    assert DigitsValue("15") == 15 by {
      assert "15"[..1] == "1";
    }
    assert Pow10(1) == 10;
  }

  /** Worked example: thousands separators are dropped, "2,300" is 2300. */
  lemma ExampleSeparated(owner: string)
    ensures ParseMaybeScaled(owner, "2,300") == Ok(2300)
  {
    var s := "2,300";
    SeparatedFigures();
    assert SpaceEnd(s, 5) == 5;
    ParseMaybeScaledUnscaled(owner, s, 5);
    assert s[..5] == s;
  }

  lemma SeparatedFigures()
    ensures RemoveCommas("2,300") == "2300"
    ensures DigitsValue("2300") == 2300
    ensures ToI("2300") == 2300
  {
    assert "2,300"[1..] == ",300" && ",300"[1..] == "300";
    DigitsHaveNoCommas("300");
    assert "2300"[..3] == "230" && "230"[..2] == "23" && "23"[..1] == "2";
    assert AllDigits("2300");
  }

  /** Worked example: the amount may start a later line, "abc\n42" is 42. */
  lemma ExampleLaterLine(owner: string)
    ensures ParseMaybeScaled(owner, "abc\n42") == Ok(42)
  {
    var s := "abc\n42";
    assert LineStart(s, 4);
    assert forall q :: 0 < q < 4 ==> !LineStart(s, q);
    assert SpaceEnd(s, 6) == 6 && s[6..] == [];
    forall k | 0 <= k < |Scales| ensures !(Scales[k].0 <= s[6..]) {
      WordsStartWithLetter(k);
    }
    ParseMaybeScaledUnscaledAt(owner, s, 4, 6);
    assert s[4..6] == "42";
    FortyTwo();
  }

  lemma FortyTwo()
    ensures ToI(RemoveCommas("42")) == 42
  {
    DigitsHaveNoCommas("42");
    assert "42"[..1] == "4" && "4"[..0] == [];
    assert DigitsValue("4") == 4;
    assert AllDigits("42") && DigitsValue("42") == 42;
  }

  /** Worked example: a text with no amount is unparseable. */
  lemma ExampleUnparseable(owner: string)
    ensures ParseMaybeScaled(owner, "abc") == Err(Unparseable("abc", owner))
  {
    ParseMaybeScaledFailsIff(owner, "abc");
  }

  /** Worked example: "42" is 42. */
  lemma ExampleNumber(owner: string)
    ensures ParseMaybeScaled(owner, "42") == Ok(42)
  {
    assert NatToString(4) == "4";
    assert NatToString(42) == "4" + "2";
    ParseMaybeScaledOfNumber(owner, 42, "", "");
    assert "4" + "2" + "" + "" == "42";
  }
}
