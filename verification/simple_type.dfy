/**
 * `Entity#to_simple_type`: turns the values an entity's properties hold
 * (numbers, strings, symbols, arrays, hashes, wiki links, text nodes and
 * measures) into plain data, and fails on anything else.
 */
module SimpleType {
  import opened Outcome

  /** The values a property can hold. `Other` is any object of a class the converter does not know. */
  datatype Value =
    | Nil
    | Int(i: int)
    | Float(x: real)
    | Str(s: string)
    | Sym(name: string)
    | Arr(items: seq<Value>)
    | Hash(pairs: seq<(Value, Value)>)
    | Wikilink(link: string)
    | Node(text: string)
    | MeasureValue(amount: real, unit: string)
    | Other(className: string)

  /**
   * Plain data. A hash is kept as Ruby keeps it: its entries in insertion
   * order, with no key twice.
   */
  datatype Simple =
    | SNil
    | SInt(i: int)
    | SFloat(x: real)
    | SStr(s: string)
    | SSym(name: string)
    | SArr(items: seq<Simple>)
    | SHash(entries: seq<(Simple, Simple)>)

  /** The ArgumentError raised for a value of an unknown class, which the message names. */
  datatype ConvError = NonCoercible(className: string)

  /** Ruby's `Numeric#to_i` on a measure amount: truncation toward zero. */
  function TruncateTowardZero(x: real): (n: int)
    ensures 0.0 <= x ==> 0 <= n && n as real <= x < n as real + 1.0
    ensures x < 0.0 ==> n <= 0 && n as real - 1.0 < x <= n as real
  {
    if x >= 0.0 then x.Floor else -((-x).Floor)
  }

  /** The first failure among a list of results, or all of their values in order. */
  function Collect<T>(rs: seq<Result<T, ConvError>>): (r: Result<seq<T>, ConvError>)
    ensures r.Ok? <==> forall i :: 0 <= i < |rs| ==> rs[i].Ok?
    ensures r.Ok? ==> |r.value| == |rs| && forall i :: 0 <= i < |rs| ==> r.value[i] == rs[i].value
    ensures r.Err? ==> exists i :: 0 <= i < |rs| && rs[i] == Err(r.error) && forall j :: 0 <= j < i ==> rs[j].Ok?
  {
    if rs == [] then Ok([])
    else match rs[0]
      case Err(e) => Err(e)
      case Ok(x) =>
        match Collect(rs[1..])
        case Err(e) => (assert rs[1..][0] == rs[1]; Err(e))
        case Ok(xs) => Ok([x] + xs)
  }

  /** Ruby's `Hash#[]=` on an insertion-ordered hash: an existing key keeps its place and takes the new value. */
  function Store(h: seq<(Simple, Simple)>, k: Simple, v: Simple): (r: seq<(Simple, Simple)>)
    ensures (k, v) in r
    ensures forall p :: p in r ==> p == (k, v) || p in h
    ensures |r| == |h| || |r| == |h| + 1
  {
    if h == [] then [(k, v)]
    else if h[0].0 == k then [(k, v)] + h[1..]
    else [h[0]] + Store(h[1..], k, v)
  }

  /** `Array#to_h` on a list of pairs: each pair is stored in turn, so a later pair overrides an earlier one. */
  function BuildHash(pairs: seq<(Simple, Simple)>): (r: seq<(Simple, Simple)>)
    ensures |r| <= |pairs|
    ensures forall p :: p in r ==> p in pairs
  {
    if pairs == [] then []
    else
      var init := pairs[..|pairs| - 1];
      assert forall p :: p in init ==> p in pairs;
      Store(BuildHash(init), pairs[|pairs| - 1].0, pairs[|pairs| - 1].1)
  }

  function ToSimple(v: Value): (r: Result<Simple, ConvError>)
    ensures v.Other? ==> r == Err(NonCoercible(v.className))
    ensures v.Wikilink? ==> r == Ok(SStr(v.link))
    ensures v.Node? ==> r == Ok(SStr(v.text))
    ensures v.MeasureValue? ==> r == Ok(SInt(TruncateTowardZero(v.amount)))
    ensures r.Ok? && v.Arr? ==> r.value.SArr? && |r.value.items| == |v.items|
    ensures r.Ok? && v.Hash? ==> r.value.SHash? && |r.value.entries| <= |v.pairs|
    decreases v
  {
    match v
    case Nil => Ok(SNil)
    case Int(i) => Ok(SInt(i))
    case Float(x) => Ok(SFloat(x))
    case Str(s) => Ok(SStr(s))
    case Sym(name) => Ok(SSym(name))
    case Arr(items) =>
      var rs := seq(|items|, i requires 0 <= i < |items| => ToSimple(items[i]));
      (match Collect(rs)
       case Ok(xs) => Ok(SArr(xs))
       case Err(e) => Err(e))
    case Hash(pairs) =>
      var rs := seq(|pairs|, i requires 0 <= i < |pairs| => ToSimpleEntry(v, pairs[i]));
      (match Collect(rs)
       case Ok(ps) => Ok(SHash(BuildHash(ps)))
       case Err(e) => Err(e))
    case Wikilink(link) => Ok(SStr(link))
    case Node(text) => Ok(SStr(text))
    case MeasureValue(amount, _) => Ok(SInt(TruncateTowardZero(amount)))
    case Other(c) => Err(NonCoercible(c))
  }

  /** One entry of a hash: its key converted first, then its value. */
  function ToSimpleEntry(h: Value, p: (Value, Value)): (r: Result<(Simple, Simple), ConvError>)
    requires h.Hash? && p in h.pairs
    decreases h, 0
  {
    match ToSimple(p.0)
    case Err(e) => Err(e)
    case Ok(k) =>
      match ToSimple(p.1)
      case Err(e) => Err(e)
      case Ok(x) => Ok((k, x))
  }
}

module SimpleTypeProperties {
  import opened Outcome
  import opened SimpleType

  /** Reference: a value converts when no object of an unknown class occurs anywhere in it. */
  ghost predicate Convertible(v: Value)
    decreases v
  {
    match v
    case Other(_) => false
    case Arr(items) => forall i :: 0 <= i < |items| ==> Convertible(items[i])
    case Hash(pairs) => forall i :: 0 <= i < |pairs| ==> Convertible(pairs[i].0) && Convertible(pairs[i].1)
    case _ => true
  }

  /** An object of class `c` occurs somewhere in `v`. */
  ghost predicate Mentions(v: Value, c: string)
    decreases v
  {
    match v
    case Other(d) => d == c
    case Arr(items) => exists i :: 0 <= i < |items| && Mentions(items[i], c)
    case Hash(pairs) => exists i :: 0 <= i < |pairs| && (Mentions(pairs[i].0, c) || Mentions(pairs[i].1, c))
    case _ => false
  }

  /** `to_simple_type` succeeds exactly on values in which no unknown class occurs. */
  lemma {:induction false} ToSimpleOkIff(v: Value)
    ensures ToSimple(v).Ok? <==> Convertible(v)
    decreases v
  {
    match v
    case Arr(items) =>
      var rs := seq(|items|, i requires 0 <= i < |items| => ToSimple(items[i]));
      forall i | 0 <= i < |items|
        ensures rs[i].Ok? <==> Convertible(items[i])
      {
        ToSimpleOkIff(items[i]);
      }
      assert ToSimple(v).Ok? <==> Collect(rs).Ok?;
    case Hash(pairs) =>
      var rs := seq(|pairs|, i requires 0 <= i < |pairs| => ToSimpleEntry(v, pairs[i]));
      forall i | 0 <= i < |pairs|
        ensures rs[i].Ok? <==> Convertible(pairs[i].0) && Convertible(pairs[i].1)
      {
        ToSimpleOkIff(pairs[i].0);
        ToSimpleOkIff(pairs[i].1);
      }
      assert ToSimple(v).Ok? <==> Collect(rs).Ok?;
    case _ =>
  }

  /** A failure names the class of an object that occurs in the value. */
  lemma {:induction false} ErrorNamesOccurringClass(v: Value)
    ensures ToSimple(v).Err? ==> Mentions(v, ToSimple(v).error.className)
    decreases v
  {
    match v
    case Arr(items) =>
      if ToSimple(v).Err? {
        var rs := seq(|items|, i requires 0 <= i < |items| => ToSimple(items[i]));
        var i :| 0 <= i < |rs| && rs[i] == Err(ToSimple(v).error);
        ErrorNamesOccurringClass(items[i]);
      }
    case Hash(pairs) =>
      if ToSimple(v).Err? {
        var rs := seq(|pairs|, i requires 0 <= i < |pairs| => ToSimpleEntry(v, pairs[i]));
        var i :| 0 <= i < |rs| && rs[i] == Err(ToSimple(v).error);
        ErrorNamesOccurringClass(pairs[i].0);
        ErrorNamesOccurringClass(pairs[i].1);
      }
    case _ =>
  }

  /** An array converts element by element, in order, to an array of the same length. */
  lemma ArrayConvertsElementwise(items: seq<Value>)
    requires ToSimple(Arr(items)).Ok?
    ensures ToSimple(Arr(items)).value.SArr?
    ensures |ToSimple(Arr(items)).value.items| == |items|
    ensures forall i :: 0 <= i < |items| ==> ToSimple(items[i]) == Ok(ToSimple(Arr(items)).value.items[i])
  {
    var rs := seq(|items|, i requires 0 <= i < |items| => ToSimple(items[i]));
    assert forall i :: 0 <= i < |items| ==> rs[i] == ToSimple(items[i]);
  }

  function Keys(h: seq<(Simple, Simple)>): (ks: seq<Simple>)
    ensures |ks| == |h| && forall i :: 0 <= i < |h| ==> ks[i] == h[i].0
  {
    seq(|h|, i requires 0 <= i < |h| => h[i].0)
  }

  predicate KeysDistinct(h: seq<(Simple, Simple)>)
  {
    forall i, j :: 0 <= i < j < |h| ==> h[i].0 != h[j].0
  }

  /** `Hash#[]`: the value stored under `k`, if any. */
  function Lookup(h: seq<(Simple, Simple)>, k: Simple): Option<Simple>
  {
    if h == [] then None else if h[0].0 == k then Some(h[0].1) else Lookup(h[1..], k)
  }

  /** Reference: the value of the last pair whose key is `k`. */
  function LastValue(pairs: seq<(Simple, Simple)>, k: Simple): Option<Simple>
  {
    if pairs == [] then None
    else if pairs[|pairs| - 1].0 == k then Some(pairs[|pairs| - 1].1)
    else LastValue(pairs[..|pairs| - 1], k)
  }

  /** Reference: the keys in order of first appearance. */
  function FirstOccurrences(ks: seq<Simple>): seq<Simple>
  {
    if ks == [] then []
    else
      var d := FirstOccurrences(ks[..|ks| - 1]);
      if ks[|ks| - 1] in d then d else d + [ks[|ks| - 1]]
  }

  /** Storing a key maps it to the new value and leaves every other key as it was. */
  lemma {:induction false} StoreLookup(h: seq<(Simple, Simple)>, k: Simple, v: Simple, k': Simple)
    ensures Lookup(Store(h, k, v), k') == if k' == k then Some(v) else Lookup(h, k')
  {
    if h != [] && h[0].0 != k {
      StoreLookup(h[1..], k, v, k');
      assert Store(h, k, v)[1..] == Store(h[1..], k, v);
    } else if h != [] {
      assert Store(h, k, v)[1..] == h[1..];
    }
  }

  /** A stored key keeps its place if it was there, and is added at the end otherwise. */
  lemma {:induction false} StoreKeys(h: seq<(Simple, Simple)>, k: Simple, v: Simple)
    ensures Keys(Store(h, k, v)) == if k in Keys(h) then Keys(h) else Keys(h) + [k]
  {
    if h == [] {
      assert Keys(Store(h, k, v)) == [k];
    } else {
      assert h == [h[0]] + h[1..];
      KeysCons(h[0], h[1..]);
      if h[0].0 != k {
        StoreKeys(h[1..], k, v);
        KeysCons(h[0], Store(h[1..], k, v));
        assert k in Keys(h) <==> k in Keys(h[1..]);
      } else {
        KeysCons((k, v), h[1..]);
      }
    }
  }

  lemma KeysCons(x: (Simple, Simple), t: seq<(Simple, Simple)>)
    ensures Keys([x] + t) == [x.0] + Keys(t)
  {
    assert forall i :: 0 < i <= |t| ==> ([x] + t)[i] == t[i - 1];
  }

  /** Storing never puts a key in twice. */
  lemma StoreKeepsKeysDistinct(h: seq<(Simple, Simple)>, k: Simple, v: Simple)
    requires KeysDistinct(h)
    ensures KeysDistinct(Store(h, k, v))
  {
    StoreKeys(h, k, v);
    var ks := Keys(Store(h, k, v));
    assert forall i, j :: 0 <= i < j < |ks| ==> ks[i] != ks[j];
  }

  /** `to_h` on a list of pairs: no key twice, and the keys keep the order of their first appearance. */
  lemma {:induction false} BuildHashSpec(pairs: seq<(Simple, Simple)>)
    ensures KeysDistinct(BuildHash(pairs))
    ensures Keys(BuildHash(pairs)) == FirstOccurrences(Keys(pairs))
  {
    if pairs != [] {
      var init, last := pairs[..|pairs| - 1], pairs[|pairs| - 1];
      BuildHashSpec(init);
      StoreKeys(BuildHash(init), last.0, last.1);
      StoreKeepsKeysDistinct(BuildHash(init), last.0, last.1);
      assert Keys(pairs)[..|pairs| - 1] == Keys(init);
    }
  }

  /** In the built hash each key maps to the value of its last pair. */
  lemma {:induction false} BuildHashLookup(pairs: seq<(Simple, Simple)>, k: Simple)
    ensures Lookup(BuildHash(pairs), k) == LastValue(pairs, k)
  {
    if pairs != [] {
      var init, last := pairs[..|pairs| - 1], pairs[|pairs| - 1];
      BuildHashLookup(init, k);
      StoreLookup(BuildHash(init), last.0, last.1, k);
    }
  }

  /** The converted pairs of a hash whose keys and values all convert. */
  function ConvertedPairs(pairs: seq<(Value, Value)>): (ps: seq<(Simple, Simple)>)
    requires forall i :: 0 <= i < |pairs| ==> ToSimple(pairs[i].0).Ok? && ToSimple(pairs[i].1).Ok?
    ensures |ps| == |pairs|
  {
    seq(|pairs|, i requires 0 <= i < |pairs| => (ToSimple(pairs[i].0).value, ToSimple(pairs[i].1).value))
  }

  /**
   * A hash converts pair by pair, and the result is `to_h` of the converted
   * pairs: no key twice, keys in order of first appearance, the last pair's
   * value for each key.
   */
  lemma HashConversion(pairs: seq<(Value, Value)>)
    requires ToSimple(Hash(pairs)).Ok?
    ensures forall i :: 0 <= i < |pairs| ==> ToSimple(pairs[i].0).Ok? && ToSimple(pairs[i].1).Ok?
    ensures ToSimple(Hash(pairs)).value.SHash?
    ensures KeysDistinct(ToSimple(Hash(pairs)).value.entries)
    ensures Keys(ToSimple(Hash(pairs)).value.entries) == FirstOccurrences(Keys(ConvertedPairs(pairs)))
    ensures forall k :: Lookup(ToSimple(Hash(pairs)).value.entries, k) == LastValue(ConvertedPairs(pairs), k)
  {
    var v := Hash(pairs);
    var rs := seq(|pairs|, i requires 0 <= i < |pairs| => ToSimpleEntry(v, pairs[i]));
    assert forall i :: 0 <= i < |pairs| ==> rs[i] == ToSimpleEntry(v, pairs[i]);
    var ps := ConvertedPairs(pairs);
    assert Collect(rs).value == ps;
    BuildHashSpec(ps);
    forall k
      ensures Lookup(BuildHash(ps), k) == LastValue(ps, k)
    {
      BuildHashLookup(ps, k);
    }
  }

  /** Plain data seen as a property value again. */
  function Embed(s: Simple): Value
    decreases s
  {
    match s
    case SNil => Nil
    case SInt(i) => Int(i)
    case SFloat(x) => Float(x)
    case SStr(t) => Str(t)
    case SSym(name) => Sym(name)
    case SArr(xs) => Arr(seq(|xs|, i requires 0 <= i < |xs| => Embed(xs[i])))
    case SHash(es) => Hash(seq(|es|, i requires 0 <= i < |es| => (Embed(es[i].0), Embed(es[i].1))))
  }

  /** Plain data as the converter produces it: no hash holds a key twice. */
  ghost predicate WellFormed(s: Simple)
    decreases s
  {
    match s
    case SArr(xs) => forall i :: 0 <= i < |xs| ==> WellFormed(xs[i])
    case SHash(es) => KeysDistinct(es) && forall i :: 0 <= i < |es| ==> WellFormed(es[i].0) && WellFormed(es[i].1)
    case _ => true
  }

  /** Storing a new key appends it. */
  lemma {:induction false} StoreNewKey(h: seq<(Simple, Simple)>, k: Simple, v: Simple)
    requires k !in Keys(h)
    ensures Store(h, k, v) == h + [(k, v)]
  {
    if h != [] {
      assert Keys(h) == [h[0].0] + Keys(h[1..]);
      StoreNewKey(h[1..], k, v);
    }
  }

  /** `to_h` leaves a list with distinct keys as it is. */
  lemma {:induction false} BuildHashOfDistinct(es: seq<(Simple, Simple)>)
    requires KeysDistinct(es)
    ensures BuildHash(es) == es
  {
    if es != [] {
      var init, last := es[..|es| - 1], es[|es| - 1];
      BuildHashOfDistinct(init);
      assert last.0 !in Keys(init);
      StoreNewKey(init, last.0, last.1);
    }
  }

  /** `to_simple_type` is the identity on plain data: converting a converted value changes nothing. */
  lemma {:induction false} ToSimpleOfSimple(s: Simple)
    requires WellFormed(s)
    ensures ToSimple(Embed(s)) == Ok(s)
    decreases s
  {
    match s
    case SArr(xs) =>
      var items := Embed(s).items;
      var rs := seq(|items|, i requires 0 <= i < |items| => ToSimple(items[i]));
      forall i | 0 <= i < |xs|
        ensures rs[i] == Ok(xs[i])
      {
        ToSimpleOfSimple(xs[i]);
      }
      assert Collect(rs).value == xs;
    case SHash(es) =>
      var v := Embed(s);
      var rs := seq(|es|, i requires 0 <= i < |es| => ToSimpleEntry(v, v.pairs[i]));
      forall i | 0 <= i < |es|
        ensures rs[i] == Ok(es[i])
      {
        ToSimpleOfSimple(es[i].0);
        ToSimpleOfSimple(es[i].1);
      }
      assert Collect(rs).value == es;
      BuildHashOfDistinct(es);
    case _ =>
  }
}
