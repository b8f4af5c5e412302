/**
 * The parameter store of an API action, as the generator modules use it.
 * `merge` belongs to the action base class, which is not part of this model;
 * it is modelled as the modules call it: an immutable map from a parameter
 * to its list of values, written either in append mode (`replace: false`),
 * which adds a value the list does not hold yet, or in replace mode (the
 * default), which makes the value the parameter's only one.
 */
module ParamStore {
  import opened Text

  datatype Action = Action(params: map<string, seq<string>>)

  /** The values set for `key`, none when it was never set. */
  function Get(a: Action, key: string): (vs: seq<string>)
  {
    if key in a.params then a.params[key] else []
  }

  predicate NoDuplicates(s: seq<string>)
  {
    forall i, j :: 0 <= i < j < |s| ==> s[i] != s[j]
  }

  /** Every parameter lists each of its values once. */
  predicate Valid(a: Action)
  {
    forall key :: key in a.params ==> NoDuplicates(a.params[key])
  }

  /** `merge(key => value, replace: replace)`. */
  function Merge(a: Action, key: string, value: string, replace: bool): (r: Action)
    ensures value in Get(r, key)
    ensures !replace ==> Get(a, key) <= Get(r, key)
  {
    if replace then Action(a.params[key := [value]])
    else if value in Get(a, key) then a
    else Action(a.params[key := Get(a, key) + [value]])
  }

  /**
   * Merging touches no other parameter; replacing leaves the value as the
   * only one, appending adds it at the end unless it is already there; no
   * value is ever listed twice.
   */
  lemma MergeSpec(a: Action, key: string, value: string, replace: bool)
    ensures forall k :: k != key ==> Get(Merge(a, key, value, replace), k) == Get(a, k)
    ensures replace ==> Get(Merge(a, key, value, replace), key) == [value]
    ensures !replace ==> Get(Merge(a, key, value, replace), key) ==
                           if value in Get(a, key) then Get(a, key) else Get(a, key) + [value]
    ensures Merge(a, key, value, replace).params.Keys == a.params.Keys + {key}
    ensures Valid(a) ==> Valid(Merge(a, key, value, replace))
  {
  }

  /** Appends the values one after another. */
  function AppendAll(a: Action, key: string, values: seq<string>): (r: Action)
    ensures Get(a, key) <= Get(r, key)
    ensures forall x :: x in values ==> x in Get(r, key)
    decreases values
  {
    if values == [] then a else AppendAll(Merge(a, key, values[0], false), key, values[1..])
  }
}

/**
 * The `GRedirects` generator module: `namespace` and `show` validate each
 * argument against a fixed list and append it; `limit` and `continue` set
 * their parameter without validation.
 */
module GRedirects {
  import opened Outcome
  import opened Text
  import opened ParamStore

  /** An argument as callers pass it; each is written as its `to_s`. */
  datatype Arg = Int(n: int) | Str(s: string) | Sym(name: string)

  function ToS(v: Arg): (s: string)
    ensures v.Int? ==> |s| > 0 && (s[0] == '-' <==> v.n < 0)
    ensures v.Int? && v.n >= 0 ==> AllDigits(s) && DigitsValue(s) == v.n
  {
    match v
    case Int(n) => IntToString(n)
    case Str(s) => s
    case Sym(name) => name
  }

  /** The namespace IDs `grdnamespace` accepts. */
  const NamespaceIds: seq<string> := [
    "0", "1", "2", "3", "4", "5", "6", "7", "8", "9", "10", "11", "12", "13", "14", "15",
    "120", "121", "122", "123", "828", "829", "1198", "1199",
    "2300", "2301", "2302", "2303", "2600"
  ]

  /** The criteria `grdshow` accepts. */
  const ShowValues: seq<string> := ["fragment", "!fragment"]

  /**
   * A validator: the action with the argument recorded, or nothing when the
   * argument is not accepted (Ruby's nil or false).
   */
  type Validator = (Action, Arg) -> Option<Action>

  /** `ArgumentError` "Unknown value for <param>: <value>". */
  datatype ArgError = UnknownValue(param: string, value: string)

  /**
   * `_namespace` and `_show`: the inherited validator's answer when there is
   * one and it accepts; otherwise the argument is appended to `key` when its
   * `to_s` is in the allowed list, and refused if not.
   */
  function Validate(inherited: Option<Validator>, allowed: seq<string>, key: string, a: Action, v: Arg): (r: Option<Action>)
    ensures r.None? <==> (inherited.None? || inherited.value(a, v).None?) && ToS(v) !in allowed
  {
    var fromSuper := if inherited.Some? then inherited.value(a, v) else None;
    if fromSuper.Some? then fromSuper
    else if ToS(v) in allowed then Some(Merge(a, key, ToS(v), false))
    else None
  }

  /**
   * `namespace(*values)` and `show(*values)`: validates the arguments from left
   * to right, each on the action the previous one produced, and stops at the
   * first refused one.
   */
  function Fold(inherited: Option<Validator>, allowed: seq<string>, key: string, param: string,
                a: Action, values: seq<Arg>): (r: Result<Action, ArgError>)
    ensures r.Err? ==> r.error.param == param && r.error.value !in allowed
    decreases values
  {
    if values == [] then Ok(a)
    else
      match Validate(inherited, allowed, key, a, values[0])
      case None => Err(UnknownValue(param, ToS(values[0])))
      case Some(next) => Fold(inherited, allowed, key, param, next, values[1..])
  }

  function Namespace(inherited: Option<Validator>, a: Action, values: seq<Arg>): (r: Result<Action, ArgError>)
    ensures values == [] ==> r == Ok(a)
    ensures r.Err? ==> r.error.param == "namespace" && r.error.value !in NamespaceIds
  {
    Fold(inherited, NamespaceIds, "grdnamespace", "namespace", a, values)
  }

  function Show(inherited: Option<Validator>, a: Action, values: seq<Arg>): (r: Result<Action, ArgError>)
    ensures values == [] ==> r == Ok(a)
    ensures r.Err? ==> r.error.param == "show" && r.error.value !in ShowValues
  {
    Fold(inherited, ShowValues, "grdshow", "show", a, values)
  }

  /** A parameter set in replace mode to the argument's `to_s`, as `limit` and `continue` do. */
  function SetParam(a: Action, key: string, v: Arg): (r: Action)
    ensures Get(r, key) == [ToS(v)]
    ensures forall k :: k != key ==> Get(r, k) == Get(a, k)
  {
    MergeSpec(a, key, ToS(v), true);
    Merge(a, key, ToS(v), true)
  }

  /** `limit(value)`: `grdlimit` becomes the value, replacing any earlier one. */
  function Limit(a: Action, v: Arg): (r: Action)
    ensures Get(r, "grdlimit") == [ToS(v)]
    ensures forall k :: k != "grdlimit" ==> Get(r, k) == Get(a, k)
  {
    SetParam(a, "grdlimit", v)
  }

  /** `continue(value)`: `grdcontinue` becomes the value, replacing any earlier one. */
  function Continue(a: Action, v: Arg): (r: Action)
    ensures Get(r, "grdcontinue") == [ToS(v)]
    ensures forall k :: k != "grdcontinue" ==> Get(r, k) == Get(a, k)
  {
    SetParam(a, "grdcontinue", v)
  }
}

module GRedirectsProperties {
  import opened Outcome
  import opened Text
  import opened ParamStore
  import opened GRedirects

  /** The `to_s` of each argument, in order. */
  function Strings(values: seq<Arg>): (ss: seq<string>)
    ensures |ss| == |values| && forall i :: 0 <= i < |values| ==> ss[i] == ToS(values[i])
  {
    seq(|values|, i requires 0 <= i < |values| => ToS(values[i]))
  }

  /** When the inherited validator accepts, its action is the answer and the local list is not consulted. */
  lemma InheritedAcceptanceWins(inherited: Option<Validator>, allowed: seq<string>, key: string, a: Action, v: Arg)
    requires inherited.Some? && inherited.value(a, v).Some?
    ensures Validate(inherited, allowed, key, a, v) == inherited.value(a, v)
  {
  }

  /**
   * When no inherited validator accepts, an argument is accepted exactly when
   * its `to_s` is in the allowed list, and it is then appended under `key`.
   */
  lemma OwnListDecides(inherited: Option<Validator>, allowed: seq<string>, key: string, a: Action, v: Arg)
    requires inherited.None? || inherited.value(a, v).None?
    ensures Validate(inherited, allowed, key, a, v).Some? <==> ToS(v) in allowed
    ensures Validate(inherited, allowed, key, a, v).Some? ==>
              Validate(inherited, allowed, key, a, v).value == Merge(a, key, ToS(v), false)
  {
  }

  /** The fold runs left to right: the arguments `xs + ys` are the arguments `ys` applied after `xs`. */
  lemma {:induction false} FoldSplit(inherited: Option<Validator>, allowed: seq<string>, key: string, param: string,
                                     a: Action, xs: seq<Arg>, ys: seq<Arg>)
    ensures Fold(inherited, allowed, key, param, a, xs + ys) ==
              match Fold(inherited, allowed, key, param, a, xs)
              case Ok(b) => Fold(inherited, allowed, key, param, b, ys)
              case Err(e) => Err(e)
    decreases xs
  {
    if xs != [] {
      assert (xs + ys)[0] == xs[0] && (xs + ys)[1..] == xs[1..] + ys;
      match Validate(inherited, allowed, key, a, xs[0])
      case None =>
      case Some(next) => FoldSplit(inherited, allowed, key, param, next, xs[1..], ys);
    } else {
      assert xs + ys == ys;
    }
  }

  /**
   * A refused argument aborts the call: the error names the argument at whose
   * turn neither the inherited validator nor the allowed list accepted it,
   * every argument before it having been accepted.
   */
  lemma {:induction false} FoldErrorNamesArgument(inherited: Option<Validator>, allowed: seq<string>, key: string,
                                                  param: string, a: Action, values: seq<Arg>)
    ensures Fold(inherited, allowed, key, param, a, values).Err? ==>
              exists i :: 0 <= i < |values| &&
                Fold(inherited, allowed, key, param, a, values[..i]).Ok? &&
                Validate(inherited, allowed, key, Fold(inherited, allowed, key, param, a, values[..i]).value, values[i]).None? &&
                Fold(inherited, allowed, key, param, a, values).error == UnknownValue(param, ToS(values[i]))
    decreases values
  {
    if values != [] {
      assert values[..0] == [];
      match Validate(inherited, allowed, key, a, values[0])
      case None =>
      case Some(next) =>
        FoldErrorNamesArgument(inherited, allowed, key, param, next, values[1..]);
        if Fold(inherited, allowed, key, param, a, values).Err? {
          var rest := values[1..];
          var i :| 0 <= i < |rest| &&
                   Fold(inherited, allowed, key, param, next, rest[..i]).Ok? &&
                   Validate(inherited, allowed, key, Fold(inherited, allowed, key, param, next, rest[..i]).value, rest[i]).None? &&
                   Fold(inherited, allowed, key, param, next, rest).error == UnknownValue(param, ToS(rest[i]));
          var pre := values[..i + 1];
          assert pre[0] == values[0] && pre[1..] == rest[..i];
          assert Fold(inherited, allowed, key, param, a, pre) == Fold(inherited, allowed, key, param, next, rest[..i]);
          assert rest[i] == values[i + 1];
        }
    }
  }

  /**
   * Without an inherited validator, the call succeeds exactly when every
   * argument's `to_s` is in the allowed list, and it then appends them all in
   * order.
   */
  lemma {:induction false} FoldWithOwnList(allowed: seq<string>, key: string, param: string, a: Action, values: seq<Arg>)
    ensures Fold(None, allowed, key, param, a, values).Ok? <==> forall i :: 0 <= i < |values| ==> ToS(values[i]) in allowed
    ensures Fold(None, allowed, key, param, a, values).Ok? ==>
              Fold(None, allowed, key, param, a, values).value == AppendAll(a, key, Strings(values))
    decreases values
  {
    if values != [] {
      var next := Merge(a, key, ToS(values[0]), false);
      FoldWithOwnList(allowed, key, param, next, values[1..]);
      assert forall i :: 0 <= i < |values[1..]| ==> values[1..][i] == values[i + 1];
      assert Strings(values)[0] == ToS(values[0]) && Strings(values)[1..] == Strings(values[1..]);
    }
  }

  /**
   * Without an inherited validator, the error names the first argument whose
   * `to_s` is not in the allowed list.
   */
  lemma {:induction false} FoldErrorIsFirstRefused(allowed: seq<string>, key: string, param: string, a: Action, values: seq<Arg>, i: nat)
    requires i < |values| && ToS(values[i]) !in allowed
    requires forall j :: 0 <= j < i ==> ToS(values[j]) in allowed
    ensures Fold(None, allowed, key, param, a, values) == Err(UnknownValue(param, ToS(values[i])))
    decreases i
  {
    if i > 0 {
      var next := Merge(a, key, ToS(values[0]), false);
      assert forall j :: 0 <= j < i - 1 ==> values[1..][j] == values[j + 1];
      FoldErrorIsFirstRefused(allowed, key, param, next, values[1..], i - 1);
    }
  }

  /**
   * Appending: other parameters are untouched, the values already set keep
   * their place at the front, the parameter ends up holding exactly the old
   * values and the new ones, and no value is listed twice.
   */
  lemma {:induction false} AppendAllSpec(a: Action, key: string, values: seq<string>)
    ensures forall k :: k != key ==> Get(AppendAll(a, key, values), k) == Get(a, k)
    ensures Get(a, key) <= Get(AppendAll(a, key, values), key)
    ensures forall x :: x in Get(AppendAll(a, key, values), key) <==> x in Get(a, key) || x in values
    ensures Valid(a) ==> Valid(AppendAll(a, key, values))
    decreases values
  {
    if values != [] {
      var next := Merge(a, key, values[0], false);
      MergeSpec(a, key, values[0], false);
      AppendAllSpec(next, key, values[1..]);
      assert forall x :: x in values <==> x == values[0] || x in values[1..];
    }
  }

  /** Appending values that are all set already changes nothing. */
  lemma {:induction false} AppendAllPresent(a: Action, key: string, values: seq<string>)
    requires forall x :: x in values ==> x in Get(a, key)
    ensures AppendAll(a, key, values) == a
    decreases values
  {
    if values != [] {
      assert values[0] in values;
      assert forall x :: x in values[1..] ==> x in values;
      MergeSpec(a, key, values[0], false);
      AppendAllPresent(a, key, values[1..]);
    }
  }

  /** Appending the same values twice is the same as appending them once. */
  lemma AppendAllIdempotent(a: Action, key: string, values: seq<string>)
    ensures AppendAll(AppendAll(a, key, values), key, values) == AppendAll(a, key, values)
  {
    AppendAllSpec(a, key, values);
    AppendAllPresent(AppendAll(a, key, values), key, values);
  }

  /** Appending to different parameters can be done in either order. */
  lemma AppendsToDifferentKeysCommute(a: Action, k1: string, v1: string, k2: string, v2: string)
    requires k1 != k2
    ensures Merge(Merge(a, k1, v1, false), k2, v2, false) == Merge(Merge(a, k2, v2, false), k1, v1, false)
  {
    var m1 := Merge(a, k1, v1, false);
    var l := Merge(m1, k2, v2, false);
    var m2 := Merge(a, k2, v2, false);
    var r := Merge(m2, k1, v1, false);
    MergeSpec(a, k1, v1, false);
    MergeSpec(m1, k2, v2, false);
    MergeSpec(a, k2, v2, false);
    MergeSpec(m2, k1, v1, false);
    assert l.params.Keys == a.params.Keys + {k1} + {k2} == r.params.Keys;
    forall k | k in l.params
      ensures l.params[k] == r.params[k]
    {
      if k == k1 {
        assert Get(l, k) == Get(m1, k);
        assert Get(m2, k) == Get(a, k);
      } else if k == k2 {
        assert Get(r, k) == Get(m2, k);
        assert Get(m1, k) == Get(a, k);
      } else {
        assert Get(l, k) == Get(m1, k) == Get(a, k);
        assert Get(r, k) == Get(m2, k) == Get(a, k);
      }
    }
  }

  /** `limit` and `continue`: the last write wins, whatever was written before. */
  lemma LastWriteWins(a: Action, v1: Arg, v2: Arg)
    ensures Limit(Limit(a, v1), v2) == Limit(a, v2)
    ensures Continue(Continue(a, v1), v2) == Continue(a, v2)
  {
    assert Limit(a, v1).params["grdlimit" := [ToS(v2)]] == a.params["grdlimit" := [ToS(v2)]];
    assert Continue(a, v1).params["grdcontinue" := [ToS(v2)]] == a.params["grdcontinue" := [ToS(v2)]];
  }

  /** The namespace numbers whose decimal form `grdnamespace` accepts. */
  const NamespaceNumbers: set<int> := {
    0, 1, 2, 3, 4, 5, 6, 7, 8, 9, 10, 11, 12, 13, 14, 15,
    120, 121, 122, 123, 828, 829, 1198, 1199, 2300, 2301, 2302, 2303, 2600
  }

  lemma NamespaceIdsAreDecimals()
    ensures forall s :: s in NamespaceIds ==> exists n :: n in NamespaceNumbers && s == IntToString(n)
    ensures forall n :: n in NamespaceNumbers ==> IntToString(n) in NamespaceIds
  {
    OneDigitDecimals();
    TwoDigitDecimals();
    ThreeDigitDecimals();
    ElevenHundredsDecimals();
    TwentyThreeHundredsDecimals();
  }

  lemma OneDigitDecimals()
    ensures IntToString(0) == "0" && IntToString(1) == "1" && IntToString(2) == "2" && IntToString(3) == "3"
    ensures IntToString(4) == "4" && IntToString(5) == "5" && IntToString(6) == "6" && IntToString(7) == "7"
    ensures IntToString(8) == "8" && IntToString(9) == "9"
  {
  }

  lemma TwoDigitDecimals()
    ensures IntToString(10) == "10" && IntToString(11) == "11" && IntToString(12) == "12"
    ensures IntToString(13) == "13" && IntToString(14) == "14" && IntToString(15) == "15"
  {
  }

  lemma ThreeDigitDecimals()
    ensures IntToString(120) == "120" && IntToString(121) == "121" && IntToString(122) == "122"
    ensures IntToString(123) == "123" && IntToString(828) == "828" && IntToString(829) == "829"
  {
  }

  lemma ElevenHundredsDecimals()
    ensures IntToString(1198) == "1198" && IntToString(1199) == "1199" && IntToString(2600) == "2600"
  {
  }

  lemma TwentyThreeHundredsDecimals()
    ensures IntToString(2300) == "2300" && IntToString(2301) == "2301"
    ensures IntToString(2302) == "2302" && IntToString(2303) == "2303"
  {
  }

  /** An integer argument is a valid namespace exactly when it is one of the listed namespace numbers. */
  lemma IntegerNamespaces(a: Action, n: int)
    ensures Validate(None, NamespaceIds, "grdnamespace", a, Int(n)).Some? <==> n in NamespaceNumbers
  {
    NamespaceIdsAreDecimals();
    OwnListDecides(None, NamespaceIds, "grdnamespace", a, Int(n));
    if IntToString(n) in NamespaceIds {
      var m :| m in NamespaceNumbers && IntToString(n) == IntToString(m);
      IntToStringInjective(n, m);
    }
  }

  /** Worked example: `namespace(0, 1).namespace(1, 2)` sets `grdnamespace` to 0, 1 and 2, each once. */
  lemma NamespaceExample(a: Action)
    requires "grdnamespace" !in a.params
    ensures Namespace(None, a, [Int(0), Int(1)]).Ok?
    ensures Namespace(None, Namespace(None, a, [Int(0), Int(1)]).value, [Int(1), Int(2)]).Ok?
    ensures Get(Namespace(None, Namespace(None, a, [Int(0), Int(1)]).value, [Int(1), Int(2)]).value, "grdnamespace")
            == ["0", "1", "2"]
  {
    NamespaceFirstCall(a);
    NamespaceSecondCall(Namespace(None, a, [Int(0), Int(1)]).value);
  }

  lemma NamespaceFirstCall(a: Action)
    requires "grdnamespace" !in a.params
    ensures Namespace(None, a, [Int(0), Int(1)]).Ok?
    ensures Get(Namespace(None, a, [Int(0), Int(1)]).value, "grdnamespace") == ["0", "1"]
  {
    SmallNamespaces();
    TwoNamespaces(a, 0, 1);
    AppendTwo(a, "grdnamespace", "0", "1");
  }

  lemma NamespaceSecondCall(b: Action)
    requires Get(b, "grdnamespace") == ["0", "1"]
    ensures Namespace(None, b, [Int(1), Int(2)]).Ok?
    ensures Get(Namespace(None, b, [Int(1), Int(2)]).value, "grdnamespace") == ["0", "1", "2"]
  {
    SmallNamespaces();
    TwoNamespaces(b, 1, 2);
    AppendTwo(b, "grdnamespace", "1", "2");
    assert ["0", "1"] + ["2"] == ["0", "1", "2"];
  }

  /** `namespace(n1, n2)` with two listed numbers appends both. */
  lemma TwoNamespaces(a: Action, n1: int, n2: int)
    requires IntToString(n1) in NamespaceIds && IntToString(n2) in NamespaceIds
    ensures Namespace(None, a, [Int(n1), Int(n2)]) == Ok(AppendAll(a, "grdnamespace", [IntToString(n1), IntToString(n2)]))
  {
    var args := [Int(n1), Int(n2)];
    FoldWithOwnList(NamespaceIds, "grdnamespace", "namespace", a, args);
    assert Strings(args) == [IntToString(n1), IntToString(n2)];
  }

  lemma SmallNamespaces()
    ensures ToS(Int(0)) == "0" && ToS(Int(1)) == "1" && ToS(Int(2)) == "2"
    ensures "0" in NamespaceIds && "1" in NamespaceIds && "2" in NamespaceIds
  {
    assert NamespaceIds[0] == "0" && NamespaceIds[1] == "1" && NamespaceIds[2] == "2";
  }

  lemma AppendTwo(a: Action, key: string, x: string, y: string)
    ensures Get(AppendAll(a, key, [x, y]), key) ==
              var g := if x in Get(a, key) then Get(a, key) else Get(a, key) + [x];
              if y in g then g else g + [y]
  {
    assert [x, y][0] == x && [x, y][1..] == [y] && [y][1..] == [];
    var a1 := Merge(a, key, x, false);
    MergeSpec(a, key, x, false);
    assert AppendAll(a, key, [x, y]) == AppendAll(a1, key, [y]);
    var a2 := Merge(a1, key, y, false);
    MergeSpec(a1, key, y, false);
    assert AppendAll(a1, key, [y]) == AppendAll(a2, key, []) == a2;
  }

  /** Worked example: an unknown `show` criterion raises, naming it. */
  lemma ShowRefusesUnknown(a: Action)
    ensures Show(None, a, [Str("fragment"), Str("redirect")]) == Err(UnknownValue("show", "redirect"))
  {
    FoldErrorIsFirstRefused(ShowValues, "grdshow", "show", a, [Str("fragment"), Str("redirect")], 1);
  }
}
