/** MethodHelper (Helpers/MethodHelper.cs): turning the string tokens of a
    command into one argument per parameter of the method being called, and the
    catch-and-report shape of invoking it. Reflection is replaced by explicit
    parameter descriptors. */
module MethodHelper {
  import opened Results
  import opened Values
  import opened Text
  import Convert
  import TypeHelper
  import ArrayHelper

  /** A parameter as reflection reports it: name, type and optional default. */
  datatype Param = Param(name: string, ty: ParamType, default: Option<Value>)

  /** A public method of a component: its name and parameter list. */
  datatype Method = Method(name: string, params: seq<Param>)

  /** IsArray: the four array types the coercer can fill, which are exactly
      the types the placeholder table holds an empty array for. */
  predicate IsArray(t: ParamType): (r: bool)
    ensures r <==> t in Objects
  {
    t == ArrayOf(StringT) || t == ArrayOf(IntT) || t == ArrayOf(FloatT) || t == ArrayOf(BoolT)
  }

  /** MethodHelper.Objects: the placeholder table, an empty array for each of the
      four array types. The console adds an entry for its own type on start. */
  const Objects: map<ParamType, Value> :=
    map[ArrayOf(IntT) := ArrV(IntT, []), ArrayOf(FloatT) := ArrV(FloatT, []),
        ArrayOf(StringT) := ArrV(StringT, []), ArrayOf(BoolT) := ArrV(BoolT, [])]

  /** The value a parameter gets before any data is applied: its default, else
      (no default, or a default of null) the table's placeholder for its type,
      else null. */
  function Placeholder(p: Param, objects: map<ParamType, Value>): (r: Value)
    ensures p.default.Some? && p.default.value != Null ==> r == p.default.value
    ensures (p.default.None? || p.default == Some(Null)) && p.ty in objects ==> r == objects[p.ty]
    ensures (p.default.None? || p.default == Some(Null)) && p.ty !in objects ==> r == Null
  {
    if p.default.Some? && p.default.value != Null then p.default.value
    else if p.ty in objects then objects[p.ty]
    else Null
  }

  /** The placeholder as the source computes it: the table is consulted only
      when the reported default is null, but reflection reports a parameter
      without a default as DBNull, so such a parameter gets DBNull. */
  function PlaceholderAsWritten(p: Param, objects: map<ParamType, Value>): Value {
    var reported := if p.default.Some? then p.default.value else DBNull;
    if reported == Null then (if p.ty in objects then objects[p.ty] else Null)
    else reported
  }

  /** Every entry of the table is an empty array of its own type. */
  lemma ObjectsFit()
    ensures forall t :: t in Objects ==> IsArray(t) && Objects[t] == ArrV(t.elem, []) && HasType(Objects[t], t)
  {
  }

  /** As written, a parameter without a default never gets a value of its
      type before the data is applied: the table goes unused for it. */
  lemma AsWrittenSkipsTable(p: Param, objects: map<ParamType, Value>)
    requires p.default.None?
    ensures PlaceholderAsWritten(p, objects) == DBNull
    ensures !HasType(PlaceholderAsWritten(p, objects), p.ty)
  {
  }

  /** The two agree on every parameter that declares a default; on one that
      does not, the corrected placeholder is the table's entry, which has the
      parameter's type. */
  lemma PlaceholderUsesTable(p: Param)
    ensures p.default.Some? ==> Placeholder(p, Objects) == PlaceholderAsWritten(p, Objects)
    ensures p.default.None? && p.ty in Objects ==>
      Placeholder(p, Objects) != PlaceholderAsWritten(p, Objects) && HasType(Placeholder(p, Objects), p.ty)
  {
    ObjectsFit();
  }

  function Placeholders(params: seq<Param>, objects: map<ParamType, Value>): (r: seq<Value>)
    ensures |r| == |params|
    ensures forall k :: 0 <= k < |params| ==> r[k] == Placeholder(params[k], objects)
  {
    seq(|params|, k requires 0 <= k < |params| => Placeholder(params[k], objects))
  }

  /** Converts array elements to the element type: a string[] takes the texts
      as they are, the others go element by element through StringToType. */
  function ConvertArray(elem: ParamType, texts: seq<string>): (r: Result<Value>)
    ensures r.Success? ==> HasType(r.value, ArrayOf(elem))
    ensures r.Success? <==> forall k :: 0 <= k < |texts| ==> TypeHelper.StringToType(elem, texts[k]).Success?
    ensures r.Success? ==> r.value.ArrV? && r.value.elem == elem && |r.value.items| == |texts|
    ensures r.Success? ==> forall k :: 0 <= k < |texts| ==>
      TypeHelper.StringToType(elem, texts[k]) == Success(r.value.items[k])
    ensures r.Failure? ==> exists k :: TypeHelper.FirstFailureAt(elem, texts, k, r.error)
  {
    if elem == StringT then Success(ArrV(StringT, seq(|texts|, k requires 0 <= k < |texts| => StrV(texts[k]))))
    else
      match TypeHelper.StringArrayToTypeArray(elem, texts)
      case Failure(e) => Failure(e)
      case Success(vs) => Success(ArrV(elem, vs))
  }

  /** Data item `k` fills array parameter `k` on its own when it holds a comma
      or a space; otherwise the parameter takes all remaining data. */
  predicate Captures(params: seq<Param>, data: seq<string>, k: int) {
    0 <= k < |data| && k < |params| && IsArray(params[k].ty)
    && !Contains(data[k], ",") && !Contains(data[k], " ")
  }

  /** The index after the last data item the loop consumes, starting at `i`:
      just after the first capturing array parameter, else all the data. */
  function ConsumedFrom(params: seq<Param>, data: seq<string>, i: nat): (r: nat)
    requires i <= |data|
    ensures i <= r <= |data|
    ensures forall k :: i <= k < r - 1 ==> !Captures(params, data, k)
    ensures r < |data| ==> i < r && Captures(params, data, r - 1)
    ensures i < |data| ==> i < r
    decreases |data| - i
  {
    if i == |data| then i
    else if Captures(params, data, i) then i + 1
    else ConsumedFrom(params, data, i + 1)
  }

  /** The elements an array parameter at position `k` receives. */
  function Elements(data: seq<string>, k: nat): seq<string>
    requires k < |data|
  {
    if Contains(data[k], ",") then Split(data[k], ",")
    else if Contains(data[k], " ") then Split(data[k], " ")
    else data[k..]
  }

  /** What data item `k` turns into for parameter `k`, independently of the loop. */
  function CoerceAt(params: seq<Param>, data: seq<string>, k: nat): (r: Result<Value>)
    requires k < |params| && k < |data|
    ensures r.Success? ==> HasType(r.value, params[k].ty)
  {
    var t := params[k].ty;
    if IsArray(t) then ConvertArray(t.elem, Elements(data, k))
    else if t == BoolT then Success(BoolV(TypeHelper.StringToBool(data[k])))
    else Convert.ChangeType(data[k], t)
  }

  /** An argument fits a parameter when it is the parameter's placeholder or a
      value of the parameter's type. */
  predicate Fits(v: Value, p: Param, objects: map<ParamType, Value>) {
    v == Placeholder(p, objects) || HasType(v, p.ty)
  }

  /** The second loop of StringsToArguments, from data item `i`: a data item
      beyond the parameter list makes `parameterInfo[i]` throw; an array
      parameter without a comma or space in its item takes the rest and stops. */
  function FillFrom(params: seq<Param>, data: seq<string>, objects: map<ParamType, Value>, i: nat, args: seq<Value>)
    : (r: Result<seq<Value>>)
    requires |args| == |params|
    requires forall k :: 0 <= k < |params| ==> Fits(args[k], params[k], objects)
    ensures r.Success? ==> |r.value| == |params|
    ensures r.Success? ==> forall k :: 0 <= k < |params| ==> Fits(r.value[k], params[k], objects)
    decreases |data| - i
  {
    if i >= |data| then Success(args)
    else if i >= |params| then Failure(IndexOutOfRange)
    else
      var t := params[i].ty;
      var d := data[i];
      if IsArray(t) then
        if Contains(d, ",") then
          var v :- ConvertArray(t.elem, Split(d, ","));
          FillFrom(params, data, objects, i + 1, args[i := v])
        else if Contains(d, " ") then
          var v :- ConvertArray(t.elem, Split(d, " "));
          FillFrom(params, data, objects, i + 1, args[i := v])
        else
          match ArrayHelper.SubArray(data, i, -1)
          case Failure(e) => Failure(e)
          case Success(rest) =>
            var v :- ConvertArray(t.elem, rest);
            Success(args[i := v])
      else if t == BoolT then
        FillFrom(params, data, objects, i + 1, args[i := BoolV(TypeHelper.StringToBool(d))])
      else
        var v :- Convert.ChangeType(d, t);
        FillFrom(params, data, objects, i + 1, args[i := v])
  }

  /** StringsToArguments(method, data): one argument per parameter; every
      argument is the parameter's placeholder or a value of its type. */
  function StringsToArguments(m: Method, data: seq<string>, objects: map<ParamType, Value>): (r: Result<seq<Value>>)
    ensures r.Success? ==> |r.value| == |m.params|
    ensures r.Success? ==> forall k :: 0 <= k < |m.params| ==> Fits(r.value[k], m.params[k], objects)
  {
    FillFrom(m.params, data, objects, 0, Placeholders(m.params, objects))
  }

  /** What the invoked method did: returned, or threw an exception with a message. */
  datatype Outcome = Returned | Threw(message: string)

  /** The report the catch block of Invoke logs: the arguments given, the
      parameters declared and the exception's message. */
  datatype InvokeFailure = InvokeFailure(args: seq<Value>, params: seq<Param>, message: string)

  /** What one Invoke(component, method, data) did: the arguments it passed and
      the report it logged, if any. */
  datatype Invoked = Invoked(args: seq<Value>, failure: Option<InvokeFailure>)

  /** Invoke(component, method, data). Coercion happens before the try, so a
      coercion fault propagates to the caller; an exception thrown by the method
      is caught and reported instead. Building that report stringifies every
      argument, which itself throws NullReferenceException on a null argument. */
  function Invoke(m: Method, data: seq<string>, objects: map<ParamType, Value>, call: seq<Value> -> Outcome): (r: Result<Invoked>)
    ensures StringsToArguments(m, data, objects).Failure? ==> r == Failure(StringsToArguments(m, data, objects).error)
    ensures StringsToArguments(m, data, objects).Success? ==>
      var args := StringsToArguments(m, data, objects).value;
      && (r.Failure? <==> call(args).Threw? && Null in args)
      && (r.Failure? ==> r.error == NullReference)
      && (r.Success? ==> r.value.args == args)
      && (r.Success? ==> (r.value.failure.Some? <==> call(args).Threw?))
      && (r.Success? && r.value.failure.Some? ==>
            r.value.failure.value == InvokeFailure(args, m.params, call(args).message))
  {
    var args :- StringsToArguments(m, data, objects);
    match call(args)
    case Returned => Success(Invoked(args, None))
    case Threw(message) =>
      if Null in args then Failure(NullReference)
      else Success(Invoked(args, Some(InvokeFailure(args, m.params, message))))
  }

  // ---------------------------------------------------------------------------
  // The loop against its declarative description

  /** FillFrom succeeds exactly when the consumed items all fit within the
      parameter list and each converts; it then sets exactly the consumed
      positions, each to its own conversion, and fails otherwise with the error
      of the first item that does not convert or an index past the parameters. */
  lemma FillFromSpec(params: seq<Param>, data: seq<string>, objects: map<ParamType, Value>, i: nat, args: seq<Value>)
    requires |args| == |params| && i <= |data| && i <= |params|
    requires forall k :: 0 <= k < |params| ==> Fits(args[k], params[k], objects)
    ensures var s := ConsumedFrom(params, data, i);
      FillFrom(params, data, objects, i, args).Success?
      <==> s <= |params| && forall k :: i <= k < s ==> CoerceAt(params, data, k).Success?
    ensures var s := ConsumedFrom(params, data, i); var r := FillFrom(params, data, objects, i, args);
      r.Success? ==> forall k :: 0 <= k < |params| ==>
        r.value[k] == (if i <= k < s then CoerceAt(params, data, k).value else args[k])
    ensures var s := ConsumedFrom(params, data, i); var r := FillFrom(params, data, objects, i, args);
      r.Failure? ==>
        || (exists k :: k < s && FirstCoerceFailure(params, data, i, k, r.error))
        || (s > |params| && r.error == IndexOutOfRange && CoerceAllFrom(params, data, i, |params|))
  {
    FillFromSuccess(params, data, objects, i, args);
    FillFromFailure(params, data, objects, i, args);
    var r := FillFrom(params, data, objects, i, args);
    if r.Failure? {
      assert LoopFailure(params, data, i, ConsumedFrom(params, data, i), r.error);
    }
  }

  /** The success half of FillFromSpec. */
  lemma {:induction false} FillFromSuccess(params: seq<Param>, data: seq<string>, objects: map<ParamType, Value>, i: nat, args: seq<Value>)
    requires |args| == |params| && i <= |data| && i <= |params|
    requires forall k :: 0 <= k < |params| ==> Fits(args[k], params[k], objects)
    ensures var s := ConsumedFrom(params, data, i);
      FillFrom(params, data, objects, i, args).Success?
      <==> s <= |params| && forall k :: i <= k < s ==> CoerceAt(params, data, k).Success?
    ensures var s := ConsumedFrom(params, data, i); var r := FillFrom(params, data, objects, i, args);
      r.Success? ==> forall k :: 0 <= k < |params| ==>
        r.value[k] == (if i <= k < s then CoerceAt(params, data, k).value else args[k])
  {
    FillFromSucceeds(params, data, objects, i, args);
    FillFromValues(params, data, objects, i, args);
  }

  /** FillFrom succeeds exactly when no array captured the tail too late and
      every consumed item converts. */
  lemma {:induction false} FillFromSucceeds(params: seq<Param>, data: seq<string>, objects: map<ParamType, Value>, i: nat, args: seq<Value>)
    requires |args| == |params| && i <= |data| && i <= |params|
    requires forall k :: 0 <= k < |params| ==> Fits(args[k], params[k], objects)
    ensures var s := ConsumedFrom(params, data, i);
      FillFrom(params, data, objects, i, args).Success?
      <==> s <= |params| && forall k :: i <= k < s ==> CoerceAt(params, data, k).Success?
    decreases |data| - i
  {
    var s := ConsumedFrom(params, data, i);
    if i < |data| && i < |params| {
      var c := CoerceAt(params, data, i);
      FillFromStep(params, data, objects, i, args);
      if Captures(params, data, i) {
        assert s == i + 1;
      } else if c.Success? {
        assert s == ConsumedFrom(params, data, i + 1);
        FillFromSucceeds(params, data, objects, i + 1, args[i := c.value]);
      }
    }
  }

  /** A successful FillFrom holds item k converted at every consumed position
      from i on, and the incoming argument everywhere else. */
  lemma {:induction false} FillFromValues(params: seq<Param>, data: seq<string>, objects: map<ParamType, Value>, i: nat, args: seq<Value>)
    requires |args| == |params| && i <= |data| && i <= |params|
    requires forall k :: 0 <= k < |params| ==> Fits(args[k], params[k], objects)
    ensures var s := ConsumedFrom(params, data, i); var r := FillFrom(params, data, objects, i, args);
      r.Success? ==> forall k :: 0 <= k < |params| ==>
        if i <= k < s then CoerceAt(params, data, k) == Success(r.value[k]) else r.value[k] == args[k]
    decreases |data| - i
  {
    var s := ConsumedFrom(params, data, i);
    var r := FillFrom(params, data, objects, i, args);
    if i < |data| && i < |params| {
      var c := CoerceAt(params, data, i);
      FillFromStep(params, data, objects, i, args);
      if Captures(params, data, i) {
        assert s == i + 1;
      } else if c.Success? {
        var next := args[i := c.value];
        assert s == ConsumedFrom(params, data, i + 1);
        assert r == FillFrom(params, data, objects, i + 1, next);
        FillFromValues(params, data, objects, i + 1, next);
        if r.Success? {
          assert r.value[i] == next[i];
        }
      }
    }
  }

  /** Items `i` up to `n` all convert for their parameters. */
  predicate CoerceAllFrom(params: seq<Param>, data: seq<string>, i: int, n: int) {
    0 <= i && n <= |params| && n <= |data| && forall j :: i <= j < n ==> CoerceAt(params, data, j).Success?
  }

  /** Item `k` is the first from `i` on that does not convert, and it fails with `e`. */
  predicate FirstCoerceFailure(params: seq<Param>, data: seq<string>, i: int, k: int, e: Fault) {
    && 0 <= i <= k < |params| && k < |data|
    && CoerceAt(params, data, k) == Failure(e)
    && CoerceAllFrom(params, data, i, k)
  }

  /** How the loop from item `i`, consuming up to `s`, may fail with `e`: at
      the first item that does not convert, or, when every item up to the end
      of the parameter list converts and more items remain, with IndexOutOfRange. */
  predicate LoopFailure(params: seq<Param>, data: seq<string>, i: int, s: int, e: Fault) {
    || (exists k :: 0 <= k < s && FirstCoerceFailure(params, data, i, k, e))
    || (s > |params| && e == IndexOutOfRange && CoerceAllFrom(params, data, i, |params|))
  }

  /** The failure half of FillFromSpec. */
  lemma {:induction false} FillFromFailure(params: seq<Param>, data: seq<string>, objects: map<ParamType, Value>, i: nat, args: seq<Value>)
    requires |args| == |params| && i <= |data| && i <= |params|
    requires forall k :: 0 <= k < |params| ==> Fits(args[k], params[k], objects)
    ensures var r := FillFrom(params, data, objects, i, args);
      r.Failure? ==> LoopFailure(params, data, i, ConsumedFrom(params, data, i), r.error)
    decreases |data| - i
  {
    var s := ConsumedFrom(params, data, i);
    var r := FillFrom(params, data, objects, i, args);
    if r.Failure? && i < |data| {
      if i < |params| {
        var c := CoerceAt(params, data, i);
        FillFromStep(params, data, objects, i, args);
        if c.Failure? {
          FailAtHead(params, data, i, s, r.error);
        } else {
          assert !Captures(params, data, i);
          assert s == ConsumedFrom(params, data, i + 1);
          FillFromFailure(params, data, objects, i + 1, args[i := c.value]);
          LoopFailureShift(params, data, i, s, r.error);
        }
      } else {
        FailPastParams(params, data, i, s);
      }
    }
  }

  /** An item `i` that does not convert is where the loop fails. */
  lemma FailAtHead(params: seq<Param>, data: seq<string>, i: nat, s: int, e: Fault)
    requires i < s && i < |params| && i < |data| && CoerceAt(params, data, i) == Failure(e)
    ensures LoopFailure(params, data, i, s, e)
  {
    assert FirstCoerceFailure(params, data, i, i, e);
  }

  /** An item past the parameter list is where the loop fails, with IndexOutOfRange. */
  lemma FailPastParams(params: seq<Param>, data: seq<string>, i: nat, s: int)
    requires i == |params| < s && i <= |data|
    ensures LoopFailure(params, data, i, s, IndexOutOfRange)
  {
  }

  /** A loop failure from item `i + 1` on, behind a converting item `i`, is a
      loop failure from item `i` on. */
  lemma LoopFailureShift(params: seq<Param>, data: seq<string>, i: nat, s: int, e: Fault)
    requires i < |params| && i < |data| && CoerceAt(params, data, i).Success?
    requires LoopFailure(params, data, i + 1, s, e)
    ensures LoopFailure(params, data, i, s, e)
  {
    var next := i + 1;
    if exists k :: k < s && FirstCoerceFailure(params, data, next, k, e) {
      var k :| k < s && FirstCoerceFailure(params, data, next, k, e);
      FirstFailureShift(params, data, i, k, e);
    } else {
      AllFromShift(params, data, i, |params|);
    }
  }

  /** A first failure from item `i + 1` on, behind a converting item `i`, is
      the first failure from item `i` on. */
  lemma FirstFailureShift(params: seq<Param>, data: seq<string>, i: nat, k: int, e: Fault)
    requires i < |params| && i < |data| && CoerceAt(params, data, i).Success?
    requires FirstCoerceFailure(params, data, i + 1, k, e)
    ensures FirstCoerceFailure(params, data, i, k, e)
  {
  }

  /** Conversions from item `i + 1` on, behind a converting item `i`, are
      conversions from item `i` on. */
  lemma AllFromShift(params: seq<Param>, data: seq<string>, i: nat, n: int)
    requires i < |params| && i < |data| && CoerceAt(params, data, i).Success?
    requires CoerceAllFrom(params, data, i + 1, n)
    ensures CoerceAllFrom(params, data, i, n)
  {
  }

  /** One step of the loop, told through CoerceAt. */
  lemma FillFromStep(params: seq<Param>, data: seq<string>, objects: map<ParamType, Value>, i: nat, args: seq<Value>)
    requires |args| == |params| && i < |data| && i < |params|
    requires forall k :: 0 <= k < |params| ==> Fits(args[k], params[k], objects)
    ensures var c := CoerceAt(params, data, i); var r := FillFrom(params, data, objects, i, args);
      && (c.Failure? ==> r == Failure(c.error))
      && (c.Success? && Captures(params, data, i) ==> r == Success(args[i := c.value]))
      && (c.Success? && !Captures(params, data, i) ==> r == FillFrom(params, data, objects, i + 1, args[i := c.value]))
  {
    if Captures(params, data, i) {
      ArrayHelper.SubArrayTail(data, i);
    }
  }

  /** The declarative description of StringsToArguments: with `s` the number of
      data items consumed, position k < s gets item k converted to its type,
      every later position keeps its default or placeholder; more data than
      parameters (without an array capturing the tail first) throws. */
  lemma StringsToArgumentsSpec(m: Method, data: seq<string>, objects: map<ParamType, Value>)
    ensures var s := ConsumedFrom(m.params, data, 0);
      StringsToArguments(m, data, objects).Success?
      <==> s <= |m.params| && forall k :: 0 <= k < s ==> CoerceAt(m.params, data, k).Success?
    ensures var s := ConsumedFrom(m.params, data, 0); var r := StringsToArguments(m, data, objects);
      r.Success? ==> forall k :: 0 <= k < |m.params| ==>
        r.value[k] == (if k < s then CoerceAt(m.params, data, k).value else Placeholder(m.params[k], objects))
    ensures var s := ConsumedFrom(m.params, data, 0); var r := StringsToArguments(m, data, objects);
      r.Failure? ==>
        || (exists k :: k < s && FirstCoerceFailure(m.params, data, 0, k, r.error))
        || (s > |m.params| && r.error == IndexOutOfRange && CoerceAllFrom(m.params, data, 0, |m.params|))
  {
    FillFromSpec(m.params, data, objects, 0, Placeholders(m.params, objects));
  }

  /** A null argument only comes from a parameter no data item reached and
      that has neither a default nor a placeholder: converted items are never
      null. So Invoke's report can only fault on such a parameter. */
  lemma NullOnlyUnfilled(m: Method, data: seq<string>, objects: map<ParamType, Value>)
    ensures var r := StringsToArguments(m, data, objects);
      r.Success? ==> forall k :: 0 <= k < |m.params| && r.value[k] == Null ==>
        ConsumedFrom(m.params, data, 0) <= k && Placeholder(m.params[k], objects) == Null
  {
    StringsToArgumentsSpec(m, data, objects);
  }

  // ---------------------------------------------------------------------------
  // Worked cases

  /** A one-digit numeral converts to its value. */
  lemma DigitItem(n: nat)
    requires n < 10
    ensures Convert.ChangeType([Convert.DigitChar(n)], IntT) == Success(IntV(n))
  {
    Convert.ParseShowInt(n);
    assert Convert.ShowInt(n) == [Convert.DigitChar(n)];
  }

  /** The three items the Spawn example's array parameter receives. */
  lemma GreedyItems(items: seq<string>)
    requires items == ["1", "2", "3"]
    ensures ConvertArray(IntT, items) == Success(ArrV(IntT, [IntV(1), IntV(2), IntV(3)]))
  {
    var vs := [IntV(1), IntV(2), IntV(3)];
    forall k | 0 <= k < 3
      ensures TypeHelper.StringToType(IntT, items[k]) == Success(vs[k])
    {
      DigitText(items[k], k + 1);
    }
    ConvertAll(IntT, items, vs);
  }

  /** A text holding one digit converts to that digit's value. */
  lemma DigitText(text: string, n: nat)
    requires n < 10 && text == [Convert.DigitChar(n)]
    ensures TypeHelper.StringToType(IntT, text) == Success(IntV(n))
  {
    DigitItem(n);
  }

  /** Texts that each convert make an array of their conversions. */
  lemma ConvertAll(t: ParamType, texts: seq<string>, vs: seq<Value>)
    requires |texts| == |vs|
    requires forall k :: 0 <= k < |texts| ==> TypeHelper.StringToType(t, texts[k]) == Success(vs[k])
    ensures ConvertArray(t, texts) == Success(ArrV(t, vs))
  {
    var r := ConvertArray(t, texts);
    assert r.Success?;
    assert r.value.items == vs;
  }

  /** The Spawn example's parameters: a string, a bool and an int array. */
  predicate IsSpawn(m: Method) {
    m == Method("Spawn", [Param("name", StringT, None), Param("flag", BoolT, None), Param("values", ArrayOf(IntT), None)])
  }

  /** Only the Spawn example's array parameter captures, and only at its own item. */
  lemma SpawnCaptures(m: Method, data: seq<string>)
    requires IsSpawn(m) && data == ["x", "true", "1", "2", "3"]
    ensures !Captures(m.params, data, 0) && !Captures(m.params, data, 1) && Captures(m.params, data, 2)
  {
    ContainsChar("1", ',');
    ContainsChar("1", ' ');
  }

  /** The Spawn example consumes three items: the array takes the last three. */
  lemma SpawnConsumed(m: Method, data: seq<string>)
    requires IsSpawn(m) && data == ["x", "true", "1", "2", "3"]
    ensures ConsumedFrom(m.params, data, 0) == 3
  {
    SpawnCaptures(m, data);
    assert ConsumedFrom(m.params, data, 2) == 3;
    assert ConsumedFrom(m.params, data, 1) == 3;
  }

  /** "true" fills the Spawn example's bool parameter with true. */
  lemma SpawnFlag(m: Method, data: seq<string>)
    requires IsSpawn(m) && data == ["x", "true", "1", "2", "3"]
    ensures CoerceAt(m.params, data, 1) == Success(BoolV(true))
  {
    TypeHelper.StringToBoolTrueExamples();
  }

  /** The Spawn example's array parameter gets the last three items as ints. */
  lemma SpawnValues(m: Method, data: seq<string>)
    requires IsSpawn(m) && data == ["x", "true", "1", "2", "3"]
    ensures CoerceAt(m.params, data, 2) == Success(ArrV(IntT, [IntV(1), IntV(2), IntV(3)]))
  {
    SpawnCaptures(m, data);
    assert Elements(data, 2) == data[2..] == ["1", "2", "3"];
    GreedyItems(data[2..]);
  }

  /** "x" fills the Spawn example's string parameter as it is. */
  lemma SpawnName(m: Method, data: seq<string>)
    requires IsSpawn(m) && data == ["x", "true", "1", "2", "3"]
    ensures CoerceAt(m.params, data, 0) == Success(StrV("x"))
  {
  }

  /** An array parameter after two scalars takes every remaining item. */
  lemma GreedyArrayExample(m: Method, data: seq<string>)
    requires IsSpawn(m) && data == ["x", "true", "1", "2", "3"]
    ensures StringsToArguments(m, data, Objects)
            == Success([StrV("x"), BoolV(true), ArrV(IntT, [IntV(1), IntV(2), IntV(3)])])
  {
    SpawnConsumed(m, data);
    SpawnName(m, data);
    SpawnFlag(m, data);
    SpawnValues(m, data);
    ThreeConsumed(m, data, Objects, StrV("x"), BoolV(true), ArrV(IntT, [IntV(1), IntV(2), IntV(3)]));
  }

  /** Three parameters all consumed: the arguments are the three conversions. */
  lemma ThreeConsumed(m: Method, data: seq<string>, objects: map<ParamType, Value>, a: Value, b: Value, c: Value)
    requires ConsumedFrom(m.params, data, 0) == |m.params| == 3 <= |data|
    requires CoerceAt(m.params, data, 0) == Success(a)
    requires CoerceAt(m.params, data, 1) == Success(b)
    requires CoerceAt(m.params, data, 2) == Success(c)
    ensures StringsToArguments(m, data, objects) == Success([a, b, c])
  {
    var vs := [a, b, c];
    forall k | 0 <= k < |vs|
      ensures k < |data| && k < |m.params| && CoerceAt(m.params, data, k) == Success(vs[k])
    {
      assert k == 0 || k == 1 || k == 2;
    }
    AllConsumed(m, data, objects, vs);
  }

  /** When every parameter is consumed, the arguments are the conversions. */
  lemma AllConsumed(m: Method, data: seq<string>, objects: map<ParamType, Value>, vs: seq<Value>)
    requires ConsumedFrom(m.params, data, 0) == |m.params| == |vs|
    requires forall k :: 0 <= k < |vs| ==> k < |data| && k < |m.params| && CoerceAt(m.params, data, k) == Success(vs[k])
    ensures StringsToArguments(m, data, objects) == Success(vs)
  {
    SomeConsumed(m, data, objects, vs);
  }

  /** When the consumed items all convert, the arguments are their conversions
      followed by the placeholders of the parameters no item reached. */
  lemma SomeConsumed(m: Method, data: seq<string>, objects: map<ParamType, Value>, vs: seq<Value>)
    requires ConsumedFrom(m.params, data, 0) <= |m.params| == |vs|
    requires forall k :: 0 <= k < ConsumedFrom(m.params, data, 0) ==>
      k < |data| && k < |m.params| && CoerceAt(m.params, data, k) == Success(vs[k])
    requires forall k :: ConsumedFrom(m.params, data, 0) <= k < |vs| ==> vs[k] == Placeholder(m.params[k], objects)
    ensures StringsToArguments(m, data, objects) == Success(vs)
  {
    var s := ConsumedFrom(m.params, data, 0);
    assert ArgumentsFrom(m.params, data, objects, s, vs);
    ConvertedSucceeds(m, data, objects, vs);
    SucceededValues(m, data, objects);
    ArgumentsUnique(m.params, data, objects, s, StringsToArguments(m, data, objects).value, vs);
  }

  /** The arguments the first `s` items and the placeholders make. */
  predicate ArgumentsFrom(params: seq<Param>, data: seq<string>, objects: map<ParamType, Value>, s: int, vs: seq<Value>) {
    && 0 <= s <= |params| == |vs| && s <= |data|
    && (forall k :: 0 <= k < s ==> CoerceAt(params, data, k) == Success(vs[k]))
    && (forall k :: s <= k < |params| ==> vs[k] == Placeholder(params[k], objects))
  }

  /** The items and the placeholders determine the arguments. */
  lemma ArgumentsUnique(params: seq<Param>, data: seq<string>, objects: map<ParamType, Value>, s: int, a: seq<Value>, b: seq<Value>)
    requires ArgumentsFrom(params, data, objects, s, a) && ArgumentsFrom(params, data, objects, s, b)
    ensures a == b
  {
    forall k | 0 <= k < |a|
      ensures a[k] == b[k]
    {
      if k < s {
        assert CoerceAt(params, data, k) == Success(a[k]) == Success(b[k]);
      }
    }
  }

  /** The success half of StringsToArgumentsSpec on its own. */
  lemma ConvertedSucceeds(m: Method, data: seq<string>, objects: map<ParamType, Value>, vs: seq<Value>)
    requires ArgumentsFrom(m.params, data, objects, ConsumedFrom(m.params, data, 0), vs)
    ensures StringsToArguments(m, data, objects).Success?
  {
    StringsToArgumentsSpec(m, data, objects);
  }

  /** The values half of StringsToArgumentsSpec on its own. */
  lemma SucceededValues(m: Method, data: seq<string>, objects: map<ParamType, Value>)
    ensures var r := StringsToArguments(m, data, objects);
      r.Success? ==> ArgumentsFrom(m.params, data, objects, ConsumedFrom(m.params, data, 0), r.value)
  {
    StringsToArgumentsSpec(m, data, objects);
  }

  /** A parameter without data keeps its declared default, and an array
      parameter without data gets the empty-array placeholder. */
  lemma DefaultsExample(m: Method, data: seq<string>)
    requires m == Method("Heal", [Param("amount", IntT, None), Param("times", IntT, Some(IntV(5))), Param("tags", ArrayOf(StringT), None)])
    requires data == ["7"]
    ensures StringsToArguments(m, data, Objects) == Success([IntV(7), IntV(5), ArrV(StringT, [])])
  {
    HealAmount(m, data);
    assert Placeholder(m.params[1], Objects) == IntV(5);
    assert Placeholder(m.params[2], Objects) == ArrV(StringT, []) by {
      ObjectsFit();
      assert ArrayOf(StringT) in Objects;
    }
    OneOfThree(m, data, Objects, IntV(7));
  }

  /** The Heal example's single item converts to its first parameter. */
  lemma HealAmount(m: Method, data: seq<string>)
    requires |m.params| > 0 && m.params[0].ty == IntT
    requires data == ["7"]
    ensures CoerceAt(m.params, data, 0) == Success(IntV(7))
  {
    assert data[0] == [Convert.DigitChar(7)];
    DigitItem(7);
  }

  /** One data item for three parameters: the item's conversion, then the two
      placeholders. */
  lemma OneOfThree(m: Method, data: seq<string>, objects: map<ParamType, Value>, a: Value)
    requires |data| == 1 && |m.params| == 3
    requires CoerceAt(m.params, data, 0) == Success(a)
    ensures StringsToArguments(m, data, objects)
      == Success([a, Placeholder(m.params[1], objects), Placeholder(m.params[2], objects)])
  {
    assert ConsumedFrom(m.params, data, 0) == 1;
    var vs := [a, Placeholder(m.params[1], objects), Placeholder(m.params[2], objects)];
    forall k | 1 <= k < |vs|
      ensures vs[k] == Placeholder(m.params[k], objects)
    {
      assert k == 1 || k == 2;
    }
    SomeConsumed(m, data, objects, vs);
  }

  /** More items than parameters, with no array parameter to take them, throws
      IndexOutOfRange. */
  lemma TooManyItemsExample(m: Method, data: seq<string>)
    requires m == Method("Jump", [Param("height", IntT, None)])
    requires data == ["1", "2"]
    ensures StringsToArguments(m, data, Objects) == Failure(IndexOutOfRange)
  {
    assert "1" == [Convert.DigitChar(1)];
    DigitItem(1);
    assert ConsumedFrom(m.params, data, 0) == 2;
    StringsToArgumentsSpec(m, data, Objects);
  }
}
