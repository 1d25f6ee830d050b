/** TypeHelper (Helpers/TypeHelper.cs): lenient booleans and element-wise
    conversion between string arrays and typed arrays. */
module TypeHelper {
  import opened Results
  import opened Values
  import Text
  import Convert

  /** StringToBool: true exactly for "0", "true" and "t" after lower-casing;
      every other text, including "1", "false" and "", is false. */
  function StringToBool(s: string): bool {
    var l := Text.Lower(s);
    l == "0" || l == "true" || l == "t"
  }

  /** string.ToString(): a string stringifies to itself. */
  function StringToString(s: string): string {
    s
  }

  /** StringToType<T>: booleans go through StringToBool, everything else through
      Convert.ChangeType. The result always has the requested type. */
  function StringToType(t: ParamType, s: string): (r: Result<Value>)
    ensures r.Success? ==> HasType(r.value, t)
    ensures t == BoolT ==> r == Success(BoolV(StringToBool(s)))
    ensures t != BoolT ==> r == Convert.ChangeType(s, t)
    ensures t == StringT ==> r == Success(StrV(s))
  {
    if t == BoolT then Success(BoolV(StringToBool(s))) else Convert.ChangeType(s, t)
  }

  /** StringArrayToTypeArray<T>: converts element i from values[i], in order,
      stopping at the first element that does not convert. */
  function StringArrayToTypeArray(t: ParamType, values: seq<string>): (r: Result<seq<Value>>)
    ensures r.Success? <==> forall i :: 0 <= i < |values| ==> StringToType(t, values[i]).Success?
    ensures r.Success? ==> |r.value| == |values|
    ensures r.Success? ==> forall i :: 0 <= i < |values| ==> StringToType(t, values[i]) == Success(r.value[i])
    ensures r.Failure? ==> exists i :: FirstFailureAt(t, values, i, r.error)
    decreases |values|
  {
    if |values| == 0 then Success([])
    else
      match StringToType(t, values[0])
      case Failure(e) =>
        assert FirstFailureAt(t, values, 0, e);
        Failure(e)
      case Success(v) =>
        match StringArrayToTypeArray(t, values[1..])
        case Failure(e) =>
          FirstErrorShift(t, values, e);
          Failure(e)
        case Success(vs) => Success([v] + vs)
  }

  /** Element `i` is the first that does not convert, and it fails with `e`. */
  predicate FirstFailureAt(t: ParamType, values: seq<string>, i: int, e: Fault) {
    && 0 <= i < |values|
    && StringToType(t, values[i]) == Failure(e)
    && forall j :: 0 <= j < i ==> StringToType(t, values[j]).Success?
  }

  /** A first failing element of the tail, behind a converting head, is the
      first failing element of the whole array. */
  lemma FirstErrorShift(t: ParamType, values: seq<string>, e: Fault)
    requires |values| > 0 && StringToType(t, values[0]).Success?
    requires exists i :: FirstFailureAt(t, values[1..], i, e)
    ensures exists i :: FirstFailureAt(t, values, i, e)
  {
    var i :| FirstFailureAt(t, values[1..], i, e);
    FirstFailureStep(t, values, i, e);
  }

  lemma FirstFailureStep(t: ParamType, values: seq<string>, i: int, e: Fault)
    requires |values| > 0 && StringToType(t, values[0]).Success?
    requires FirstFailureAt(t, values[1..], i, e)
    ensures FirstFailureAt(t, values, i + 1, e)
  {
    var rest := values[1..];
    assert values[i + 1] == rest[i];
    PrefixConverts(s => StringToType(t, s), values, rest, i);
  }

  /** Behind a converting head, a converting prefix of the tail extends to a
      converting prefix of the whole array one element longer. */
  lemma PrefixConverts(convert: string -> Result<Value>, values: seq<string>, rest: seq<string>, i: nat)
    requires |values| > 0 && rest == values[1..] && i < |rest|
    requires convert(values[0]).Success?
    requires forall j :: 0 <= j < i ==> convert(rest[j]).Success?
    ensures forall j :: 0 <= j < i + 1 ==> convert(values[j]).Success?
  {
    forall j | 0 < j < i + 1
      ensures convert(values[j]).Success?
    {
      assert values[j] == rest[j - 1];
    }
  }

  /** TypeArrayToStringArray<T>: element i stringified, in order. */
  function TypeArrayToStringArray<T>(values: seq<T>, show: T -> string): seq<string> {
    seq(|values|, i requires 0 <= i < |values| => show(values[i]))
  }

  // ---------------------------------------------------------------------------

  /** StringToBool, spelled out character by character without lower-casing. */
  lemma StringToBoolSpelled(s: string)
    ensures StringToBool(s) <==>
      || s == "0"
      || (|s| == 1 && s[0] in "tT")
      || (|s| == 4 && s[0] in "tT" && s[1] in "rR" && s[2] in "uU" && s[3] in "eE")
  {
    var l := Text.Lower(s);
    if |s| == 1 {
      assert l == "0" <==> s[0] == '0';
      assert l == "t" <==> s[0] in "tT";
    } else if |s| == 4 {
      assert l == "true" <==> l[0] == 't' && l[1] == 'r' && l[2] == 'u' && l[3] == 'e';
    }
  }

  /** StringToBool ignores case: it agrees on a text and its lower-cased form. */
  lemma StringToBoolIgnoresCase(s: string)
    ensures StringToBool(s) == StringToBool(Text.Lower(s))
  {
    assert Text.Lower(Text.Lower(s)) == Text.Lower(s);
  }

  /** "0", "t" and "true" are true in any case. */
  lemma StringToBoolTrueExamples()
    ensures StringToBool("0") && StringToBool("true") && StringToBool("t")
    ensures StringToBool("T") && StringToBool("TRUE") && StringToBool("True")
  {
    StringToBoolSpelled("0");
    StringToBoolSpelled("true");
    StringToBoolSpelled("t");
    StringToBoolSpelled("T");
    StringToBoolSpelled("TRUE");
    StringToBoolSpelled("True");
  }

  /** Everything else is false, "1" and "false" included. */
  lemma StringToBoolFalseExamples()
    ensures !StringToBool("1") && !StringToBool("false") && !StringToBool("") && !StringToBool("yes")
  {
    StringToBoolSpelled("1");
    StringToBoolSpelled("false");
    StringToBoolSpelled("");
    StringToBoolSpelled("yes");
  }

  /** A string array stringifies to itself. */
  lemma StringsToStrings(values: seq<string>)
    ensures TypeArrayToStringArray(values, StringToString) == values
  {
    var r := TypeArrayToStringArray(values, StringToString);
    assert forall i :: 0 <= i < |values| ==> r[i] == StringToString(values[i]) == values[i];
  }

  /** Stringifying 32-bit integers and converting the texts back to int gives
      the same integers. */
  lemma {:induction false} IntArrayRoundTrip(ns: seq<int>)
    requires forall i :: 0 <= i < |ns| ==> Convert.Int32Min <= ns[i] <= Convert.Int32Max
    ensures StringArrayToTypeArray(IntT, TypeArrayToStringArray(ns, Convert.ShowInt))
            == Success(seq(|ns|, i requires 0 <= i < |ns| => IntV(ns[i])))
  {
    var texts := TypeArrayToStringArray(ns, Convert.ShowInt);
    forall i | 0 <= i < |ns|
      ensures StringToType(IntT, texts[i]) == Success(IntV(ns[i]))
    {
      Convert.ParseShowInt(ns[i]);
    }
    var r := StringArrayToTypeArray(IntT, texts);
    assert r.Success?;
    assert r.value == seq(|ns|, i requires 0 <= i < |ns| => IntV(ns[i]));
  }
}
