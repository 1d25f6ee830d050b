/** ArrayHelper.SubArray (Helpers/ArrayHelper.cs). */
module ArrayHelper {
  import opened Results

  /** The last index SubArray copies: `end == -1` stands for the last element. */
  function LastIndex<T>(source: seq<T>, end: int): int {
    if end == -1 then |source| - 1 else end
  }

  /** SubArray(source, start, end): a copy of source[start..end] inclusive.
      A negative count makes the array allocation throw; a start before the array
      or a range past its end makes Array.Copy throw. */
  function SubArray<T>(source: seq<T>, start: int, end: int): (r: Result<seq<T>>)
    ensures r.Success? <==> 0 <= start <= LastIndex(source, end) + 1 && LastIndex(source, end) < |source|
    ensures r.Success? ==> |r.value| == LastIndex(source, end) - start + 1
    ensures r.Success? ==> forall k :: 0 <= k < |r.value| ==> r.value[k] == source[start + k]
    ensures r.Failure? ==> r.error == (if LastIndex(source, end) + 1 < start then OverflowError
                                       else if start < 0 then ArgumentOutOfRange
                                       else ArgumentError)
  {
    var last := if end == -1 then |source| - 1 else end;
    var count := last - start + 1;
    if count < 0 then Failure(OverflowError)
    else if start < 0 then Failure(ArgumentOutOfRange)
    else if start + count > |source| then Failure(ArgumentError)
    else Success(source[start..start + count])
  }

  /** Without an explicit end, SubArray is the suffix from `start`; in particular
      SubArray(a, 0) is `a` and SubArray(a, |a|) is empty. */
  lemma SubArrayTail<T>(source: seq<T>, start: int)
    requires 0 <= start <= |source|
    ensures SubArray(source, start, -1) == Success(source[start..])
    ensures SubArray(source, 0, -1) == Success(source)
    ensures SubArray(source, |source|, -1) == Success([])
  {
    assert source[0..|source|] == source;
  }

  /** Past the end, or with a start after the end, SubArray throws. */
  lemma SubArrayOutOfRange<T>(source: seq<T>, start: int)
    requires start > |source|
    ensures SubArray(source, start, -1) == Failure(OverflowError)
  {
  }
}
