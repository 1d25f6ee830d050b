/** FileHelper.LoadFile (Helpers/FileHelper.cs), over the file's lines: a
    missing file is None. */
module FileHelper {
  import opened Results
  import Text

  predicate IsBlank(line: string) {
    Text.Trim(line) == ""
  }

  /** `a` is `b` with some elements left out, the rest in order. */
  predicate IsSubsequence<T(==)>(a: seq<T>, b: seq<T>)
    decreases |b|
  {
    if |a| == 0 then true
    else if |b| == 0 then false
    else if a[0] == b[0] then IsSubsequence(a[1..], b[1..])
    else IsSubsequence(a, b[1..])
  }

  /** The reading loop: every line, except the blank ones when they are ignored. */
  function KeepLines(lines: seq<string>, ignoreBlankLines: bool): (r: seq<string>)
    ensures |r| <= |lines|
    ensures IsSubsequence(r, lines)
    ensures forall x :: multiset(r)[x] == (if ignoreBlankLines && IsBlank(x) then 0 else multiset(lines)[x])
    decreases |lines|
  {
    if |lines| == 0 then []
    else
      var rest := KeepLines(lines[1..], ignoreBlankLines);
      assert lines == [lines[0]] + lines[1..];
      var r := if ignoreBlankLines && IsBlank(lines[0]) then rest else [lines[0]] + rest;
      KeepLinesCount(lines, ignoreBlankLines, rest, r);
      if r == rest then
        SubsequenceSkip(rest, lines);
        r
      else r
  }

  /** One step of KeepLines keeps the count of every line right. */
  lemma KeepLinesCount(lines: seq<string>, ignoreBlankLines: bool, rest: seq<string>, r: seq<string>)
    requires |lines| > 0
    requires forall x :: multiset(rest)[x] == (if ignoreBlankLines && IsBlank(x) then 0 else multiset(lines[1..])[x])
    requires r == if ignoreBlankLines && IsBlank(lines[0]) then rest else [lines[0]] + rest
    ensures forall x :: multiset(r)[x] == (if ignoreBlankLines && IsBlank(x) then 0 else multiset(lines)[x])
  {
    assert lines == [lines[0]] + lines[1..];
    assert multiset(lines) == multiset{lines[0]} + multiset(lines[1..]);
    if !(ignoreBlankLines && IsBlank(lines[0])) {
      assert multiset(r) == multiset{lines[0]} + multiset(rest);
    }
  }

  lemma SubsequenceSkip<T>(a: seq<T>, b: seq<T>)
    requires |b| > 0 && IsSubsequence(a, b[1..])
    ensures IsSubsequence(a, b)
    decreases |a| + |b|
  {
    if |a| > 0 && a[0] == b[0] {
      SubsequenceTail(a, b[1..]);
    }
  }

  lemma SubsequenceTail<T>(a: seq<T>, b: seq<T>)
    requires |a| > 0 && IsSubsequence(a, b)
    ensures IsSubsequence(a[1..], b)
    decreases |a| + |b|
  {
    if |b| > 0 && a[0] != b[0] {
      SubsequenceTail(a, b[1..]);
      SubsequenceSkip(a[1..], b);
    } else if |b| > 0 {
      SubsequenceSkip(a[1..], b);
    }
  }

  /** LoadFile(path, ignoreBlankLines): a missing file gives no lines; otherwise
      the file's lines in order, verbatim, without the blank ones when asked. */
  function LoadFile(file: Option<seq<string>>, ignoreBlankLines: bool): (r: seq<string>)
    ensures file.None? ==> r == []
    ensures file.Some? ==> |r| <= |file.value| && IsSubsequence(r, file.value)
    ensures file.Some? ==> forall x :: multiset(r)[x] == (if ignoreBlankLines && IsBlank(x) then 0 else multiset(file.value)[x])
    ensures ignoreBlankLines ==> forall k :: 0 <= k < |r| ==> !IsBlank(r[k])
  {
    match file
    case None => []
    case Some(lines) =>
      var r := KeepLines(lines, ignoreBlankLines);
      assert forall k :: 0 <= k < |r| ==> multiset(r)[r[k]] > 0;
      r
  }

  /** Without the blank-line filter every line is kept. */
  lemma LoadFileKeepsAll(lines: seq<string>)
    ensures LoadFile(Some(lines), false) == lines
  {
    var r := LoadFile(Some(lines), false);
    assert multiset(r) == multiset(lines);
    assert |r| == |multiset(r)| == |multiset(lines)| == |lines|;
    SubsequenceSameLength(r, lines);
  }

  /** The blank-line filter keeps a file without blank lines whole. */
  lemma LoadFileNoBlank(lines: seq<string>)
    requires forall k :: 0 <= k < |lines| ==> !IsBlank(lines[k])
    ensures LoadFile(Some(lines), true) == lines
  {
    var r := LoadFile(Some(lines), true);
    forall x
      ensures multiset(r)[x] == multiset(lines)[x]
    {
      if IsBlank(x) {
        assert x !in lines;
      }
    }
    assert multiset(r) == multiset(lines);
    assert |r| == |multiset(r)| == |multiset(lines)| == |lines|;
    SubsequenceSameLength(r, lines);
  }

  /** A subsequence as long as the whole is the whole. */
  lemma {:induction false} SubsequenceSameLength<T>(a: seq<T>, b: seq<T>)
    requires IsSubsequence(a, b) && |a| == |b|
    ensures a == b
    decreases |b|
  {
    if |a| > 0 {
      if a[0] != b[0] {
        SubsequenceLength(a, b[1..]);
      } else {
        SubsequenceSameLength(a[1..], b[1..]);
      }
    }
  }

  lemma {:induction false} SubsequenceLength<T>(a: seq<T>, b: seq<T>)
    requires IsSubsequence(a, b)
    ensures |a| <= |b|
    decreases |b|
  {
    if |a| > 0 {
      if a[0] == b[0] {
        SubsequenceLength(a[1..], b[1..]);
      } else {
        SubsequenceLength(a, b[1..]);
      }
    }
  }
}
