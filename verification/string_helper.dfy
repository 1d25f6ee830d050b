/** StringHelper (Helpers/StringHelper.cs): joining a sub-array, extracting
    delimited groups, and replacing the first occurrence of a text. */
module StringHelper {
  import opened Results
  import opened Text
  import ArrayHelper
  import TypeHelper

  /** ArrayToString(items, separator, start, end): the stringified elements of
      SubArray(items, start, end) joined with the separator. */
  function ArrayToString<T>(items: seq<T>, separator: string, start: int, end: int, show: T -> string): Result<string> {
    var sub :- ArrayHelper.SubArray(items, start, end);
    Success(Join(separator, TypeHelper.TypeArrayToStringArray(sub, show)))
  }

  /** On a string array, ArrayToString from `start` joins the tail from `start`. */
  lemma ArrayToStringTail(parts: seq<string>, separator: string, start: int)
    requires 0 <= start <= |parts|
    ensures ArrayToString(parts, separator, start, -1, TypeHelper.StringToString) == Success(Join(separator, parts[start..]))
  {
    ArrayHelper.SubArrayTail(parts, start);
    TypeHelper.StringsToStrings(parts[start..]);
  }

  // ---------------------------------------------------------------------------
  // GetSubStrings: the matches of the regular expression  start(.*?)end

  /** The lazy `(.*?)end` part: the first position from `q` on where `end`
      occurs, provided no newline (which `.` does not match) comes before it. */
  function CloseFrom(s: string, end: string, q: nat): (r: Option<nat>)
    ensures r.Some? ==> q <= r.value && OccursAt(s, end, r.value)
    ensures r.Some? ==> forall k :: q <= k < r.value ==> !OccursAt(s, end, k) && s[k] != '\n'
    decreases |s| - q
  {
    if OccursAt(s, end, q) then Some(q)
    else if q < |s| && s[q] != '\n' then CloseFrom(s, end, q + 1)
    else None
  }

  /** A match attempt at position `p`: where the closing delimiter starts. */
  function MatchAt(s: string, start: string, end: string, p: nat): (r: Option<nat>)
    ensures r.Some? ==> OccursAt(s, start, p) && p + |start| <= r.value && OccursAt(s, end, r.value)
    ensures r.Some? ==> forall k :: p + |start| <= k < r.value ==> !OccursAt(s, end, k) && s[k] != '\n'
  {
    if OccursAt(s, start, p) then CloseFrom(s, end, p + |start|) else None
  }

  /** Regex.Matches from position `pos`: try each position in turn; after a match
      resume right after its closing delimiter. Yields each group's inner text. */
  function ScanFrom(s: string, start: string, end: string, pos: nat): (r: seq<string>)
    requires |start| > 0 && |end| > 0
    ensures forall x :: x in r ==> '\n' !in x && !Contains(x, end)
    decreases |s| - pos
  {
    if pos >= |s| then []
    else
      match MatchAt(s, start, end, pos)
      case None => ScanFrom(s, start, end, pos + 1)
      case Some(close) =>
        var inner := s[pos + |start|..close];
        InnerAvoidsEnd(s, end, pos + |start|, close);
        [inner] + ScanFrom(s, start, end, close + |end|)
  }

  /** The inner text of a match holds neither a newline nor the closing delimiter. */
  lemma InnerAvoidsEnd(s: string, end: string, a: nat, b: nat)
    requires |end| > 0 && a <= b <= |s|
    requires forall k :: a <= k < b ==> !OccursAt(s, end, k) && s[k] != '\n'
    ensures '\n' !in s[a..b] && !Contains(s[a..b], end)
  {
    if Contains(s[a..b], end) {
      var q := IndexOf(s[a..b], end).value;
      OccursInSlice(s, end, a, b, q);
    }
  }

  /** GetSubStrings(input, start, end): the inner texts of the non-overlapping,
      shortest start...end groups, left to right, none spanning a line break. */
  function GetSubStrings(input: string, start: string, end: string): (r: seq<string>)
    requires |start| > 0 && |end| > 0
    ensures forall x :: x in r ==> '\n' !in x && !Contains(x, end)
  {
    ScanFrom(input, start, end, 0)
  }

  /** With quotes as both delimiters every group uses up two quotes, so there are
      at most half as many groups as quotes; a lone quote forms no group. */
  lemma {:induction false} QuoteGroupsCount(s: string, pos: nat)
    requires pos <= |s|
    ensures |ScanFrom(s, "\"", "\"", pos)| * 2 <= Count(s[pos..], '"')
    decreases |s| - pos
  {
    if pos < |s| {
      match MatchAt(s, "\"", "\"", pos)
      case None =>
        QuoteGroupsCount(s, pos + 1);
        CountDrop(s, pos);
      case Some(close) =>
        QuoteGroupsCount(s, close + 1);
        OccursAtChar(s, '"', pos);
        OccursAtChar(s, '"', close);
        CountQuotedGroup(s, pos, close);
    }
  }

  /** Dropping the first character of a suffix loses at most one quote. */
  lemma CountDrop(s: string, pos: nat)
    requires pos < |s|
    ensures Count(s[pos + 1..], '"') <= Count(s[pos..], '"')
  {
    assert s[pos..][1..] == s[pos + 1..];
  }

  /** A quote at `pos` and one at `close` both count in the suffix from `pos`. */
  lemma CountQuotedGroup(s: string, pos: nat, close: nat)
    requires pos < close < |s| && s[pos] == '"' && s[close] == '"'
    ensures Count(s[close + 1..], '"') + 2 <= Count(s[pos..], '"')
  {
    var mid := s[pos + 1..close];
    assert s[pos..] == [s[pos]] + (mid + ([s[close]] + s[close + 1..]));
    CountAppend([s[pos]], mid + ([s[close]] + s[close + 1..]), '"');
    CountAppend(mid, [s[close]] + s[close + 1..], '"');
    CountAppend([s[close]], s[close + 1..], '"');
  }

  lemma LoneQuoteNoGroup(s: string)
    requires Count(s, '"') <= 1
    ensures GetSubStrings(s, "\"", "\"") == []
  {
    QuoteGroupsCount(s, 0);
    assert s[0..] == s;
  }

  // ---------------------------------------------------------------------------

  /** ReplaceFirst(text, search, replacement): the text unchanged when `search`
      does not occur; otherwise only its leftmost occurrence is replaced, with
      everything before and after it kept. */
  function ReplaceFirst(text: string, search: string, replacement: string): (r: string)
    ensures !Contains(text, search) ==> r == text
    ensures Contains(text, search) ==> |r| == |text| - |search| + |replacement|
    ensures forall p :: IsFirstOccurrence(text, search, p) ==>
      r[..p] == text[..p] && r[p..p + |replacement|] == replacement && r[p + |replacement|..] == text[p + |search|..]
  {
    match IndexOf(text, search)
    case None => text
    case Some(pos) => text[..pos] + replacement + text[pos + |search|..]
  }

  /** Replacing the first occurrence of a text by itself changes nothing. */
  lemma ReplaceFirstSelf(text: string, search: string)
    ensures ReplaceFirst(text, search, search) == text
  {
    match IndexOf(text, search)
    case None =>
    case Some(pos) =>
      Slices3(text, pos, pos + |search|);
  }
}
