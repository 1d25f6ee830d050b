/** The .NET string primitives the console relies on, with ordinal (culture
    independent) comparison: occurrence search, Contains, StartsWith, Split with
    StringSplitOptions.None, Join, Replace, Trim and ToLower. */
module Text {
  import opened Results

  /** `t` occurs in `s` starting at index `i`. */
  predicate OccursAt(s: string, t: string, i: int) {
    0 <= i && i + |t| <= |s| && s[i..i + |t|] == t
  }

  /** `p` is the leftmost occurrence of `t` in `s`. */
  predicate IsFirstOccurrence(s: string, t: string, p: int) {
    OccursAt(s, t, p) && forall q :: 0 <= q < p ==> !OccursAt(s, t, q)
  }

  /** Ordinal String.IndexOf(t, i): the leftmost occurrence at or after `i`. */
  function IndexFrom(s: string, t: string, i: nat): (r: Option<nat>)
    ensures r.Some? ==> i <= r.value && OccursAt(s, t, r.value)
    ensures r.Some? ==> forall q :: i <= q < r.value ==> !OccursAt(s, t, q)
    ensures r.None? ==> forall q :: i <= q ==> !OccursAt(s, t, q)
    decreases |s| - i
  {
    if i + |t| > |s| then None
    else if s[i..i + |t|] == t then Some(i)
    else IndexFrom(s, t, i + 1)
  }

  /** Ordinal String.IndexOf(t); .NET answers -1 where this answers None. */
  function IndexOf(s: string, t: string): (r: Option<nat>)
    ensures r.Some? ==> IsFirstOccurrence(s, t, r.value)
    ensures r.None? ==> forall q :: !OccursAt(s, t, q)
  {
    IndexFrom(s, t, 0)
  }

  /** Ordinal String.Contains. */
  predicate Contains(s: string, t: string) {
    IndexOf(s, t).Some?
  }

  /** Ordinal String.StartsWith. */
  predicate StartsWith(s: string, t: string) {
    |t| <= |s| && s[..|t|] == t
  }

  lemma IndexOfFirst(s: string, t: string, p: int)
    requires IsFirstOccurrence(s, t, p)
    ensures IndexOf(s, t) == Some(p)
  {
    assert OccursAt(s, t, p);
    assert IndexOf(s, t).Some?;
    assert OccursAt(s, t, IndexOf(s, t).value);
  }

  lemma ContainsIff(s: string, t: string)
    ensures Contains(s, t) <==> exists q :: OccursAt(s, t, q)
  {
  }

  /** An occurrence inside a slice is an occurrence in the whole string. */
  lemma OccursInSlice(s: string, t: string, a: int, b: int, q: int)
    requires 0 <= a <= b <= |s|
    requires OccursAt(s[a..b], t, q)
    ensures OccursAt(s, t, a + q)
  {
    var x, y := s[a..b][q..q + |t|], s[a + q..a + q + |t|];
    assert forall j :: 0 <= j < |x| ==> x[j] == y[j];
    assert x == y;
  }

  /** Every occurrence begins with the first character of what occurs. */
  lemma OccursHead(s: string, t: string, q: int)
    requires |t| > 0
    ensures OccursAt(s, t, q) ==> s[q] == t[0]
  {
    if OccursAt(s, t, q) {
      assert s[q..q + |t|][0] == s[q];
    }
  }

  lemma NotContainsSlice(s: string, t: string, a: int, b: int)
    requires 0 <= a <= b <= |s|
    requires !Contains(s, t)
    ensures !Contains(s[a..b], t)
  {
    if Contains(s[a..b], t) {
      var q := IndexOf(s[a..b], t).value;
      OccursInSlice(s, t, a, b, q);
    }
  }

  /** A one-character string occurs exactly where that character is. */
  lemma OccursAtChar(s: string, c: char, q: int)
    ensures OccursAt(s, [c], q) <==> 0 <= q < |s| && s[q] == c
  {
    if 0 <= q < |s| && s[q] == c {
      assert s[q..q + 1] == [c];
    }
  }

  lemma ContainsChar(s: string, c: char)
    ensures Contains(s, [c]) <==> c in s
  {
    if c in s {
      var q :| 0 <= q < |s| && s[q] == c;
      OccursAtChar(s, c, q);
    }
    if Contains(s, [c]) {
      OccursAtChar(s, c, IndexOf(s, [c]).value);
    }
  }

  // ---------------------------------------------------------------------------
  // Split and Join

  /** String.Split(new[] { sep }, StringSplitOptions.None) for a non-empty
      separator: cut at the leftmost occurrence and continue after it, keeping
      empty pieces. */
  function Split(s: string, sep: string): (r: seq<string>)
    requires |sep| > 0
    ensures |r| >= 1
    decreases |s|
  {
    match IndexOf(s, sep)
    case None => [s]
    case Some(p) => [s[..p]] + Split(s[p + |sep|..], sep)
  }

  /** No piece of a split holds the separator. */
  lemma {:induction false} SplitPiecesFree(s: string, sep: string)
    requires |sep| > 0
    ensures forall k :: 0 <= k < |Split(s, sep)| ==> !Contains(Split(s, sep)[k], sep)
    decreases |s|
  {
    match IndexOf(s, sep)
    case None =>
    case Some(p) =>
      forall q | 0 <= q
        ensures !OccursAt(s[..p], sep, q)
      {
        if q < p && q + |sep| <= p {
          assert !OccursAt(s, sep, q);
          assert s[..p][q..q + |sep|] == s[q..q + |sep|];
        }
      }
      SplitPiecesFree(s[p + |sep|..], sep);
  }

  /** String.Join(sep, parts). */
  function Join(sep: string, parts: seq<string>): string
    decreases |parts|
  {
    if |parts| == 0 then ""
    else if |parts| == 1 then parts[0]
    else parts[0] + sep + Join(sep, parts[1..])
  }

  /** Joining the pieces of a split with the same separator gives the text back. */
  lemma {:induction false} JoinSplit(s: string, sep: string)
    requires |sep| > 0
    ensures Join(sep, Split(s, sep)) == s
    decreases |s|
  {
    match IndexOf(s, sep)
    case None =>
      assert Split(s, sep) == [s];
    case Some(p) =>
      var rest := s[p + |sep|..];
      SplitAt(s, sep, p);
      JoinSplit(rest, sep);
      JoinCons(sep, s[..p], Split(rest, sep));
      assert s[p..p + |sep|] == sep;
      Slices3(s, p, p + |sep|);
  }

  lemma Slices3(s: string, i: int, j: int)
    requires 0 <= i <= j <= |s|
    ensures s == s[..i] + s[i..j] + s[j..]
  {
  }

  lemma JoinCons(sep: string, x: string, ys: seq<string>)
    requires |ys| >= 1
    ensures Join(sep, [x] + ys) == x + sep + Join(sep, ys)
  {
    assert ([x] + ys)[1..] == ys;
  }

  /** Splitting a join gives the parts back when no part holds the separator's
      first character (so no occurrence can start inside a part). */
  lemma {:induction false} SplitJoin(sep: string, parts: seq<string>)
    requires |sep| > 0 && |parts| >= 1
    requires forall k, j :: 0 <= k < |parts| && 0 <= j < |parts[k]| ==> parts[k][j] != sep[0]
    ensures Split(Join(sep, parts), sep) == parts
    decreases |parts|
  {
    var s := Join(sep, parts);
    if |parts| == 1 {
      forall q | 0 <= q < |s|
        ensures !OccursAt(s, sep, q)
      {
        OccursHead(s, sep, q);
      }
    } else {
      var rest := Join(sep, parts[1..]);
      var p := |parts[0]|;
      assert s == parts[0] + sep + rest;
      forall q | 0 <= q < p
        ensures !OccursAt(s, sep, q)
      {
        OccursHead(s, sep, q);
        assert s[q] == parts[0][q];
      }
      assert s[p..p + |sep|] == sep;
      IndexOfFirst(s, sep, p);
      assert s[..p] == parts[0];
      assert s[p + |sep|..] == rest;
      SplitJoin(sep, parts[1..]);
    }
  }

  /** With a one-character separator, splitting around an occurrence of it
      splits both sides independently. */
  lemma {:induction false} SplitAround(a: string, sep: string, b: string)
    requires |sep| == 1
    ensures Split(a + sep + b, sep) == Split(a, sep) + Split(b, sep)
    decreases |a|
  {
    var s := a + sep + b;
    match IndexOf(a, sep)
    case None =>
      forall q | 0 <= q < |a|
        ensures !OccursAt(s, sep, q)
      {
        OccursAtChar(s, sep[0], q);
        OccursAtChar(a, sep[0], q);
        assert sep == [sep[0]];
      }
      assert s[|a|..|a| + 1] == sep;
      IndexOfFirst(s, sep, |a|);
      assert s[..|a|] == a;
      assert s[|a| + 1..] == b;
    case Some(p) =>
      forall q | 0 <= q < p
        ensures !OccursAt(s, sep, q)
      {
        OccursAtChar(s, sep[0], q);
        OccursAtChar(a, sep[0], q);
        assert sep == [sep[0]];
      }
      OccursAtChar(a, sep[0], p);
      OccursAtChar(s, sep[0], p);
      IndexOfFirst(s, sep, p);
      assert s[..p] == a[..p];
      assert s[p + 1..] == a[p + 1..] + sep + b;
      SplitAround(a[p + 1..], sep, b);
  }

  /** A text without the separator splits into itself alone. */
  lemma SplitNone(s: string, sep: string)
    requires |sep| > 0 && !Contains(s, sep)
    ensures Split(s, sep) == [s]
  {
  }

  /** A character absent from every part and from the separator is absent from the join. */
  lemma {:induction false} JoinAvoids(sep: string, parts: seq<string>, c: char)
    requires c !in sep
    requires forall k :: 0 <= k < |parts| ==> c !in parts[k]
    ensures c !in Join(sep, parts)
    decreases |parts|
  {
    if |parts| > 1 {
      JoinAvoids(sep, parts[1..], c);
    }
  }

  /** Every piece of a split is a slice of the text, so it avoids whatever the text avoids. */
  lemma {:induction false} SplitPiecesAvoid(s: string, sep: string, t: string)
    requires |sep| > 0 && !Contains(s, t)
    ensures forall k :: 0 <= k < |Split(s, sep)| ==> !Contains(Split(s, sep)[k], t)
    decreases |s|
  {
    match IndexOf(s, sep)
    case None =>
    case Some(p) =>
      NotContainsSlice(s, t, 0, p);
      NotContainsSlice(s, t, p + |sep|, |s|);
      assert s[p + |sep|..|s|] == s[p + |sep|..];
      SplitPiecesAvoid(s[p + |sep|..], sep, t);
  }

  /** Every piece of a split avoids the characters the text avoids. */
  lemma {:induction false} SplitPiecesAvoidChar(s: string, sep: string, c: char)
    requires |sep| > 0 && c !in s
    ensures forall k :: 0 <= k < |Split(s, sep)| ==> c !in Split(s, sep)[k]
    decreases |s|
  {
    match IndexOf(s, sep)
    case None =>
    case Some(p) =>
      assert c !in s[p + |sep|..];
      SplitPiecesAvoidChar(s[p + |sep|..], sep, c);
      assert forall j :: 0 <= j < p ==> s[..p][j] == s[j];
  }

  // ---------------------------------------------------------------------------
  // Replace

  /** String.Replace(pat, rep): a left-to-right scan of the ORIGINAL text that
      substitutes every non-overlapping occurrence of `pat`. */
  function Replace(s: string, pat: string, rep: string): string
    requires |pat| > 0
    decreases |s|
  {
    if |s| == 0 then ""
    else if OccursAt(s, pat, 0) then rep + Replace(s[|pat|..], pat, rep)
    else [s[0]] + Replace(s[1..], pat, rep)
  }

  /** Dropping the first character shifts the leftmost occurrence by one. */
  lemma IndexOfTail(s: string, t: string)
    requires |s| > 0 && !OccursAt(s, t, 0)
    ensures IndexOf(s[1..], t) == (match IndexOf(s, t) case None => None case Some(p) => Some(p - 1))
  {
    forall q | OccursAt(s[1..], t, q)
      ensures OccursAt(s, t, q + 1)
    {
      assert s[1..|s|] == s[1..];
      OccursInSlice(s, t, 1, |s|, q);
    }
    match IndexOf(s, t)
    case None =>
    case Some(p) =>
      assert p != 0;
      OccursShift(s, t, p);
      IndexOfFirst(s[1..], t, p - 1);
  }

  /** An occurrence after the first character is one in the tail, one earlier. */
  lemma OccursShift(s: string, t: string, p: int)
    requires 1 <= p && OccursAt(s, t, p)
    ensures OccursAt(s[1..], t, p - 1)
  {
    var x, y := s[1..][p - 1..p - 1 + |t|], s[p..p + |t|];
    assert forall j :: 0 <= j < |x| ==> x[j] == y[j];
    assert x == y;
  }

  /** The join of a split, unfolded at the leftmost occurrence `p`. */
  lemma JoinOfSplitAt(s: string, pat: string, rep: string, p: nat)
    requires |pat| > 0 && IndexOf(s, pat) == Some(p)
    ensures Join(rep, Split(s, pat)) == s[..p] + rep + Join(rep, Split(s[p + |pat|..], pat))
  {
    JoinCons(rep, s[..p], Split(s[p + |pat|..], pat));
  }

  /** Replace substitutes exactly the pieces a Split finds. */
  lemma {:induction false} ReplaceIsJoinOfSplit(s: string, pat: string, rep: string)
    requires |pat| > 0
    ensures Replace(s, pat, rep) == Join(rep, Split(s, pat))
    decreases |s|
  {
    if |s| == 0 {
      assert Split(s, pat) == [s];
    } else if OccursAt(s, pat, 0) {
      ReplaceIsJoinOfSplit(s[|pat|..], pat, rep);
      ReplaceAtStart(s, pat, rep);
    } else {
      ReplaceIsJoinOfSplit(s[1..], pat, rep);
      ReplaceNotAtStart(s, pat, rep);
    }
  }

  /** The inductive step of ReplaceIsJoinOfSplit when `pat` starts `s`. */
  lemma ReplaceAtStart(s: string, pat: string, rep: string)
    requires |pat| > 0 && |s| > 0 && OccursAt(s, pat, 0)
    requires Replace(s[|pat|..], pat, rep) == Join(rep, Split(s[|pat|..], pat))
    ensures Replace(s, pat, rep) == Join(rep, Split(s, pat))
  {
    var rest := s[|pat|..];
    assert Replace(s, pat, rep) == rep + Replace(rest, pat, rep);
    IndexOfFirst(s, pat, 0);
    SplitAt(s, pat, 0);
    assert s[..0] == "";
    JoinCons(rep, "", Split(rest, pat));
    assert "" + rep + Join(rep, Split(rest, pat)) == rep + Join(rep, Split(rest, pat));
  }

  /** The inductive step of ReplaceIsJoinOfSplit when `pat` does not start `s`. */
  lemma ReplaceNotAtStart(s: string, pat: string, rep: string)
    requires |pat| > 0 && |s| > 0 && !OccursAt(s, pat, 0)
    requires Replace(s[1..], pat, rep) == Join(rep, Split(s[1..], pat))
    ensures Replace(s, pat, rep) == Join(rep, Split(s, pat))
  {
    assert Replace(s, pat, rep) == [s[0]] + Replace(s[1..], pat, rep);
    IndexOfTail(s, pat);
    ReplaceShifted(s, pat, rep);
  }

  /** The inductive step of ReplaceIsJoinOfSplit when `pat` does not start `s`. */
  lemma ReplaceShifted(s: string, pat: string, rep: string)
    requires |pat| > 0 && |s| > 0 && !OccursAt(s, pat, 0)
    requires IndexOf(s[1..], pat) == (match IndexOf(s, pat) case None => None case Some(p) => Some(p - 1))
    ensures [s[0]] + Join(rep, Split(s[1..], pat)) == Join(rep, Split(s, pat))
  {
    match IndexOf(s, pat)
    case None =>
      assert Split(s[1..], pat) == [s[1..]];
      assert [s[0]] + s[1..] == s;
    case Some(p) =>
      ReplaceShiftedSome(s, pat, rep, p, p - 1);
  }

  /** ReplaceShifted when `pat` occurs, first at `p`, which is 1 + `q`. */
  lemma ReplaceShiftedSome(s: string, pat: string, rep: string, p: nat, q: nat)
    requires |pat| > 0 && |s| > 0 && !OccursAt(s, pat, 0) && p == q + 1
    requires IndexOf(s, pat) == Some(p) && IndexOf(s[1..], pat) == Some(q)
    ensures [s[0]] + Join(rep, Split(s[1..], pat)) == Join(rep, Split(s, pat))
  {
    SplitAt(s, pat, p);
    SplitAt(s[1..], pat, q);
    assert s[1..][..q] == s[1..p];
    assert s[1..][q + |pat|..] == s[p + |pat|..];
    ReplaceShiftedAt(s, pat, rep, p);
  }

  lemma ReplaceShiftedAt(s: string, pat: string, rep: string, p: nat)
    requires |pat| > 0 && 0 < p && p + |pat| <= |s|
    requires Split(s, pat) == [s[..p]] + Split(s[p + |pat|..], pat)
    requires Split(s[1..], pat) == [s[1..p]] + Split(s[p + |pat|..], pat)
    ensures [s[0]] + Join(rep, Split(s[1..], pat)) == Join(rep, Split(s, pat))
  {
    JoinShift(s[0], s[1..p], rep, Split(s[p + |pat|..], pat));
    assert [s[0]] + s[1..p] == s[..p];
  }

  /** A split unfolded at the leftmost occurrence `p`. */
  lemma SplitAt(s: string, sep: string, p: nat)
    requires |sep| > 0 && IndexOf(s, sep) == Some(p)
    ensures Split(s, sep) == [s[..p]] + Split(s[p + |sep|..], sep)
  {
  }

  /** Prepending a character to a join prepends it to the first part. */
  lemma JoinShift(c: char, x: string, rep: string, tail: seq<string>)
    requires |tail| >= 1
    ensures [c] + Join(rep, [x] + tail) == Join(rep, [[c] + x] + tail)
  {
    JoinCons(rep, x, tail);
    JoinCons(rep, [c] + x, tail);
    Assoc([c], x, rep, Join(rep, tail));
  }

  lemma Assoc(a: string, b: string, c: string, d: string)
    ensures a + (b + c + d) == (a + b) + c + d
  {
  }

  // ---------------------------------------------------------------------------
  // Trim

  /** Char.IsWhiteSpace: the Unicode space separators, line and paragraph
      separators, U+0009..U+000D, U+0085 and U+00A0. */
  predicate IsWhiteSpace(c: char) {
    || ('\U{9}' <= c <= '\U{D}')
    || c == ' ' || c == '\U{85}' || c == '\U{A0}' || c == '\U{1680}'
    || ('\U{2000}' <= c <= '\U{200A}')
    || c == '\U{2028}' || c == '\U{2029}' || c == '\U{202F}' || c == '\U{205F}' || c == '\U{3000}'
  }

  predicate AllWhite(s: string) {
    forall j :: 0 <= j < |s| ==> IsWhiteSpace(s[j])
  }

  function TrimStart(s: string): (r: string)
    ensures |r| <= |s| && r == s[|s| - |r|..]
    ensures AllWhite(s[..|s| - |r|])
    ensures |r| > 0 ==> !IsWhiteSpace(r[0])
    decreases |s|
  {
    if |s| > 0 && IsWhiteSpace(s[0]) then
      var r := TrimStart(s[1..]);
      TrimStartStep(s, r);
      r
    else s
  }

  /** One step of TrimStart: a white first character joins the dropped prefix. */
  lemma TrimStartStep(s: string, r: string)
    requires |s| > 0 && IsWhiteSpace(s[0])
    requires |r| <= |s| - 1 && r == s[1..][|s| - 1 - |r|..] && AllWhite(s[1..][..|s| - 1 - |r|])
    ensures r == s[|s| - |r|..] && AllWhite(s[..|s| - |r|])
  {
    var k := |s| - |r|;
    assert s[1..][k - 1..] == s[k..];
    forall j | 0 <= j < k
      ensures IsWhiteSpace(s[..k][j])
    {
      if j > 0 {
        assert s[1..][..k - 1][j - 1] == s[j];
      }
    }
  }

  function TrimEnd(s: string): (r: string)
    ensures |r| <= |s| && r == s[..|r|]
    ensures AllWhite(s[|r|..])
    ensures |r| > 0 ==> !IsWhiteSpace(r[|r| - 1])
    decreases |s|
  {
    if |s| > 0 && IsWhiteSpace(s[|s| - 1]) then
      var r := TrimEnd(s[..|s| - 1]);
      TrimEndStep(s, r);
      r
    else s
  }

  /** One step of TrimEnd: a white last character joins the dropped suffix. */
  lemma TrimEndStep(s: string, r: string)
    requires |s| > 0 && IsWhiteSpace(s[|s| - 1])
    requires |r| <= |s| - 1 && r == s[..|s| - 1][..|r|] && AllWhite(s[..|s| - 1][|r|..])
    ensures r == s[..|r|] && AllWhite(s[|r|..])
  {
    assert s[..|s| - 1][..|r|] == s[..|r|];
    forall j | 0 <= j < |s| - |r|
      ensures IsWhiteSpace(s[|r|..][j])
    {
      if |r| + j < |s| - 1 {
        assert s[..|s| - 1][|r|..][j] == s[|r| + j];
      }
    }
  }

  /** String.Trim(): remove leading and trailing white space. Neither end of
      the result is white; TrimIsSlice places it inside `s`. */
  function Trim(s: string): (r: string)
    ensures |r| <= |s|
    ensures |r| > 0 ==> !IsWhiteSpace(r[0]) && !IsWhiteSpace(r[|r| - 1])
  {
    var u := TrimStart(s);
    var r := TrimEnd(u);
    TrimKeepsHead(u, r);
    r
  }

  lemma TrimKeepsHead(u: string, r: string)
    requires |r| <= |u| && r == u[..|r|] && (|u| > 0 ==> !IsWhiteSpace(u[0]))
    ensures |r| > 0 ==> !IsWhiteSpace(r[0])
  {
  }

  /** `r` is the slice of `s` starting at `a`, with only white space before and after it. */
  predicate WhiteAround(s: string, a: nat, r: string) {
    a <= |s| - |r| && r == s[a..a + |r|] && AllWhite(s[..a]) && AllWhite(s[a + |r|..])
  }

  /** The result of Trim is the slice of `s` that starts where TrimStart stopped
      dropping, with only white space cut on either side. */
  lemma TrimIsSlice(s: string)
    ensures WhiteAround(s, |s| - |TrimStart(s)|, Trim(s))
  {
    TrimUnfold(s);
    TrimBothSlice(s);
  }

  /** The same statement for the composition TrimEnd(TrimStart(s)). */
  lemma TrimBothSlice(s: string)
    ensures WhiteAround(s, |s| - |TrimStart(s)|, TrimEnd(TrimStart(s)))
  {
    var u := TrimStart(s);
    TrimSlice(s, u, TrimEnd(u));
  }

  lemma TrimUnfold(s: string)
    ensures Trim(s) == TrimEnd(TrimStart(s))
  {
  }

  /** Composing the slice TrimStart keeps with the prefix TrimEnd keeps. */
  lemma TrimSlice(s: string, u: string, r: string)
    requires |u| <= |s| && u == s[|s| - |u|..] && AllWhite(s[..|s| - |u|])
    requires |r| <= |u| && r == u[..|r|] && AllWhite(u[|r|..])
    ensures WhiteAround(s, |s| - |u|, r)
  {
    var a := |s| - |u|;
    assert r == s[a..a + |r|];
    assert s[a + |r|..] == u[|r|..];
  }

  /** A text trims to nothing exactly when it is all white space. */
  lemma TrimEmpty(s: string)
    ensures Trim(s) == "" <==> AllWhite(s)
  {
    TrimIsSlice(s);
    if Trim(s) == "" {
      AllWhiteJoin(s, |s| - |TrimStart(s)|);
    }
  }

  /** White space on both sides of a cut is white space throughout. */
  lemma AllWhiteJoin(s: string, a: nat)
    requires a <= |s| && AllWhite(s[..a]) && AllWhite(s[a..])
    ensures AllWhite(s)
  {
    forall j | 0 <= j < |s|
      ensures IsWhiteSpace(s[j])
    {
      if j < a { assert s[..a][j] == s[j]; } else { assert s[a..][j - a] == s[j]; }
    }
  }

  /** Trimming twice is trimming once. */
  lemma TrimIdempotent(s: string)
    ensures Trim(Trim(s)) == Trim(s)
  {
    var r := Trim(s);
    if |r| > 0 {
      assert TrimStart(r) == r;
      assert TrimEnd(r) == r;
    }
  }

  // ---------------------------------------------------------------------------
  // Case and counting

  /** Ordinal (invariant-culture, ASCII) char.ToLower. */
  function LowerChar(c: char): char {
    if 'A' <= c <= 'Z' then (c as int + 32) as char else c
  }

  /** String.ToLower over ASCII letters. */
  function Lower(s: string): (r: string)
    ensures |r| == |s|
    ensures forall j :: 0 <= j < |s| ==> r[j] == LowerChar(s[j])
  {
    seq(|s|, j requires 0 <= j < |s| => LowerChar(s[j]))
  }

  /** Number of positions of `s` holding `c`. */
  function Count(s: string, c: char): nat
    decreases |s|
  {
    if |s| == 0 then 0 else (if s[0] == c then 1 else 0) + Count(s[1..], c)
  }

  lemma {:induction false} CountAppend(s: string, t: string, c: char)
    ensures Count(s + t, c) == Count(s, c) + Count(t, c)
    decreases |s|
  {
    if |s| > 0 {
      assert (s + t)[1..] == s[1..] + t;
      CountAppend(s[1..], t, c);
    } else {
      assert s + t == t;
    }
  }

  lemma {:induction false} CountZero(s: string, c: char)
    ensures Count(s, c) == 0 <==> c !in s
    decreases |s|
  {
    if |s| > 0 {
      CountZero(s[1..], c);
      assert s == [s[0]] + s[1..];
    }
  }
}
