/** MethodHelper.CommandSplit (Helpers/MethodHelper.cs): splitting a console
    command into tokens, keeping each quoted group together by hiding the
    separators inside it behind a sentinel while the command is split. */
module Tokenizer {
  import opened Results
  import opened Text
  import StringHelper

  /** The sentinel that stands for a separator inside a group. */
  const Sentinel := "____"

  /** The first loop of CommandSplit: for each group found, replace the first
      occurrence of the delimited group by the group with its separators turned
      into sentinels. */
  function Protect(command: string, groups: seq<string>, splitOn: string, groupStart: string, groupEnd: string): string
    requires |splitOn| > 0
    decreases |groups|
  {
    if |groups| == 0 then command
    else
      var g := groups[0];
      var protected := StringHelper.ReplaceFirst(command, groupStart + g + groupEnd, Join(Sentinel, Split(g, splitOn)));
      Protect(protected, groups[1..], splitOn, groupStart, groupEnd)
  }

  /** The last loop of CommandSplit, on one part: every sentinel becomes a space. */
  function Restore(part: string): string {
    Join(" ", Split(part, Sentinel))
  }

  function RestoreAll(parts: seq<string>): (r: seq<string>)
    ensures |r| == |parts|
    ensures forall i :: 0 <= i < |parts| ==> r[i] == Restore(parts[i])
  {
    seq(|parts|, i requires 0 <= i < |parts| => Restore(parts[i]))
  }

  /** CommandSplit(command, splitOn, groupStart, groupEnd): never empty, and one
      token per separator-delimited part of the protected command. */
  function CommandSplit(command: string, splitOn: string, groupStart: string, groupEnd: string): (r: seq<string>)
    requires |splitOn| > 0 && |groupStart| > 0 && |groupEnd| > 0
    ensures |r| >= 1
  {
    var groups := StringHelper.GetSubStrings(command, groupStart, groupEnd);
    RestoreAll(Split(Protect(command, groups, splitOn, groupStart, groupEnd), splitOn))
  }

  // ---------------------------------------------------------------------------
  // Restore leaves sentinel-free parts alone and undoes the protection of a group

  lemma RestoreFree(part: string)
    requires !Contains(part, Sentinel)
    ensures Restore(part) == part
  {
    SplitNone(part, Sentinel);
  }

  lemma {:induction false} RestoreAllFree(parts: seq<string>)
    requires forall k :: 0 <= k < |parts| ==> !Contains(parts[k], Sentinel)
    ensures RestoreAll(parts) == parts
  {
    forall k | 0 <= k < |parts|
      ensures RestoreAll(parts)[k] == parts[k]
    {
      RestoreFree(parts[k]);
    }
  }

  lemma RestoreAllAppend(a: seq<string>, b: seq<string>)
    ensures RestoreAll(a + b) == RestoreAll(a) + RestoreAll(b)
  {
    var l, r := RestoreAll(a + b), RestoreAll(a) + RestoreAll(b);
    assert forall i :: 0 <= i < |l| ==> l[i] == r[i];
  }

  /** A text without underscores holds no sentinel. */
  lemma NoSentinel(s: string)
    requires '_' !in s
    ensures !Contains(s, Sentinel)
  {
    if Contains(s, Sentinel) {
      OccursHead(s, Sentinel, IndexOf(s, Sentinel).value);
    }
  }

  /** The protected form of a group without underscores restores to the group. */
  lemma RestoreProtected(g: string, splitOn: string)
    requires |splitOn| > 0 && '_' !in g
    ensures Restore(Join(Sentinel, Split(g, splitOn))) == Join(" ", Split(g, splitOn))
  {
    var pieces := Split(g, splitOn);
    SplitPiecesAvoidChar(g, splitOn, '_');
    SplitJoin(Sentinel, pieces);
  }

  // ---------------------------------------------------------------------------
  // The group scan on a command with one quoted group

  /** No match can start before the first quote. */
  lemma {:induction false} ScanSkip(s: string, pos: nat, k: nat)
    requires pos <= k <= |s|
    requires forall j :: pos <= j < k ==> s[j] != '"'
    ensures StringHelper.ScanFrom(s, "\"", "\"", pos) == StringHelper.ScanFrom(s, "\"", "\"", k)
    decreases k - pos
  {
    if pos < k {
      OccursAtChar(s, '"', pos);
      assert !OccursAt(s, "\"", pos);
      ScanSkip(s, pos + 1, k);
    }
  }

  /** The lazy close of a group is the next quote, when no line break precedes it. */
  lemma {:induction false} CloseSkip(s: string, q: nat, c: nat)
    requires q <= c < |s| && s[c] == '"'
    requires forall j :: q <= j < c ==> s[j] != '"' && s[j] != '\n'
    ensures StringHelper.CloseFrom(s, "\"", q) == Some(c)
    decreases c - q
  {
    OccursAtChar(s, '"', q);
    if q < c {
      CloseSkip(s, q + 1, c);
    }
  }

  /** A text whose only quotes are at `p` and `c`, with no line break between
      them, has exactly one group: the text between them. */
  lemma OneGroupAt(s: string, p: nat, c: nat)
    requires p < c < |s| && s[p] == '"' && s[c] == '"'
    requires forall j :: 0 <= j < |s| && j != p && j != c ==> s[j] != '"'
    requires forall j :: p < j < c ==> s[j] != '\n'
    ensures StringHelper.GetSubStrings(s, "\"", "\"") == [s[p + 1..c]]
  {
    ScanSkip(s, 0, p);
    CloseSkip(s, p + 1, c);
    OccursAtChar(s, '"', p);
    assert StringHelper.MatchAt(s, "\"", "\"", p) == Some(c);
    ScanSkip(s, c + 1, |s|);
  }

  /** In `a"y"b` with no other quote and no line break in y, the only group is y. */
  lemma OneGroup(a: string, y: string, b: string)
    requires '"' !in a && '"' !in y && '"' !in b && '\n' !in y
    ensures StringHelper.GetSubStrings(a + "\"" + y + "\"" + b, "\"", "\"") == [y]
  {
    var s := a + "\"" + y + "\"" + b;
    var p := |a|;
    var c := p + 1 + |y|;
    assert s == a + ['"'] + y + ['"'] + b;
    assert forall j :: 0 <= j < p ==> s[j] == a[j];
    assert forall j :: p < j < c ==> s[j] == y[j - p - 1];
    assert forall j :: c < j < |s| ==> s[j] == b[j - c - 1];
    assert |s[p + 1..c]| == |y|;
    assert forall j :: 0 <= j < |y| ==> s[p + 1..c][j] == s[p + 1 + j] == y[j];
    assert s[p + 1..c] == y;
    OneGroupAt(s, p, c);
  }

  /** Replacing that group by its protected form. */
  lemma ProtectOneGroup(a: string, y: string, b: string, rep: string)
    requires '"' !in a
    ensures StringHelper.ReplaceFirst(a + "\"" + y + "\"" + b, "\"" + y + "\"", rep) == a + rep + b
  {
    var s := a + "\"" + y + "\"" + b;
    var search := "\"" + y + "\"";
    var p := |a|;
    assert s[p..p + |search|] == search;
    forall q | 0 <= q < p
      ensures !OccursAt(s, search, q)
    {
      OccursHead(s, search, q);
    }
    assert IsFirstOccurrence(s, search, p);
    var r := StringHelper.ReplaceFirst(s, search, rep);
    assert r[..p] == a;
    assert r[p..p + |rep|] == rep;
    assert r[p + |rep|..] == b;
    assert r == r[..p] + r[p..p + |rep|] + r[p + |rep|..];
  }

  /** The first loop of CommandSplit on a command with one group: the group,
      quotes included, becomes its protected form. */
  lemma ProtectGroup(a: string, y: string, b: string)
    requires '"' !in a && '"' !in y && '"' !in b && '\n' !in y
    ensures var s := a + "\"" + y + "\"" + b;
      Protect(s, StringHelper.GetSubStrings(s, "\"", "\""), " ", "\"", "\"") == a + Join(Sentinel, Split(y, " ")) + b
  {
    var s := a + "\"" + y + "\"" + b;
    var rep := Join(Sentinel, Split(y, " "));
    OneGroup(a, y, b);
    assert Protect(s, [y], " ", "\"", "\"") == StringHelper.ReplaceFirst(s, "\"" + y + "\"", rep);
    ProtectOneGroup(a, y, b, rep);
  }

  // ---------------------------------------------------------------------------
  // Properties of CommandSplit

  /** Without a matched pair of quotes and without the sentinel, CommandSplit is
      a plain split on the separator (empty tokens between consecutive
      separators included). */
  lemma CommandSplitPlain(command: string, splitOn: string)
    requires |splitOn| > 0
    requires Count(command, '"') <= 1 && !Contains(command, Sentinel)
    ensures CommandSplit(command, splitOn, "\"", "\"") == Split(command, splitOn)
  {
    StringHelper.LoneQuoteNoGroup(command);
    SplitPiecesAvoid(command, splitOn, Sentinel);
    RestoreAllFree(Split(command, splitOn));
  }

  /** The protected form of a group holds no space. */
  lemma ProtectedNoSpace(y: string)
    ensures !Contains(Join(Sentinel, Split(y, " ")), " ")
  {
    var pieces := Split(y, " ");
    SplitPiecesFree(y, " ");
    forall k | 0 <= k < |pieces|
      ensures ' ' !in pieces[k]
    {
      ContainsChar(pieces[k], ' ');
    }
    JoinAvoids(Sentinel, pieces, ' ');
    ContainsChar(Join(Sentinel, pieces), ' ');
  }

  /** Splitting `x rep z` on spaces when `rep` holds none. */
  lemma SplitAroundWord(x: string, rep: string, z: string)
    requires !Contains(rep, " ")
    ensures Split(x + " " + rep + " " + z, " ") == Split(x, " ") + [rep] + Split(z, " ")
  {
    SplitNone(rep, " ");
    assert x + " " + rep + " " + z == x + " " + (rep + " " + z);
    SplitAround(x, " ", rep + " " + z);
    SplitAround(rep, " ", z);
  }

  /** Restoring sentinel-free tokens around the protected form of y. */
  lemma RestoreAround(xs: seq<string>, y: string, zs: seq<string>)
    requires '_' !in y
    requires forall k :: 0 <= k < |xs| ==> !Contains(xs[k], Sentinel)
    requires forall k :: 0 <= k < |zs| ==> !Contains(zs[k], Sentinel)
    ensures RestoreAll(xs + [Join(Sentinel, Split(y, " "))] + zs) == xs + [y] + zs
  {
    var rep := Join(Sentinel, Split(y, " "));
    RestoreProtected(y, " ");
    JoinSplit(y, " ");
    RestoreAllFree(xs);
    RestoreAllFree(zs);
    RestoreAllAppend(xs + [rep], zs);
    RestoreAllAppend(xs, [rep]);
    assert RestoreAll([rep]) == [y];
  }

  /** A quoted group between two spaces becomes one token with the quotes
      removed and its inner spaces kept; the text around it splits as usual. */
  lemma CommandSplitGroup(x: string, y: string, z: string)
    requires '"' !in x && '"' !in y && '"' !in z
    requires '\n' !in y && '_' !in y
    requires !Contains(x, Sentinel) && !Contains(z, Sentinel)
    ensures CommandSplit(x + " \"" + y + "\" " + z, " ", "\"", "\"") == Split(x, " ") + [y] + Split(z, " ")
  {
    var rep := Join(Sentinel, Split(y, " "));
    assert x + " \"" + y + "\" " + z == (x + " ") + "\"" + y + "\"" + (" " + z);
    CommandSplitOneGroup(x + " ", y, " " + z);
    assert (x + " ") + rep + (" " + z) == x + " " + rep + " " + z;
    ProtectedNoSpace(y);
    SplitAroundWord(x, rep, z);
    SplitPiecesAvoid(x, " ", Sentinel);
    SplitPiecesAvoid(z, " ", Sentinel);
    RestoreAround(Split(x, " "), y, Split(z, " "));
  }

  /** A quoted group that ends the command becomes the last token. */
  lemma CommandSplitGroupLast(x: string, y: string)
    requires '"' !in x && '"' !in y
    requires '\n' !in y && '_' !in y
    requires !Contains(x, Sentinel)
    ensures CommandSplit(x + " \"" + y + "\"", " ", "\"", "\"") == Split(x, " ") + [y]
  {
    var rep := Join(Sentinel, Split(y, " "));
    assert x + " \"" + y + "\"" == (x + " ") + "\"" + y + "\"" + "";
    CommandSplitOneGroup(x + " ", y, "");
    assert (x + " ") + rep + "" == x + " " + rep;
    ProtectedNoSpace(y);
    SplitNone(rep, " ");
    SplitAround(x, " ", rep);
    SplitPiecesAvoid(x, " ", Sentinel);
    var none: seq<string> := [];
    RestoreAround(Split(x, " "), y, none);
    assert Split(x, " ") + [rep] + none == Split(x, " ") + [rep];
  }

  /** CommandSplit on a command with one group: the command with that group
      protected, split and restored. */
  lemma CommandSplitOneGroup(a: string, y: string, b: string)
    requires '"' !in a && '"' !in y && '"' !in b && '\n' !in y
    ensures CommandSplit(a + "\"" + y + "\"" + b, " ", "\"", "\"")
            == RestoreAll(Split(a + Join(Sentinel, Split(y, " ")) + b, " "))
  {
    ProtectGroup(a, y, b);
  }

  // ---------------------------------------------------------------------------
  // Worked cases

  /** A word with neither spaces nor underscores is one token. */
  lemma Word(w: string)
    requires ' ' !in w && '_' !in w
    ensures Split(w, " ") == [w] && !Contains(w, Sentinel)
  {
    ContainsChar(w, ' ');
    SplitNone(w, " ");
    NoSentinel(w);
  }

  lemma QuotedGroupExample(command: string)
    requires command == "foo \"a b\" c"
    ensures CommandSplit(command, " ", "\"", "\"") == ["foo", "a b", "c"]
  {
    assert command == "foo" + " \"" + "a b" + "\" " + "c";
    GroupBetweenWords("foo", "a b", "c");
  }

  /** A quoted group between two plain words gives three tokens. */
  lemma GroupBetweenWords(x: string, y: string, z: string)
    requires ' ' !in x && '_' !in x && '"' !in x
    requires ' ' !in z && '_' !in z && '"' !in z
    requires '"' !in y && '\n' !in y && '_' !in y
    ensures CommandSplit(x + " \"" + y + "\" " + z, " ", "\"", "\"") == [x, y, z]
  {
    Word(x);
    Word(z);
    CommandSplitGroup(x, y, z);
  }

  /** A bind command whose command text is quoted. */
  lemma QuotedBindExample(command: string)
    requires command == "bind 3 \"spawn enemy\""
    ensures CommandSplit(command, " ", "\"", "\"") == ["bind", "3", "spawn enemy"]
  {
    assert command == "bind" + " " + "3" + " \"" + "spawn enemy" + "\"";
    GroupAfterTwoWords("bind", "3", "spawn enemy");
  }

  /** Two plain words and a quoted group at the end give three tokens. */
  lemma GroupAfterTwoWords(a: string, b: string, y: string)
    requires ' ' !in a && '_' !in a && '"' !in a
    requires ' ' !in b && '_' !in b && '"' !in b
    requires '"' !in y && '\n' !in y && '_' !in y
    ensures CommandSplit(a + " " + b + " \"" + y + "\"", " ", "\"", "\"") == [a, b, y]
  {
    var x := a + " " + b;
    TwoWords(a, b);
    assert '"' !in x;
    CommandSplitGroupLast(x, y);
  }

  /** Two plain words separated by one space are two tokens. */
  lemma TwoWords(a: string, b: string)
    requires ' ' !in a && '_' !in a && ' ' !in b && '_' !in b
    ensures Split(a + " " + b, " ") == [a, b] && !Contains(a + " " + b, Sentinel)
  {
    SplitAround(a, " ", b);
    Word(a);
    Word(b);
    NoSentinel(a + " " + b);
  }

  /** An unmatched quote groups nothing and stays in its token. */
  lemma LoneQuote(x: string, y: string, z: string)
    requires ' ' !in x && ' ' !in y && ' ' !in z
    requires '_' !in x && '_' !in y && '_' !in z
    requires '"' !in x && '"' !in y && '"' !in z
    ensures CommandSplit(x + " \"" + y + " " + z, " ", "\"", "\"") == [x, "\"" + y, z]
  {
    var c := x + " \"" + y + " " + z;
    assert Count(c, '"') <= 1 by {
      LoneQuoteCount(x + " ", y + " " + z);
      assert c == (x + " ") + ("\"" + (y + " " + z));
    }
    assert !Contains(c, Sentinel) by {
      NoSentinel(c);
    }
    assert Split(c, " ") == [x, "\"" + y, z] by {
      ThreeWords(x, "\"" + y, z);
      assert c == x + " " + ("\"" + y) + " " + z;
    }
    CommandSplitPlain(c, " ");
  }

  lemma LoneQuoteCount(a: string, b: string)
    requires '"' !in a && '"' !in b
    ensures Count(a + ("\"" + b), '"') == 1
  {
    CountZero(a, '"');
    CountZero(b, '"');
    CountAppend("\"", b, '"');
    CountAppend(a, "\"" + b, '"');
  }

  /** Three words joined by single spaces split back into the three words. */
  lemma ThreeWords(x: string, w: string, z: string)
    requires ' ' !in x && ' ' !in w && ' ' !in z
    requires '_' !in x && '_' !in w && '_' !in z
    ensures Split(x + " " + w + " " + z, " ") == [x, w, z]
  {
    assert x + " " + w + " " + z == x + " " + (w + " " + z);
    SplitAround(x, " ", w + " " + z);
    SplitAround(w, " ", z);
    Word(x);
    Word(w);
    Word(z);
  }

  /** A literal sentinel in the input comes back as a single space. */
  lemma SentinelCollisionExample(command: string)
    requires command == "a____b"
    ensures CommandSplit(command, " ", "\"", "\"") == ["a b"]
  {
    CountZero(command, '"');
    StringHelper.LoneQuoteNoGroup(command);
    ContainsChar(command, ' ');
    SplitNone(command, " ");
    assert command[1..5] == Sentinel;
    OccursHead(command, Sentinel, 0);
    IndexOfFirst(command, Sentinel, 1);
    assert command[..1] == "a" && command[5..] == "b";
    Word("b");
    SplitNone("b", Sentinel);
    assert Split(command, Sentinel) == ["a", "b"];
    JoinCons(" ", "a", ["b"]);
    assert ["a", "b"] == ["a"] + ["b"];
    assert Restore(command) == "a b";
    assert RestoreAll([command]) == ["a b"];
  }
}
