/**
 * The Python string builtins the embedding scripts lean on: `str.isspace`,
 * `str.split()` with no separator, `sep.join(...)`, `str.strip()`,
 * `str.splitlines()` and the substring test `x in s`.
 */
module PyStr {

  /** The 29 code points Python 3's `str.isspace()` accepts. */
  const SpaceChars: set<char> := {
    '\t', '\n', '\U{0B}', '\U{0C}', '\r', '\U{1C}', '\U{1D}', '\U{1E}', '\U{1F}', ' ',
    '\U{85}', '\U{A0}', '\U{1680}',
    '\U{2000}', '\U{2001}', '\U{2002}', '\U{2003}', '\U{2004}', '\U{2005}',
    '\U{2006}', '\U{2007}', '\U{2008}', '\U{2009}', '\U{200A}',
    '\U{2028}', '\U{2029}', '\U{202F}', '\U{205F}', '\U{3000}'
  }

  /** The code points at which `str.splitlines()` ends a line (`\r\n` counts once). */
  const LineBreakChars: set<char> := {
    '\n', '\r', '\U{0B}', '\U{0C}', '\U{1C}', '\U{1D}', '\U{1E}', '\U{85}', '\U{2028}', '\U{2029}'
  }

  /** `c.isspace()` */
  predicate IsSpace(c: char) {
    c in SpaceChars
  }

  predicate IsLineBreak(c: char) {
    c in LineBreakChars
  }

  predicate NoSpace(s: string) {
    forall i :: 0 <= i < |s| ==> !IsSpace(s[i])
  }

  predicate AllSpace(s: string) {
    forall i :: 0 <= i < |s| ==> IsSpace(s[i])
  }

  predicate NoLineBreak(s: string) {
    forall i :: 0 <= i < |s| ==> !IsLineBreak(s[i])
  }

  /** One element of what `str.split()` returns: non-empty, free of whitespace. */
  predicate IsWord(w: string) {
    w != [] && NoSpace(w)
  }

  /** Number of leading whitespace characters. */
  function SpaceLen(s: string): (n: nat)
    ensures n <= |s|
    ensures forall i :: 0 <= i < n ==> IsSpace(s[i])
    ensures n < |s| ==> !IsSpace(s[n])
  {
    if s != [] && IsSpace(s[0]) then 1 + SpaceLen(s[1..]) else 0
  }

  /** Number of leading non-whitespace characters. */
  function WordLen(s: string): (n: nat)
    ensures n <= |s|
    ensures forall i :: 0 <= i < n ==> !IsSpace(s[i])
    ensures n < |s| ==> IsSpace(s[n])
  {
    if s != [] && !IsSpace(s[0]) then 1 + WordLen(s[1..]) else 0
  }

  /** Number of trailing whitespace characters. */
  function TrailLen(s: string): (n: nat)
    ensures n <= |s|
    ensures forall i :: |s| - n <= i < |s| ==> IsSpace(s[i])
    ensures n < |s| ==> !IsSpace(s[|s| - 1 - n])
  {
    if s != [] && IsSpace(s[|s| - 1]) then 1 + TrailLen(s[..|s| - 1]) else 0
  }

  /** Number of characters before the first line break. */
  function LineLen(s: string): (n: nat)
    ensures n <= |s|
    ensures forall i :: 0 <= i < n ==> !IsLineBreak(s[i])
    ensures n < |s| ==> IsLineBreak(s[n])
  {
    if s != [] && !IsLineBreak(s[0]) then 1 + LineLen(s[1..]) else 0
  }

  /**
   * `s.split()`: skip a run of whitespace, take a maximal run of
   * non-whitespace as the next word, repeat until nothing is left.
   */
  function Split(s: string): (ws: seq<string>)
    ensures forall k :: 0 <= k < |ws| ==> IsWord(ws[k])
    decreases |s|
  {
    var t := s[SpaceLen(s)..];
    if t == [] then []
    else
      var n := WordLen(t);
      [t[..n]] + Split(t[n..])
  }

  /** `sep.join(parts)` for a one-character separator. */
  function Join(sep: char, parts: seq<string>): string
  {
    if parts == [] then []
    else if |parts| == 1 then parts[0]
    else parts[0] + [sep] + Join(sep, parts[1..])
  }

  /** `s.strip()`: drop leading and trailing whitespace. */
  function Strip(s: string): (r: string)
    ensures |r| <= |s|
    ensures r == [] || (!IsSpace(r[0]) && !IsSpace(r[|r| - 1]))
    ensures r == [] <==> AllSpace(s)
    ensures NoLineBreak(s) ==> NoLineBreak(r)
    ensures s == [] || (!IsSpace(s[0]) && !IsSpace(s[|s| - 1])) ==> r == s
    ensures exists a, b :: 0 <= a <= b <= |s| && r == s[a..b] && AllSpace(s[..a]) && AllSpace(s[b..])
  {
    var a := SpaceLen(s);
    var t := s[a..];
    var n := TrailLen(t);
    LeadingSpace(s);
    TrailingSpace(t);
    SuffixOfSuffix(s, a, n);
    PrefixOfSuffix(s, a, |t| - n);
    t[..|t| - n]
  }

  /** The leading whitespace run is all whitespace. */
  lemma LeadingSpace(s: string)
    ensures AllSpace(s[..SpaceLen(s)])
  {
  }

  /** The trailing whitespace run is all whitespace. */
  lemma TrailingSpace(t: string)
    ensures AllSpace(t[|t| - TrailLen(t)..])
  {
  }

  /** The first `m` characters of the suffix from `a` are the slice from `a` to `a + m`. */
  lemma PrefixOfSuffix(s: string, a: nat, m: nat)
    requires a + m <= |s|
    ensures s[a..][..m] == s[a..a + m]
  {
  }

  /** The last `n` characters of a suffix of `s` are the last `n` characters of `s`. */
  lemma SuffixOfSuffix(s: string, a: nat, n: nat)
    requires a <= |s| && n <= |s| - a
    ensures s[a..][|s| - a - n..] == s[|s| - n..]
  {
  }

  /** Stripping removes only whitespace: the non-whitespace characters stay, in order. */
  lemma StripKeepsNonSpace(s: string)
    ensures RemoveSpace(Strip(s)) == RemoveSpace(s)
  {
    var a, b :| 0 <= a <= b <= |s| && Strip(s) == s[a..b] && AllSpace(s[..a]) && AllSpace(s[b..]);
    DropThree(s, a, b, SpaceChars);
    RemoveSpaceAll(s[..a]);
    RemoveSpaceAll(s[b..]);
    assert [] + RemoveSpace(s[a..b]) + [] == RemoveSpace(s[a..b]);
  }

  /**
   * `s.splitlines()`: the pieces between line breaks, a `\r\n` pair being one
   * break, and no empty piece after a final break.
   */
  function SplitLines(s: string): (ls: seq<string>)
    ensures forall k :: 0 <= k < |ls| ==> NoLineBreak(ls[k])
    decreases |s|
  {
    if s == [] then []
    else
      var n := LineLen(s);
      if n == |s| then [s]
      else [s[..n]] + SplitLines(s[n + BreakLen(s, n)..])
  }

  /** Length of the line break at `n`: two for `\r\n`, one otherwise. */
  function BreakLen(s: string, n: nat): (k: nat)
    requires n < |s|
    ensures 1 <= k <= |s| - n
  {
    if s[n] == '\r' && n + 1 < |s| && s[n + 1] == '\n' then 2 else 1
  }

  /** `sub in s` for strings: `sub` occurs somewhere in `s` (always true of ""). */
  predicate Contains(s: string, sub: string)
    decreases |s|
  {
    sub <= s || (s != [] && Contains(s[1..], sub))
  }

  /** `sub` occurs in `s` starting at index `i`. */
  predicate OccursAt(s: string, sub: string, i: int) {
    0 <= i <= |s| - |sub| && s[i..i + |sub|] == sub
  }

  /** `s` with every character of `cs` removed, the others kept in order. */
  function Drop(s: string, cs: set<char>): string
  {
    if s == [] then [] else (if s[0] in cs then [] else [s[0]]) + Drop(s[1..], cs)
  }

  /** `s` with every whitespace character removed. */
  function RemoveSpace(s: string): string
  {
    Drop(s, SpaceChars)
  }

  /** `s` with every line-break character removed. */
  function RemoveLineBreaks(s: string): string
  {
    Drop(s, LineBreakChars)
  }

  /** `''.join(parts)` */
  function Concat(parts: seq<string>): string
  {
    if parts == [] then [] else parts[0] + Concat(parts[1..])
  }

  /** The substring test searches every position: `sub in s` exactly when some slice of `s` equals `sub`. */
  lemma {:induction false} ContainsAt(s: string, sub: string)
    ensures Contains(s, sub) <==> exists i :: OccursAt(s, sub, i)
    decreases |s|
  {
    if Contains(s, sub) {
      if sub <= s {
        assert OccursAt(s, sub, 0);
      } else {
        ContainsAt(s[1..], sub);
        var i :| OccursAt(s[1..], sub, i);
        SliceOfTail(s, i, |sub|);
        assert OccursAt(s, sub, i + 1);
      }
    }
    if exists i :: OccursAt(s, sub, i) {
      var i :| OccursAt(s, sub, i);
      if i == 0 {
        assert sub <= s;
      } else {
        SliceOfTail(s, i - 1, |sub|);
        assert OccursAt(s[1..], sub, i - 1);
        ContainsAt(s[1..], sub);
      }
    }
  }

  /** A slice of `s[1..]` is the slice of `s` one position further on. */
  lemma SliceOfTail(s: string, i: nat, m: nat)
    requires s != [] && i + m <= |s| - 1
    ensures s[1..][i..i + m] == s[i + 1..i + 1 + m]
  {
  }

  /** The empty string occurs in every string. */
  lemma ContainsEmpty(s: string)
    ensures Contains(s, [])
  {
  }

  /** `WordLen` is the index of the first whitespace character, or the length when there is none. */
  lemma WordLenIs(s: string, n: nat)
    requires n <= |s| && forall i :: 0 <= i < n ==> !IsSpace(s[i])
    requires n < |s| ==> IsSpace(s[n])
    ensures WordLen(s) == n
  {
  }

  /** A string that starts with a word splits into that word and the split of the rest. */
  lemma SplitWordFirst(s: string)
    requires s != [] && !IsSpace(s[0])
    ensures Split(s) == [s[..WordLen(s)]] + Split(s[WordLen(s)..])
  {
    assert SpaceLen(s) == 0;
    assert s[0..] == s;
  }

  /** A single leading space does not change the split of a string that starts with a word. */
  lemma SplitSpaceFirst(j: string)
    requires j != [] && !IsSpace(j[0])
    ensures Split([' '] + j) == Split(j)
  {
    var u := [' '] + j;
    assert SpaceLen(j) == 0;
    assert SpaceLen(u) == 1 by {
      assert u[1..] == j;
    }
    assert u[1..] == j && j[0..] == j;
  }

  /** Splitting "word, one space, rest" gives the word followed by the split of the rest. */
  lemma SplitWordSpace(s: string, n: nat)
    requires s != [] && !IsSpace(s[0]) && n == WordLen(s)
    requires n + 1 < |s| && s[n] == ' ' && !IsSpace(s[n + 1])
    ensures Split(s) == [s[..n]] + Split(s[n + 1..])
  {
    var t, u := s[n + 1..], s[n..];
    SplitWordFirst(s);
    SpaceThen(s, n);
    SplitSpaceFirst(t);
    assert Split(u) == Split([' '] + t);
  }

  /** The suffix from a space at `n` is that space followed by the suffix after it. */
  lemma SpaceThen(s: string, n: nat)
    requires n < |s| && s[n] == ' '
    ensures s[n..] == [' '] + s[n + 1..]
  {
  }

  /** Every piece `split()` yields from a joined list of words is one of those words, in order. */
  lemma {:induction false} SplitJoin(ws: seq<string>)
    requires forall k :: 0 <= k < |ws| ==> IsWord(ws[k])
    ensures Split(Join(' ', ws)) == ws
  {
    if ws == [] {
    } else if |ws| == 1 {
      JoinSplitWord(ws[0]);
      SplitNonEmpty(ws[0]);
      JoinSingle(' ', Split(ws[0]));
    } else {
      var w, rest := ws[0], ws[1..];
      var j := Join(' ', rest);
      SplitJoin(rest);
      JoinFirst(' ', rest);
      assert ws == [w] + rest;
      JoinCons(' ', w, rest);
      var s := w + [' '] + j;
      SplitNonEmpty(j);
      WordSpaceRest(w, j);
      SplitWordSpace(s, |w|);
    }
  }

  /** In "word, one space, rest" the first word ends at the space, and the parts are recovered by slicing. */
  lemma WordSpaceRest(w: string, j: string)
    requires IsWord(w) && j != [] && !IsSpace(j[0])
    ensures var s := w + [' '] + j;
      WordLen(s) == |w| && s[|w|] == ' ' && !IsSpace(s[|w| + 1]) && s[..|w|] == w && s[|w| + 1..] == j
  {
    var s := w + [' '] + j;
    assert s[..|w|] == w && s[|w| + 1..] == j;
    WordLenIs(s, |w|);
  }

  /** Re-joining the split of a lone word gives the word back. */
  lemma JoinSplitWord(s: string)
    requires s != [] && NoSpace(s)
    ensures Join(' ', Split(s)) == s
  {
    WordLenIs(s, |s|);
    SplitWordFirst(s);
    assert s[..|s|] == s && s[|s|..] == [];
  }

  /** Re-joining the split of "word, one space, rest" gives the word, the space and the re-joined split of the rest. */
  lemma JoinSplitSpace(s: string, n: nat)
    requires s != [] && !IsSpace(s[0]) && n == WordLen(s)
    requires n + 1 < |s| && s[n] == ' ' && !IsSpace(s[n + 1])
    ensures Join(' ', Split(s)) == s[..n] + [' '] + Join(' ', Split(s[n + 1..]))
  {
    SplitWordSpace(s, n);
    SplitNonEmpty(s[n + 1..]);
    JoinCons(' ', s[..n], Split(s[n + 1..]));
  }

  /** A string that starts with a non-whitespace character has at least one word. */
  lemma SplitNonEmpty(t: string)
    requires t != [] && !IsSpace(t[0])
    ensures Split(t) != []
  {
    assert SpaceLen(t) == 0;
  }

  lemma JoinCons(sep: char, w: string, ws: seq<string>)
    requires ws != []
    ensures Join(sep, [w] + ws) == w + [sep] + Join(sep, ws)
  {
    assert ([w] + ws)[1..] == ws;
  }

  /** A string with a space at `n` is what comes before, the space, and what comes after. */
  lemma SpaceAt(s: string, n: nat)
    requires n < |s| && s[n] == ' '
    ensures s == s[..n] + [' '] + s[n + 1..]
  {
  }

  lemma JoinSingle(sep: char, ws: seq<string>)
    requires |ws| == 1
    ensures Join(sep, ws) == ws[0]
  {
  }

  /** A join of non-empty words starts with the first word's first character and is non-empty. */
  lemma {:induction false} JoinFirst(sep: char, ws: seq<string>)
    requires ws != [] && ws[0] != []
    ensures Join(sep, ws) != [] && Join(sep, ws)[0] == ws[0][0]
  {
  }

  /** A join of non-empty words ends with the last word's last character. */
  lemma {:induction false} JoinLast(sep: char, ws: seq<string>)
    requires ws != [] && forall k :: 0 <= k < |ws| ==> ws[k] != []
    ensures Join(sep, ws) != []
    ensures Join(sep, ws)[|Join(sep, ws)| - 1] == ws[|ws| - 1][|ws[|ws| - 1]| - 1]
  {
    if |ws| > 1 {
      JoinLast(sep, ws[1..]);
    }
  }

  /** `split()` yields nothing exactly when the string is all whitespace. */
  lemma SplitEmpty(s: string)
    ensures Split(s) == [] <==> AllSpace(s)
  {
    if AllSpace(s) {
      assert SpaceLen(s) == |s|;
    }
  }

  lemma {:induction false} DropAppend(a: string, b: string, cs: set<char>)
    ensures Drop(a + b, cs) == Drop(a, cs) + Drop(b, cs)
  {
    if a == [] {
      assert a + b == b;
    } else {
      assert (a + b)[0] == a[0];
      assert (a + b)[1..] == a[1..] + b;
      DropAppend(a[1..], b, cs);
    }
  }

  lemma {:induction false} DropAll(s: string, cs: set<char>)
    requires forall i :: 0 <= i < |s| ==> s[i] in cs
    ensures Drop(s, cs) == []
  {
    if s != [] {
      DropAll(s[1..], cs);
    }
  }

  lemma {:induction false} DropNone(s: string, cs: set<char>)
    requires forall i :: 0 <= i < |s| ==> s[i] !in cs
    ensures Drop(s, cs) == s
  {
    if s != [] {
      DropNone(s[1..], cs);
    }
  }

  /** Dropping a subset first and then the whole set is dropping the whole set. */
  lemma {:induction false} DropSubset(s: string, cs: set<char>, ds: set<char>)
    requires cs <= ds
    ensures Drop(Drop(s, cs), ds) == Drop(s, ds)
  {
    if s != [] {
      var c, rest := s[0], Drop(s[1..], cs);
      DropSubset(s[1..], cs, ds);
      if c in cs {
        assert c in ds;
        assert Drop(s, cs) == rest;
      } else {
        assert Drop(s, cs) == [c] + rest;
        DropAppend([c], rest, ds);
      }
    }
  }

  lemma RemoveSpaceAppend(a: string, b: string)
    ensures RemoveSpace(a + b) == RemoveSpace(a) + RemoveSpace(b)
  {
    DropAppend(a, b, SpaceChars);
  }

  lemma RemoveSpaceAll(s: string)
    requires AllSpace(s)
    ensures RemoveSpace(s) == []
  {
    DropAll(s, SpaceChars);
  }

  lemma RemoveSpaceNone(s: string)
    requires NoSpace(s)
    ensures RemoveSpace(s) == s
  {
    DropNone(s, SpaceChars);
  }

  lemma ConcatCons(w: string, ws: seq<string>)
    ensures Concat([w] + ws) == w + Concat(ws)
  {
    assert ([w] + ws)[1..] == ws;
  }

  /** A string is its prefix up to `n` followed by its suffix from `n`. */
  lemma Cut(s: string, n: nat)
    requires n <= |s|
    ensures s == s[..n] + s[n..]
  {
  }

  /** The words of `s`, glued together, are exactly the non-whitespace characters of `s` in order. */
  lemma {:induction false} ConcatSplit(s: string)
    ensures Concat(Split(s)) == RemoveSpace(s)
    decreases |s|
  {
    var a := SpaceLen(s);
    var t := s[a..];
    Cut(s, a);
    RemoveSpaceAppend(s[..a], t);
    RemoveSpaceAll(s[..a]);
    assert RemoveSpace(s) == RemoveSpace(t);
    if t != [] {
      var n := WordLen(t);
      var w, rest := t[..n], t[n..];
      assert Split(s) == [w] + Split(rest);
      Cut(t, n);
      RemoveSpaceAppend(w, rest);
      RemoveSpaceNone(w);
      ConcatSplit(rest);
      ConcatCons(w, Split(rest));
    }
  }

  /** Joining words with spaces and then deleting whitespace leaves the words glued together. */
  lemma {:induction false} RemoveSpaceJoin(ws: seq<string>)
    requires forall k :: 0 <= k < |ws| ==> IsWord(ws[k])
    ensures RemoveSpace(Join(' ', ws)) == Concat(ws)
  {
    if ws == [] {
    } else if |ws| == 1 {
      RemoveSpaceNone(ws[0]);
      assert Concat(ws[1..]) == [];
      assert Concat(ws) == ws[0] + [];
    } else {
      var w, rest := ws[0], ws[1..];
      var j := Join(' ', rest);
      RemoveSpaceJoin(rest);
      assert Join(' ', ws) == w + [' '] + j;
      RemoveSpaceAppend(w + [' '], j);
      RemoveSpaceAppend(w, [' ']);
      RemoveSpaceNone(w);
      assert RemoveSpace([' ']) == [];
      Glue(RemoveSpace(Join(' ', ws)), w, RemoveSpace([' ']), Concat(rest));
      assert Concat(ws) == w + Concat(rest);
    }
  }

  /** `splitlines()` of lines joined by `'\n'` gives those lines back, provided none is empty or holds a break. */
  lemma {:induction false} SplitLinesJoin(ls: seq<string>)
    requires forall k :: 0 <= k < |ls| ==> ls[k] != [] && NoLineBreak(ls[k])
    ensures SplitLines(Join('\n', ls)) == ls
  {
    if ls == [] {
    } else if |ls| == 1 {
      assert LineLen(ls[0]) == |ls[0]|;
    } else {
      var l, rest := ls[0], ls[1..];
      var j := Join('\n', rest);
      SplitLinesJoin(rest);
      JoinFirst('\n', rest);
      var s := l + ['\n'] + j;
      assert Join('\n', ls) == s;
      assert s[|l|] == '\n';
      assert LineLen(s) == |l|;
      assert s[..|l|] == l;
      assert s[|l| + 1..] == j;
    }
  }

  /** The text before the first line break has no line-break character to remove. */
  lemma DropLine(s: string, n: nat)
    requires n == LineLen(s)
    ensures Drop(s[..n], LineBreakChars) == s[..n]
  {
    DropNone(s[..n], LineBreakChars);
  }

  /** The line break at `n` (two characters for `\r\n`) has nothing but line-break characters. */
  lemma DropBreak(s: string, n: nat, k: nat)
    requires n < |s| && IsLineBreak(s[n])
    requires k == BreakLen(s, n)
    ensures n + k <= |s| && Drop(s[n..n + k], LineBreakChars) == []
  {
    DropAll(s[n..n + k], LineBreakChars);
  }

  /** Removing characters from a line, a break and the rest removes them from each part. */
  lemma DropThree(s: string, n: nat, m: nat, cs: set<char>)
    requires n <= m <= |s|
    ensures Drop(s, cs) == Drop(s[..n], cs) + Drop(s[n..m], cs) + Drop(s[m..], cs)
  {
    assert s == s[..n] + s[n..m] + s[m..];
    DropAppend(s[..n] + s[n..m], s[m..], cs);
    DropAppend(s[..n], s[n..m], cs);
  }

  /** A text without a line break is one piece, and removing line breaks leaves it unchanged. */
  lemma SplitLinesOne(s: string)
    requires s != [] && LineLen(s) == |s|
    ensures Concat(SplitLines(s)) == RemoveLineBreaks(s)
  {
    DropNone(s, LineBreakChars);
    assert SplitLines(s) == [s];
    assert Concat([s]) == s + Concat([]);
  }

  /** Up to its first line break a text is its first piece; the rest is split after the break. */
  lemma SplitLinesStep(s: string, n: nat, k: nat)
    requires n == LineLen(s) < |s|
    requires k == BreakLen(s, n)
    ensures n + k <= |s|
    ensures SplitLines(s) == [s[..n]] + SplitLines(s[n + k..])
  {
  }

  /** Removing line breaks keeps the first piece and drops the break after it. */
  lemma RemoveLineBreaksStep(s: string, n: nat, k: nat)
    requires n == LineLen(s) < |s|
    requires k == BreakLen(s, n)
    ensures n + k <= |s|
    ensures RemoveLineBreaks(s) == s[..n] + RemoveLineBreaks(s[n + k..])
  {
    DropLine(s, n);
    DropBreak(s, n, k);
    DropKeepSkip(s, n, n + k, LineBreakChars);
  }

  /** When the prefix up to `n` loses nothing and the part from `n` to `m` loses everything, what remains is that prefix and the rest. */
  lemma DropKeepSkip(s: string, n: nat, m: nat, cs: set<char>)
    requires n <= m <= |s|
    requires Drop(s[..n], cs) == s[..n] && Drop(s[n..m], cs) == []
    ensures Drop(s, cs) == s[..n] + Drop(s[m..], cs)
  {
    DropThree(s, n, m, cs);
    Glue(Drop(s, cs), Drop(s[..n], cs), Drop(s[n..m], cs), Drop(s[m..], cs));
  }

  /** An empty middle part can be left out of a three-part concatenation. */
  lemma Glue(d: string, x: string, y: string, z: string)
    requires d == x + y + z && y == []
    ensures d == x + z
  {
  }

  /** The pieces `splitlines()` returns, glued together, are the input with its line-break characters removed. */
  lemma {:induction false} SplitLinesConcat(s: string)
    ensures Concat(SplitLines(s)) == RemoveLineBreaks(s)
    decreases |s|
  {
    if s != [] {
      var n := LineLen(s);
      if n == |s| {
        SplitLinesOne(s);
      } else {
        var k := BreakLen(s, n);
        var line, rest := s[..n], s[n + k..];
        SplitLinesStep(s, n, k);
        RemoveLineBreaksStep(s, n, k);
        SplitLinesConcat(rest);
        ConcatCons(line, SplitLines(rest));
      }
    }
  }
}
