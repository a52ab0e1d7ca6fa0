/**
 * The two text normalisations of the embedding scripts, both applied to the
 * plain text that BeautifulSoup's `get_text` extracted from a page:
 *  - `clean_html` collapses every run of whitespace to one space (`' '.join(text.split())`);
 *  - `extract_text_from` strips every line, drops the empty ones and re-joins
 *    the rest with `'\n'`.
 */
module Normalize {
  import opened PyStr

  /** Output shape of the whitespace collapse: single spaces between words, none at either end. */
  predicate IsCollapsed(s: string) {
    (forall i :: 0 <= i < |s| && IsSpace(s[i]) ==> s[i] == ' ') &&
    (s != [] ==> s[0] != ' ' && s[|s| - 1] != ' ') &&
    (forall i :: 0 <= i < |s| - 1 ==> s[i] != ' ' || s[i + 1] != ' ')
  }

  /** Joining words with single spaces yields a collapsed string. */
  lemma {:induction false} JoinCollapsed(ws: seq<string>)
    requires forall k :: 0 <= k < |ws| ==> IsWord(ws[k])
    ensures IsCollapsed(Join(' ', ws))
  {
    if |ws| > 1 {
      var w, j := ws[0], Join(' ', ws[1..]);
      JoinCollapsed(ws[1..]);
      JoinFirst(' ', ws[1..]);
      JoinLast(' ', ws[1..]);
      var s := w + [' '] + j;
      assert Join(' ', ws) == s;
      forall i | 0 <= i < |s| && IsSpace(s[i])
        ensures s[i] == ' '
      {
        if i > |w| {
          assert s[i] == j[i - |w| - 1];
        }
      }
      forall i | 0 <= i < |s| - 1
        ensures s[i] != ' ' || s[i + 1] != ' '
      {
        if i > |w| {
          assert s[i] == j[i - |w| - 1] && s[i + 1] == j[i - |w|];
        }
      }
    }
  }

  /**
   * The whitespace collapse of `clean_html`, applied to the text `get_text`
   * returned: the words of `text` joined by single spaces.
   */
  function CollapseWhitespace(text: string): (r: string)
    ensures IsCollapsed(r)
  {
    var ws := Split(text);
    JoinCollapsed(ws);
    Join(' ', ws)
  }

  /** The collapse keeps the words of its input, in order and unchanged. */
  lemma CollapseKeepsWords(text: string)
    ensures Split(CollapseWhitespace(text)) == Split(text)
  {
    SplitJoin(Split(text));
  }

  /** The collapse keeps every non-whitespace character, in order: only whitespace is dropped or changed. */
  lemma CollapseKeepsNonSpace(text: string)
    ensures RemoveSpace(CollapseWhitespace(text)) == RemoveSpace(text)
  {
    RemoveSpaceJoin(Split(text));
    ConcatSplit(text);
  }

  /** In a collapsed string the first word is followed either by nothing or by one space and another collapsed string. */
  lemma CollapsedRest(s: string)
    requires IsCollapsed(s) && s != [] && WordLen(s) < |s|
    ensures var n := WordLen(s);
      s[n] == ' ' && n + 1 < |s| && !IsSpace(s[n + 1]) && IsCollapsed(s[n + 1..])
  {
    var n := WordLen(s);
    var t := s[n + 1..];
    assert s[n] == ' ';
    forall i | 0 <= i < |t| - 1
      ensures t[i] != ' ' || t[i + 1] != ' '
    {
      assert t[i] == s[n + 1 + i] && t[i + 1] == s[n + 2 + i];
    }
  }

  /** If the rest after the first word re-joins to itself, so does the whole string. */
  lemma JoinSplitStep(s: string, n: nat)
    requires s != [] && !IsSpace(s[0]) && n == WordLen(s)
    requires n + 1 < |s| && s[n] == ' ' && !IsSpace(s[n + 1])
    requires Join(' ', Split(s[n + 1..])) == s[n + 1..]
    ensures Join(' ', Split(s)) == s
  {
    JoinSplitSpace(s, n);
    SpaceAt(s, n);
  }

  /** An already collapsed string is its own collapse. */
  lemma {:induction false} CollapseFixesCollapsed(s: string)
    requires IsCollapsed(s)
    ensures CollapseWhitespace(s) == s
    decreases |s|
  {
    if s != [] {
      var n := WordLen(s);
      if n < |s| {
        CollapsedRest(s);
        CollapseFixesCollapsed(s[n + 1..]);
        JoinSplitStep(s, n);
      } else {
        JoinSplitWord(s);
      }
    }
  }

  /** Collapsing twice is collapsing once. */
  lemma CollapseIdempotent(text: string)
    ensures CollapseWhitespace(CollapseWhitespace(text)) == CollapseWhitespace(text)
  {
    CollapseFixesCollapsed(CollapseWhitespace(text));
  }

  /** The collapse is empty exactly when the input is empty or all whitespace. */
  lemma CollapseEmpty(text: string)
    ensures CollapseWhitespace(text) == [] <==> AllSpace(text)
  {
    SplitEmpty(text);
    var ws := Split(text);
    if ws != [] {
      JoinFirst(' ', ws);
    }
  }

  /** A line as `extract_text_from` keeps it: non-empty, stripped, without line breaks. */
  predicate IsCleanLine(l: string) {
    l != [] && !IsSpace(l[0]) && !IsSpace(l[|l| - 1]) && NoLineBreak(l)
  }

  /** `(line.strip() for line in lines)` filtered by `if line`. */
  function KeptLines(lines: seq<string>): (r: seq<string>)
    requires forall k :: 0 <= k < |lines| ==> NoLineBreak(lines[k])
    ensures |r| <= |lines|
    ensures forall k :: 0 <= k < |r| ==> IsCleanLine(r[k])
  {
    if lines == [] then []
    else
      var l := Strip(lines[0]);
      (if l == [] then [] else [l]) + KeptLines(lines[1..])
  }

  /**
   * Output shape of the line normalisation: it neither starts nor ends with
   * whitespace, and its only line breaks are single `'\n'`s with a
   * non-whitespace character on each side.
   */
  predicate IsLineNormalized(s: string) {
    (s != [] ==> !IsSpace(s[0]) && !IsSpace(s[|s| - 1])) &&
    forall i :: 0 <= i < |s| && IsLineBreak(s[i]) ==>
      s[i] == '\n' && 0 < i < |s| - 1 && !IsSpace(s[i - 1]) && !IsSpace(s[i + 1])
  }

  /** Joining clean lines with `'\n'` yields line-normalised text. */
  lemma {:induction false} JoinLineNormalized(ls: seq<string>)
    requires forall k :: 0 <= k < |ls| ==> IsCleanLine(ls[k])
    ensures IsLineNormalized(Join('\n', ls))
  {
    if |ls| > 1 {
      var l, j := ls[0], Join('\n', ls[1..]);
      JoinLineNormalized(ls[1..]);
      JoinFirst('\n', ls[1..]);
      JoinLast('\n', ls[1..]);
      var s := l + ['\n'] + j;
      assert Join('\n', ls) == s;
      forall i | 0 <= i < |s| && IsLineBreak(s[i])
        ensures s[i] == '\n' && 0 < i < |s| - 1 && !IsSpace(s[i - 1]) && !IsSpace(s[i + 1])
      {
        if i > |l| {
          assert s[i] == j[i - |l| - 1];
          assert s[i - 1] == j[i - |l| - 2] && s[i + 1] == j[i - |l|];
        }
      }
    }
  }

  /** The line normalisation of `extract_text_from`, applied to the text `get_text` returned. */
  function NormalizeLines(text: string): (r: string)
    ensures IsLineNormalized(r)
  {
    var ls := KeptLines(SplitLines(text));
    JoinLineNormalized(ls);
    Join('\n', ls)
  }

  /** The lines of the result are the stripped non-empty input lines, in order. */
  lemma NormalizeLinesLines(text: string)
    ensures SplitLines(NormalizeLines(text)) == KeptLines(SplitLines(text))
    ensures forall k :: 0 <= k < |SplitLines(NormalizeLines(text))| ==> IsCleanLine(SplitLines(NormalizeLines(text))[k])
  {
    SplitLinesJoin(KeptLines(SplitLines(text)));
  }

  /** No output line is empty: no two adjacent `'\n'`, none at either end. */
  lemma NormalizeLinesNoBlankLine(text: string)
    ensures var r := NormalizeLines(text);
      (r != [] ==> r[0] != '\n' && r[|r| - 1] != '\n') &&
      forall i :: 0 <= i < |r| - 1 ==> !(r[i] == '\n' && r[i + 1] == '\n')
  {
    var r := NormalizeLines(text);
    forall i | 0 <= i < |r| - 1
      ensures !(r[i] == '\n' && r[i + 1] == '\n')
    {
      if r[i] == '\n' {
        assert IsLineBreak(r[i]);
      }
    }
  }

  /** The output has at most as many lines as the input. */
  lemma NormalizeLinesCount(text: string)
    ensures |SplitLines(NormalizeLines(text))| <= |SplitLines(text)|
  {
    NormalizeLinesLines(text);
  }

  /** Stripping and filtering lines that are already clean changes nothing. */
  lemma {:induction false} KeptLinesClean(ls: seq<string>)
    requires forall k :: 0 <= k < |ls| ==> IsCleanLine(ls[k])
    ensures forall k :: 0 <= k < |ls| ==> NoLineBreak(ls[k])
    ensures KeptLines(ls) == ls
  {
    if ls != [] {
      KeptLinesClean(ls[1..]);
    }
  }

  /** Normalising lines twice is normalising them once. */
  lemma NormalizeLinesIdempotent(text: string)
    ensures NormalizeLines(NormalizeLines(text)) == NormalizeLines(text)
  {
    var ls := KeptLines(SplitLines(text));
    SplitLinesJoin(ls);
    KeptLinesClean(ls);
  }

  /** Joining lines with `'\n'` adds only whitespace: the non-whitespace characters are those of the lines, in order. */
  lemma {:induction false} RemoveSpaceJoinLines(ls: seq<string>)
    ensures RemoveSpace(Join('\n', ls)) == RemoveSpace(Concat(ls))
  {
    if |ls| == 1 {
      assert ls[1..] == [];
      assert Concat(ls) == ls[0] + [] == ls[0];
    } else if |ls| > 1 {
      var l, rest := ls[0], ls[1..];
      RemoveSpaceJoinLines(rest);
      assert Join('\n', ls) == l + ['\n'] + Join('\n', rest);
      RemoveSpaceAppend(l + ['\n'], Join('\n', rest));
      RemoveSpaceAppend(l, ['\n']);
      assert RemoveSpace(['\n']) == [];
      assert Concat(ls) == l + Concat(rest);
      RemoveSpaceAppend(l, Concat(rest));
    }
  }

  /** Stripping the lines and dropping the empty ones keeps every non-whitespace character, in order. */
  lemma {:induction false} KeptLinesKeepsNonSpace(ls: seq<string>)
    requires forall k :: 0 <= k < |ls| ==> NoLineBreak(ls[k])
    ensures RemoveSpace(Concat(KeptLines(ls))) == RemoveSpace(Concat(ls))
  {
    if ls != [] {
      var l, rest := ls[0], ls[1..];
      var kept := KeptLines(rest);
      KeptLinesKeepsNonSpace(rest);
      StripKeepsNonSpace(l);
      assert Concat(ls) == l + Concat(rest);
      RemoveSpaceAppend(l, Concat(rest));
      if Strip(l) == [] {
        assert KeptLines(ls) == kept;
      } else {
        assert KeptLines(ls) == [Strip(l)] + kept;
        ConcatCons(Strip(l), kept);
        RemoveSpaceAppend(Strip(l), Concat(kept));
      }
    }
  }

  /** The line normalisation removes only whitespace: every other character of the page text survives, in order. */
  lemma NormalizeLinesKeepsNonSpace(text: string)
    ensures RemoveSpace(NormalizeLines(text)) == RemoveSpace(text)
  {
    var lines := SplitLines(text);
    RemoveSpaceJoinLines(KeptLines(lines));
    KeptLinesKeepsNonSpace(lines);
    SplitLinesConcat(text);
    DropSubset(text, LineBreakChars, SpaceChars);
  }
}
