/**
 * How the scripts enumerate pages once the remote documents are parsed:
 * the sitemap branch keeps the `loc` values containing the filter text and
 * extracts each page's text; the Zendesk branch turns every article of the
 * API response into one page.
 */
module Enumerate {
  import opened PyStr
  import opened Normalize

  datatype Option<T> = None | Some(value: T)

  /** One element of `pages`: the dictionary `{'text': ..., 'source': ...}`. */
  datatype Page = Page(text: string, source: string)

  /** One element of the Zendesk response's `articles` array: its `body` HTML and its `html_url`. */
  datatype Article = Article(body: string, htmlUrl: string)

  /** The sitemap `loc` values for which `filter in url` holds, in sitemap order. */
  function MatchingLocs(locs: seq<string>, filter: string): (r: seq<string>)
    ensures |r| <= |locs|
  {
    if locs == [] then []
    else (if Contains(locs[0], filter) then [locs[0]] else []) + MatchingLocs(locs[1..], filter)
  }

  /** The positions of the matching `loc` values, all in range. */
  function MatchIndices(locs: seq<string>, filter: string): (idx: seq<nat>)
    ensures forall k :: 0 <= k < |idx| ==> idx[k] < |locs|
  {
    if locs == [] then []
    else
      var rest := MatchIndices(locs[1..], filter);
      (if Contains(locs[0], filter) then [0] else []) + Shift(rest)
  }

  function Shift(idx: seq<nat>): (r: seq<nat>)
    ensures |r| == |idx| && forall k :: 0 <= k < |r| ==> r[k] == idx[k] + 1
  {
    seq(|idx|, k requires 0 <= k < |idx| => idx[k] + 1)
  }

  predicate Increasing(idx: seq<nat>) {
    forall k, l :: 0 <= k < l < |idx| ==> idx[k] < idx[l]
  }

  /** The matching positions are strictly increasing, so the kept values keep sitemap order. */
  lemma {:induction false} MatchIndicesIncreasing(locs: seq<string>, filter: string)
    ensures Increasing(MatchIndices(locs, filter))
  {
    if locs != [] {
      MatchIndicesIncreasing(locs[1..], filter);
      var rest := MatchIndices(locs[1..], filter);
      var shifted := Shift(rest);
      forall k, l | 0 <= k < l < |shifted|
        ensures shifted[k] < shifted[l]
      {
        assert rest[k] < rest[l];
      }
    }
  }

  /** `r` is `locs` read at the positions `idx`, in order. */
  predicate ReadAt(locs: seq<string>, idx: seq<nat>, r: seq<string>) {
    |idx| == |r| && forall k :: 0 <= k < |idx| ==> idx[k] < |locs| && locs[idx[k]] == r[k]
  }

  /** Reading `locs[1..]` at `idx` is reading `locs` at the shifted positions. */
  lemma ShiftRead(locs: seq<string>, idx: seq<nat>, r: seq<string>)
    requires locs != [] && ReadAt(locs[1..], idx, r)
    ensures ReadAt(locs, Shift(idx), r)
  {
  }

  /** Reading `locs` at position 0 first puts its head in front. */
  lemma PrependRead(locs: seq<string>, idx: seq<nat>, r: seq<string>)
    requires locs != [] && ReadAt(locs, idx, r)
    ensures ReadAt(locs, [0] + idx, [locs[0]] + r)
  {
  }

  /** The filter's result is `locs` read at the matching positions, in order. */
  lemma {:induction false} MatchingLocsAt(locs: seq<string>, filter: string)
    ensures ReadAt(locs, MatchIndices(locs, filter), MatchingLocs(locs, filter))
  {
    if locs != [] {
      var r', idx' := MatchingLocs(locs[1..], filter), MatchIndices(locs[1..], filter);
      MatchingLocsAt(locs[1..], filter);
      ShiftRead(locs, idx', r');
      if Contains(locs[0], filter) {
        assert MatchingLocs(locs, filter) == [locs[0]] + r';
        assert MatchIndices(locs, filter) == [0] + Shift(idx');
        PrependRead(locs, Shift(idx'), r');
      } else {
        assert MatchingLocs(locs, filter) == r';
        assert MatchIndices(locs, filter) == Shift(idx');
      }
    }
  }

  /** A position is among the shifted positions exactly when its predecessor is among the original ones. */
  lemma ShiftMember(idx: seq<nat>, j: nat)
    ensures j in Shift(idx) <==> j > 0 && j - 1 in idx
  {
    var shifted := Shift(idx);
    if j - 1 in idx {
      var k :| 0 <= k < |idx| && idx[k] == j - 1;
      assert shifted[k] == j;
    }
    if j in shifted {
      var k :| 0 <= k < |shifted| && shifted[k] == j;
      assert idx[k] == j - 1;
    }
  }

  /** A position is among the matching positions exactly when its `loc` contains the filter text. */
  lemma {:induction false} MatchIndicesComplete(locs: seq<string>, filter: string)
    ensures forall j :: 0 <= j < |locs| ==> (j in MatchIndices(locs, filter) <==> Contains(locs[j], filter))
  {
    if locs != [] {
      MatchIndicesComplete(locs[1..], filter);
      var rest := MatchIndices(locs[1..], filter);
      var head: seq<nat> := if Contains(locs[0], filter) then [0] else [];
      assert MatchIndices(locs, filter) == head + Shift(rest);
      forall j | 0 <= j < |locs|
        ensures j in head + Shift(rest) <==> Contains(locs[j], filter)
      {
        ShiftMember(rest, j);
        if j > 0 {
          assert locs[j] == locs[1..][j - 1];
        }
      }
    }
  }

  /** A `loc` is kept exactly when it is in the sitemap and contains the filter text. */
  lemma {:induction false} MatchingLocsMember(locs: seq<string>, filter: string)
    ensures forall u :: u in MatchingLocs(locs, filter) <==> u in locs && Contains(u, filter)
  {
    if locs != [] {
      MatchingLocsMember(locs[1..], filter);
      assert locs == [locs[0]] + locs[1..];
    }
  }

  /** Filtering a concatenation filters each part. */
  lemma {:induction false} MatchingLocsAppend(a: seq<string>, b: seq<string>, filter: string)
    ensures MatchingLocs(a + b, filter) == MatchingLocs(a, filter) + MatchingLocs(b, filter)
  {
    if a == [] {
      assert a + b == b;
    } else {
      var head := if Contains(a[0], filter) then [a[0]] else [];
      assert (a + b)[0] == a[0] && (a + b)[1..] == a[1..] + b;
      assert MatchingLocs(a + b, filter) == head + MatchingLocs(a[1..] + b, filter);
      MatchingLocsAppend(a[1..], b, filter);
      assert MatchingLocs(a, filter) == head + MatchingLocs(a[1..], filter);
    }
  }

  /** One more sitemap entry adds itself to the filtered list exactly when it contains the filter text. */
  lemma MatchingLocsSnoc(locs: seq<string>, i: nat, filter: string)
    requires i < |locs|
    ensures MatchingLocs(locs[..i + 1], filter) ==
      MatchingLocs(locs[..i], filter) + (if Contains(locs[i], filter) then [locs[i]] else [])
  {
    assert locs[..i + 1] == locs[..i] + [locs[i]];
    MatchingLocsAppend(locs[..i], [locs[i]], filter);
    assert [locs[i]][1..] == [];
  }

  /** An empty filter text keeps every entry (`'' in url` always holds). */
  lemma {:induction false} MatchingLocsEmptyFilter(locs: seq<string>)
    ensures MatchingLocs(locs, []) == locs
  {
    if locs != [] {
      ContainsEmpty(locs[0]);
      MatchingLocsEmptyFilter(locs[1..]);
    }
  }

  /** The text of one sitemap page: `extract_text_from(url)`, given the text `get_text` returns for `url`. */
  function ExtractTextFrom(url: string, pageText: string -> string): (text: string)
    ensures IsLineNormalized(text)
  {
    NormalizeLines(pageText(url))
  }

  /**
   * The sitemap loop: for each `loc` in sitemap order, a page is appended
   * when the filter text occurs in it; the others are skipped silently.
   * `pageText(url)` stands for fetching `url` and BeautifulSoup's `get_text()`.
   */
  method SitemapPages(locs: seq<string>, filter: string, pageText: string -> string) returns (pages: seq<Page>)
    ensures |pages| == |MatchingLocs(locs, filter)|
    ensures forall k :: 0 <= k < |pages| ==>
      pages[k].source == MatchingLocs(locs, filter)[k] &&
      pages[k].text == ExtractTextFrom(pages[k].source, pageText)
  {
    pages := [];
    for i := 0 to |locs|
      invariant |pages| == |MatchingLocs(locs[..i], filter)|
      invariant forall k :: 0 <= k < |pages| ==>
        pages[k].source == MatchingLocs(locs[..i], filter)[k] &&
        pages[k].text == ExtractTextFrom(pages[k].source, pageText)
    {
      var url := locs[i];
      MatchingLocsSnoc(locs, i, filter);
      if Contains(url, filter) {
        pages := pages + [Page(ExtractTextFrom(url, pageText), url)];
      }
    }
    assert locs[..|locs|] == locs;
  }

  /**
   * The Zendesk comprehension over `response.json().get('articles', [])`:
   * `None` is a response without an `articles` key. `bodyText(html)` stands
   * for BeautifulSoup's `get_text(separator=' ')` on an article body.
   */
  function ZendeskPages(articles: Option<seq<Article>>, bodyText: string -> string): (pages: seq<Page>)
    ensures articles.None? ==> pages == []
    ensures articles.Some? ==> |pages| == |articles.value|
    ensures articles.Some? ==> forall k :: 0 <= k < |pages| ==>
      pages[k].source == articles.value[k].htmlUrl &&
      pages[k].text == CollapseWhitespace(bodyText(articles.value[k].body)) &&
      IsCollapsed(pages[k].text)
  {
    var list := match articles case None => [] case Some(a) => a;
    seq(|list|, k requires 0 <= k < |list| => Page(CollapseWhitespace(bodyText(list[k].body)), list[k].htmlUrl))
  }

  /** Every Zendesk page keeps the words of its article's extracted body text, in order. */
  lemma ZendeskPagesKeepWords(articles: seq<Article>, bodyText: string -> string, k: nat)
    requires k < |articles|
    ensures var pages := ZendeskPages(Some(articles), bodyText);
      k < |pages| && Split(pages[k].text) == Split(bodyText(articles[k].body))
  {
    CollapseKeepsWords(bodyText(articles[k].body));
  }

  /**
   * A Zendesk page's text holds no `'\n'`: the collapse turns every line
   * break into a space, so the splitter's `"\n"` separator never occurs in it.
   */
  lemma ZendeskPagesHaveNoNewline(articles: Option<seq<Article>>, bodyText: string -> string, k: nat)
    requires k < |ZendeskPages(articles, bodyText)|
    ensures '\n' !in ZendeskPages(articles, bodyText)[k].text
  {
  }
}
