/**
 * The corpus the scripts hand to the vector store: two parallel lists,
 * `docs` (chunk texts) and `metadatas` (one `{"source": ...}` per chunk),
 * grown page by page with `extend`. The text splitter is a library object
 * whose policy is not visible here, so `split` stands for
 * `text_splitter.split_text` and is left uninterpreted.
 */
module Corpus {
  import opened PyStr
  import opened Enumerate

  /** The metadata dictionary `{"source": page['source']}`. */
  datatype Metadata = Metadata(source: string)

  /** `[{"source": page['source']}] * n` */
  function Tags(page: Page, n: nat): (r: seq<Metadata>)
    ensures |r| == n && forall i :: 0 <= i < n ==> r[i] == Metadata(page.source)
  {
    seq(n, _ => Metadata(page.source))
  }

  /** `docs` once the pages are processed: every page's splits, in page order. */
  function Chunks(pages: seq<Page>, split: string -> seq<string>): seq<string>
  {
    if pages == [] then []
    else Chunks(pages[..|pages| - 1], split) + split(pages[|pages| - 1].text)
  }

  /** `metadatas` once the pages are processed: one tag per split, naming its page. */
  function Provenance(pages: seq<Page>, split: string -> seq<string>): seq<Metadata>
  {
    if pages == [] then []
    else
      var last := pages[|pages| - 1];
      Provenance(pages[..|pages| - 1], split) + Tags(last, |split(last.text)|)
  }

  /** The total number of splits over the pages. */
  function SplitCount(pages: seq<Page>, split: string -> seq<string>): nat
  {
    if pages == [] then 0
    else SplitCount(pages[..|pages| - 1], split) + |split(pages[|pages| - 1].text)|
  }

  /** The two lists are equally long: as many chunks, as many tags, as there are splits. */
  lemma {:induction false} CorpusAligned(pages: seq<Page>, split: string -> seq<string>)
    ensures |Chunks(pages, split)| == |Provenance(pages, split)| == SplitCount(pages, split)
  {
    if pages != [] {
      CorpusAligned(pages[..|pages| - 1], split);
    }
  }

  /** Dropping the last page of `a + b`, for non-empty `b`, drops the last page of `b`. */
  lemma DropLast(a: seq<Page>, b: seq<Page>)
    requires b != []
    ensures (a + b)[..|a + b| - 1] == a + b[..|b| - 1]
    ensures (a + b)[|a + b| - 1] == b[|b| - 1]
  {
  }

  /** Processing `a + b` gives the chunks of `a` followed by the chunks of `b`. */
  lemma {:induction false} ChunksAppend(a: seq<Page>, b: seq<Page>, split: string -> seq<string>)
    ensures Chunks(a + b, split) == Chunks(a, split) + Chunks(b, split)
    decreases |b|
  {
    if b == [] {
      assert a + b == a;
    } else {
      var b', last := b[..|b| - 1], b[|b| - 1];
      DropLast(a, b);
      ChunksAppend(a, b', split);
      assert Chunks(a + b, split) == Chunks(a + b', split) + split(last.text);
      assert Chunks(b, split) == Chunks(b', split) + split(last.text);
    }
  }

  /** Processing `a + b` gives the tags of `a` followed by the tags of `b`. */
  lemma {:induction false} ProvenanceAppend(a: seq<Page>, b: seq<Page>, split: string -> seq<string>)
    ensures Provenance(a + b, split) == Provenance(a, split) + Provenance(b, split)
    decreases |b|
  {
    if b == [] {
      assert a + b == a;
    } else {
      var b', last := b[..|b| - 1], b[|b| - 1];
      DropLast(a, b);
      ProvenanceAppend(a, b', split);
      var tags := Tags(last, |split(last.text)|);
      assert Provenance(a + b, split) == Provenance(a + b', split) + tags;
      assert Provenance(b, split) == Provenance(b', split) + tags;
    }
  }

  /** A page that the splitter turns into no chunk leaves both lists as they were. */
  lemma ZeroSplitsAddNothing(a: seq<Page>, page: Page, b: seq<Page>, split: string -> seq<string>)
    requires split(page.text) == []
    ensures Chunks(a + [page] + b, split) == Chunks(a + b, split)
    ensures Provenance(a + [page] + b, split) == Provenance(a + b, split)
  {
    NoChunks(page, split);
    ChunksAppend(a + [page], b, split);
    ChunksAppend(a, [page], split);
    ChunksAppend(a, b, split);
    assert Chunks(a + [page], split) == Chunks(a, split);
    ProvenanceAppend(a + [page], b, split);
    ProvenanceAppend(a, [page], split);
    ProvenanceAppend(a, b, split);
    assert Provenance(a + [page], split) == Provenance(a, split);
  }

  /** A lone page with no splits yields no chunk and no tag. */
  lemma NoChunks(page: Page, split: string -> seq<string>)
    requires split(page.text) == []
    ensures Chunks([page], split) == [] && Provenance([page], split) == []
  {
    assert [page][..0] == [];
  }

  /**
   * Chunk `j` of page `k` sits at position (splits of the earlier pages) + `j`
   * of `docs`, and the metadata at that position names page `k`'s source.
   */
  lemma {:induction false} ChunkPlacement(pages: seq<Page>, split: string -> seq<string>, k: nat, j: nat)
    requires k < |pages| && j < |split(pages[k].text)|
    ensures var i := SplitCount(pages[..k], split) + j;
      i < |Chunks(pages, split)| && i < |Provenance(pages, split)| &&
      Chunks(pages, split)[i] == split(pages[k].text)[j] &&
      Provenance(pages, split)[i] == Metadata(pages[k].source)
  {
    var before, after := pages[..k], pages[k + 1..];
    assert pages == before + [pages[k]] + after;
    ChunksAppend(before + [pages[k]], after, split);
    ChunksAppend(before, [pages[k]], split);
    ProvenanceAppend(before + [pages[k]], after, split);
    ProvenanceAppend(before, [pages[k]], split);
    CorpusAligned(before, split);
    assert [pages[k]][..0] == [];
  }

  /** The page and split that position `i` of `docs` comes from. */
  lemma {:induction false} Locate(pages: seq<Page>, split: string -> seq<string>, i: nat) returns (k: nat, j: nat)
    requires i < |Chunks(pages, split)|
    ensures k < |pages| && j < |split(pages[k].text)| && i == SplitCount(pages[..k], split) + j
    decreases |pages|
  {
    var init := pages[..|pages| - 1];
    CorpusAligned(init, split);
    if i < |Chunks(init, split)| {
      k, j := Locate(init, split, i);
      assert init[..k] == pages[..k] && init[k] == pages[k];
    } else {
      k, j := |pages| - 1, i - |Chunks(init, split)|;
      assert pages[..k] == init;
    }
  }

  /**
   * Every position of `docs` comes from one page and one of its splits, and
   * the metadata at that position names that page's source.
   */
  lemma ChunkOrigin(pages: seq<Page>, split: string -> seq<string>, i: nat)
    requires i < |Chunks(pages, split)|
    ensures i < |Provenance(pages, split)|
    ensures exists k, j ::
              && 0 <= k < |pages| && 0 <= j < |split(pages[k].text)|
              && i == SplitCount(pages[..k], split) + j
              && Chunks(pages, split)[i] == split(pages[k].text)[j]
              && Provenance(pages, split)[i] == Metadata(pages[k].source)
  {
    var k, j := Locate(pages, split, i);
    ChunkPlacement(pages, split, k, j);
  }

  /** The page whose source the tag at position `i` of `metadatas` names. */
  lemma TagOrigin(pages: seq<Page>, split: string -> seq<string>, i: nat) returns (k: nat)
    requires i < |Provenance(pages, split)|
    ensures k < |pages| && Provenance(pages, split)[i].source == pages[k].source
  {
    CorpusAligned(pages, split);
    var j;
    k, j := Locate(pages, split, i);
    ChunkPlacement(pages, split, k, j);
  }

  /** In sitemap mode every tag is a sitemap `loc` that contains the filter text. */
  lemma SitemapProvenance(locs: seq<string>, filter: string, pages: seq<Page>, split: string -> seq<string>)
    requires |pages| == |MatchingLocs(locs, filter)|
    requires forall k :: 0 <= k < |pages| ==> pages[k].source == MatchingLocs(locs, filter)[k]
    ensures forall i :: 0 <= i < |Provenance(pages, split)| ==>
      Provenance(pages, split)[i].source in locs && Contains(Provenance(pages, split)[i].source, filter)
  {
    MatchingLocsMember(locs, filter);
    forall i | 0 <= i < |Provenance(pages, split)|
      ensures Provenance(pages, split)[i].source in MatchingLocs(locs, filter)
    {
      var k := TagOrigin(pages, split, i);
    }
  }

  /** In Zendesk mode every tag is the `html_url` of some article of the response. */
  lemma ZendeskProvenance(articles: Option<seq<Article>>, bodyText: string -> string, split: string -> seq<string>)
    ensures var tags := Provenance(ZendeskPages(articles, bodyText), split);
      forall i :: 0 <= i < |tags| ==>
        articles.Some? && exists k :: 0 <= k < |articles.value| && tags[i].source == articles.value[k].htmlUrl
  {
    var pages := ZendeskPages(articles, bodyText);
    var tags := Provenance(pages, split);
    forall i | 0 <= i < |tags|
      ensures articles.Some? && exists k :: 0 <= k < |articles.value| && tags[i].source == articles.value[k].htmlUrl
    {
      var k := TagOrigin(pages, split, i);
      assert articles.Some? && pages[k].source == articles.value[k].htmlUrl;
    }
  }

  /**
   * The accumulation loop: for each page, its splits are appended to `docs`
   * and as many copies of its source tag to `metadatas`; the two lists stay
   * equally long after every page.
   */
  method BuildCorpus(pages: seq<Page>, split: string -> seq<string>) returns (docs: seq<string>, metadatas: seq<Metadata>)
    ensures |docs| == |metadatas| == SplitCount(pages, split)
    ensures docs == Chunks(pages, split) && metadatas == Provenance(pages, split)
  {
    docs, metadatas := [], [];
    for i := 0 to |pages|
      invariant |docs| == |metadatas| == SplitCount(pages[..i], split)
      invariant docs == Chunks(pages[..i], split) && metadatas == Provenance(pages[..i], split)
    {
      var page := pages[i];
      var splits := split(page.text);
      docs := docs + splits;
      metadatas := metadatas + Tags(page, |splits|);
      assert pages[..i + 1][..i] == pages[..i];
    }
    assert pages[..|pages|] == pages;
  }
}
