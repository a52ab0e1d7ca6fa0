/**
 * The `__main__` block of create_embeddings.py with the network, the parsers
 * and the vector store taken out: the chosen mode enumerates the pages, then
 * every page's splits are accumulated with their source tags.
 */
module CreateEmbeddings {
  import opened PyStr
  import opened Enumerate
  import opened Corpus

  /**
   * The `--mode` choice with what its branch reads once fetched and parsed:
   * the `loc` of each `<url>` of the sitemap with the `--filter` text, or the
   * Zendesk API response's `articles` (`None` when the key is absent).
   */
  datatype Source =
    | Sitemap(locs: seq<string>, filter: string)
    | Zendesk(articles: Option<seq<Article>>)

  /**
   * Enumerate the pages of `source`, then build the corpus. `pageText` and
   * `bodyText` stand for fetching plus BeautifulSoup's `get_text`, `split`
   * for `text_splitter.split_text`.
   */
  method Run(source: Source, pageText: string -> string, bodyText: string -> string, split: string -> seq<string>)
    returns (pages: seq<Page>, docs: seq<string>, metadatas: seq<Metadata>)
    ensures source.Sitemap? ==>
      |pages| == |MatchingLocs(source.locs, source.filter)| &&
      forall k :: 0 <= k < |pages| ==>
        pages[k].source == MatchingLocs(source.locs, source.filter)[k] &&
        pages[k].text == ExtractTextFrom(pages[k].source, pageText)
    ensures source.Zendesk? ==> pages == ZendeskPages(source.articles, bodyText)
    ensures |docs| == |metadatas| == SplitCount(pages, split)
    ensures docs == Chunks(pages, split) && metadatas == Provenance(pages, split)
    ensures source.Sitemap? ==> forall i :: 0 <= i < |metadatas| ==>
      metadatas[i].source in source.locs && Contains(metadatas[i].source, source.filter)
    ensures source.Zendesk? ==> forall i :: 0 <= i < |metadatas| ==>
      source.articles.Some? &&
      exists k :: 0 <= k < |source.articles.value| && metadatas[i].source == source.articles.value[k].htmlUrl
  {
    match source {
      case Sitemap(locs, filter) =>
        pages := SitemapPages(locs, filter, pageText);
      case Zendesk(articles) =>
        pages := ZendeskPages(articles, bodyText);
    }
    docs, metadatas := BuildCorpus(pages, split);
    match source {
      case Sitemap(locs, filter) =>
        SitemapProvenance(locs, filter, pages, split);
      case Zendesk(articles) =>
        ZendeskProvenance(articles, bodyText, split);
    }
  }
}
