/**
 * The `__main__` block of create_embeddings_zendesk.py with the network and
 * the vector store taken out: one page per Zendesk article, then every
 * page's splits accumulated with their source tags. Its `clean_html` and its
 * page comprehension are the same code as in create_embeddings.py and are
 * modelled once, by `Normalize.CollapseWhitespace` and `Enumerate.ZendeskPages`.
 */
module CreateEmbeddingsZendesk {
  import opened Enumerate
  import opened Corpus

  /**
   * `articles` is the response's `articles` array (`None` when the key is
   * absent), `bodyText` stands for BeautifulSoup's `get_text(separator=' ')`
   * and `split` for `text_splitter.split_text`.
   */
  method Run(articles: Option<seq<Article>>, bodyText: string -> string, split: string -> seq<string>)
    returns (pages: seq<Page>, docs: seq<string>, metadatas: seq<Metadata>)
    ensures pages == ZendeskPages(articles, bodyText)
    ensures |docs| == |metadatas| == SplitCount(pages, split)
    ensures docs == Chunks(pages, split) && metadatas == Provenance(pages, split)
    ensures articles.None? ==> docs == [] && metadatas == []
    ensures forall i :: 0 <= i < |metadatas| ==>
      articles.Some? && exists k :: 0 <= k < |articles.value| && metadatas[i].source == articles.value[k].htmlUrl
  {
    pages := ZendeskPages(articles, bodyText);
    docs, metadatas := BuildCorpus(pages, split);
    ZendeskProvenance(articles, bodyText, split);
  }
}
