/** Two concrete enumeration scenarios. */
module Scenarios {
  import opened PyStr
  import opened Enumerate
  import opened Corpus

  /** Three sitemap entries, two of which contain the filter text: two pages, in sitemap order. */
  lemma SitemapTwoOfThree()
    ensures MatchingLocs(["b/p/1", "b/a", "b/p/2"], "/p/") == ["b/p/1", "b/p/2"]
  {
    assert Contains("b/p/1", "/p/") by {
      assert "/p/" <= "b/p/1"[1..];
    }
    assert Contains("b/p/2", "/p/") by {
      assert "/p/" <= "b/p/2"[1..];
    }
    var s := "b/a";
    assert !Contains(s, "/p/") by {
      assert s[0] == 'b' && s[1..] == "/a" && s[2..] == "a" && s[3..] == [];
      assert !Contains(s[3..], "/p/");
      assert !Contains(s[2..], "/p/");
      assert !Contains(s[1..], "/p/");
    }
  }

  /** A Zendesk response with an empty or missing `articles` array gives no page and an empty corpus. */
  lemma NoArticlesEmptyCorpus(articles: Option<seq<Article>>, bodyText: string -> string, split: string -> seq<string>)
    requires articles == None || articles == Some([])
    ensures ZendeskPages(articles, bodyText) == []
    ensures Chunks(ZendeskPages(articles, bodyText), split) == []
    ensures Provenance(ZendeskPages(articles, bodyText), split) == []
  {
  }
}
