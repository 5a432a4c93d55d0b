/**
 * The page record `BunnyTab` of src/modules/bunny_tab.mjs: an id, a title and a
 * url whose named anchor (`#fragment`) is stripped once, at construction.
 */
module BunnyTabs {

  /** What the `id` slot can hold: a browser tab id, or text (the tree passes a title there). */
  datatype TabId = TabNumber(n: int) | TabText(s: string)

  /** The three private fields `#id`, `#title` and `#url`, read back by the three getters. */
  datatype BunnyTab = BunnyTab(id: TabId, title: string, url: string)

  /**
   * `url.split("#")[0]`: the text before the first '#', or all of it when
   * there is none. The three clauses determine the result.
   */
  function StripFragment(url: string): (r: string)
    ensures r <= url
    ensures '#' !in r
    ensures |r| == |url| || url[|r|] == '#'
  {
    if url == [] || url[0] == '#' then [] else [url[0]] + StripFragment(url[1..])
  }

  /** A url with no anchor is left as it is. */
  lemma StripFragmentKeepsPlainUrl(url: string)
    requires '#' !in url
    ensures StripFragment(url) == url
  {
  }

  /** Normalising twice is normalising once. */
  lemma StripFragmentIdempotent(url: string)
    ensures StripFragment(StripFragment(url)) == StripFragment(url)
  {
    StripFragmentKeepsPlainUrl(StripFragment(url));
  }

  /** `new BunnyTab(id, title, url)`: id and title verbatim, the url without its anchor. */
  function NewTab(id: TabId, title: string, url: string): (t: BunnyTab)
    ensures t.id == id && t.title == title
    ensures t.url <= url && '#' !in t.url
    ensures |t.url| == |url| || url[|t.url|] == '#'
  {
    BunnyTab(id, title, StripFragment(url))
  }

  /**
   * The `values` setter: title and url are replaced verbatim (no anchor
   * stripping), the id is kept. No caller updates a tab that another holder
   * shares, so the update is modelled on values.
   */
  function WithValues(t: BunnyTab, title: string, url: string): (r: BunnyTab)
    ensures r.id == t.id && r.title == title && r.url == url
  {
    t.(title := title, url := url)
  }

  /** The setter bypasses normalisation: it can store an anchor that the constructor never would. */
  lemma SetterKeepsAnchor(t: BunnyTab)
    ensures '#' in WithValues(t, t.title, "page#top").url
    ensures '#' !in NewTab(t.id, t.title, "page#top").url
  {
  }
}
