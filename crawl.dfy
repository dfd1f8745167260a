/** The link-filtering part of `crawl`: from the links found in each HTML
    file to a closed link graph. Listing the directory, reading the files and
    extracting the `href` targets are not modelled; their result is `raw`. */
module Crawl {
  import opened LinkGraph

  /** The links of file `f` once its link to itself is dropped. */
  function Unlooped(raw: Corpus, f: Page): set<Page>
    requires f in raw.links
  {
    raw.links[f] - {f}
  }

  /** The links of file `f` that survive both loops. */
  function Kept(raw: Corpus, f: Page): set<Page>
    requires f in raw.links
  {
    Unlooped(raw, f) * raw.links.Keys
  }

  /** The first loop (lines 35-41): as each file is read, its entry is its
      set of links without the link to itself. */
  method DropSelfLinks(raw: Corpus) returns (dict: map<Page, set<Page>>)
    requires raw.Valid()
    ensures dict.Keys == raw.links.Keys
    ensures forall f :: f in dict ==> dict[f] == Unlooped(raw, f)
  {
    dict := map[];
    var i := 0;
    while i < |raw.keys|
      invariant 0 <= i <= |raw.keys|
      invariant dict.Keys == Elems(raw.keys[..i])
      invariant forall f :: f in dict ==> dict[f] == Unlooped(raw, f)
    {
      var filename := raw.keys[i];
      dict := dict[filename := raw.links[filename] - {filename}];
      assert raw.keys[..i + 1] == raw.keys[..i] + [filename];
      i := i + 1;
    }
    assert raw.keys[..i] == raw.keys;
  }

  /** The comprehension at lines 45-48 keeps the links that are keys. */
  lemma KeepKeys(links: set<Page>, dict: map<Page, set<Page>>)
    ensures (set link | link in links && link in dict) == links * dict.Keys
  {
  }

  /** Every entry of `dict` has had its self-link dropped, and possibly also
      its links outside the corpus. */
  predicate Filtering(raw: Corpus, dict: map<Page, set<Page>>)
    requires dict.Keys == raw.links.Keys
  {
    forall f :: f in dict ==> dict[f] == Kept(raw, f) || dict[f] == Unlooped(raw, f)
  }

  /** One pass of the second loop (lines 45-48): the entry of `filename`
      keeps only the links that are keys; the other entries stay. */
  method KeepOne(raw: Corpus, dict: map<Page, set<Page>>, filename: Page)
    returns (next: map<Page, set<Page>>)
    requires dict.Keys == raw.links.Keys && filename in dict
    requires Filtering(raw, dict)
    ensures next.Keys == raw.links.Keys && Filtering(raw, next)
    ensures next[filename] == Kept(raw, filename)
    ensures forall f :: f in next && f != filename ==> next[f] == dict[f]
  {
    KeepKeys(dict[filename], dict);
    next := dict[filename := set link | link in dict[filename] && link in dict];
  }

  /** The second loop (lines 44-48): each entry, in key order, keeps only the
      links to files of the corpus. */
  method KeepCorpusLinks(raw: Corpus, unlooped: map<Page, set<Page>>) returns (dict: map<Page, set<Page>>)
    requires raw.Valid() && unlooped.Keys == raw.links.Keys
    requires forall f :: f in unlooped ==> unlooped[f] == Unlooped(raw, f)
    ensures dict.Keys == raw.links.Keys
    ensures forall f :: f in dict ==> dict[f] == Kept(raw, f)
  {
    dict := unlooped;
    var i := 0;
    while i < |raw.keys|
      invariant 0 <= i <= |raw.keys|
      invariant dict.Keys == raw.links.Keys && Filtering(raw, dict)
      invariant forall j :: 0 <= j < i ==> dict[raw.keys[j]] == Kept(raw, raw.keys[j])
    {
      var filename := raw.keys[i];
      dict := KeepOne(raw, dict, filename);
      i := i + 1;
    }
    forall f | f in dict
      ensures dict[f] == Kept(raw, f)
    {
      assert f in Elems(raw.keys);
      var j :| 0 <= j < |raw.keys| && raw.keys[j] == f;
    }
  }

  /** `raw.keys` are the HTML file names in directory-listing order and
      `raw.links[f]` is the set of link targets extracted from file `f`.
      A link survives when it is not the file's own name and names a file of
      the corpus; the result is a closed link graph over the same files. */
  method FilterLinks(raw: Corpus) returns (pages: Corpus)
    requires raw.Valid()
    ensures pages.keys == raw.keys && pages.links.Keys == raw.links.Keys
    ensures forall f, l :: f in pages.links ==>
              (l in pages.links[f] <==> l in raw.links[f] && l != f && l in raw.links)
    ensures pages.Valid() && pages.Closed()
  {
    var unlooped := DropSelfLinks(raw);
    var dict := KeepCorpusLinks(raw, unlooped);
    pages := Corpus(raw.keys, dict);
  }
}
