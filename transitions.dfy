/** `transition_model`: where a random surfer on `page` goes next. */
module Transitions {
  import opened LinkGraph

  /** The probability `transition_model` gives to moving from `page` to `target`.
      M is the number of pages and N the number of links of `page`, taken as
      1 when there are none. Every page gets (1-d)/M and every linked page d/N
      on top. The branch meant for a page without links is never taken (see
      TransitionModel), so such a page gives every target (1-d)/M. */
  function TransitionWeight(c: Corpus, page: Page, d: real, target: Page): (w: real)
    requires page in c.links
    ensures 0.0 <= d <= 1.0 ==> w >= 0.0
  {
    var links := c.links[page];
    var n := if |links| == 0 then 1 else |links|;
    var m := |c.links|;
    var probAll := (1.0 - d) * 1.0 / m as real;
    var probLinks := probAll + d / n as real;
    if target in links then probLinks else probAll
  }

  /** The distribution `transition_model` returns: an entry for every page. */
  function Transition(c: Corpus, page: Page, d: real): (r: map<Page, real>)
    requires page in c.links
    ensures r.Keys == c.links.Keys
  {
    map i | i in c.links :: TransitionWeight(c, page, d, i)
  }

  /** Lines 53-82: computes the two probabilities and fills the result page by
      page. The source tests `links == {}` before the loop; `{}` is an empty
      dict and `links` a set, so the test is false for every page and only
      the loop runs. */
  method TransitionModel(c: Corpus, page: Page, d: real) returns (res: map<Page, real>)
    requires page in c.links
    ensures res.Keys == c.links.Keys
    ensures forall i :: i in res ==> res[i] == TransitionWeight(c, page, d, i)
  {
    var links := c.links[page];
    var n := |links|;
    if n == 0 {
      n := 1;
    }
    var m := |c.links|;
    var probAll := (1.0 - d) * 1.0 / m as real;
    var probLinks := probAll + d / n as real;
    res := FillTwoValued(c.links.Keys, links, probLinks, probAll);
  }

  /** The loop of `transition_model` (lines 77-81): every page of `pages` gets
      `a` when it is in `s` and `b` otherwise, filled in the iteration order
      of the set. */
  method FillTwoValued(pages: set<Page>, s: set<Page>, a: real, b: real) returns (res: map<Page, real>)
    ensures res.Keys == pages
    ensures forall i :: i in res ==> res[i] == if i in s then a else b
  {
    res := map[];
    var remaining := pages;
    while remaining != {}
      invariant remaining <= pages
      invariant res.Keys == pages - remaining
      invariant forall i :: i in res ==> res[i] == if i in s then a else b
      decreases remaining
    {
      var i :| i in remaining;
      if i in s {
        res := res[i := a];
      } else {
        res := res[i := b];
      }
      remaining := remaining - {i};
    }
  }

  /** A table over `keys` that holds (1-d)/m + d/n on the `count` keys in `s`
      and (1-d)/m on the others totals 1 when count = n and 1-d when count = 0. */
  lemma TwoValuedTotal(keys: seq<Page>, r: map<Page, real>, s: set<Page>, probLinks: real, probAll: real, n: nat, d: real)
    requires |keys| > 0 && n > 0
    requires probAll == (1.0 - d) * 1.0 / |keys| as real && probLinks == probAll + d / n as real
    requires forall k :: k in keys ==> k in r && r[k] == (if k in s then probLinks else probAll)
    ensures CountIn(keys, s) == n ==> Total(keys, r) == 1.0
    ensures CountIn(keys, s) == 0 ==> Total(keys, r) == 1.0 - d
  {
    TotalTwoValued(keys, r, s, probLinks, probAll);
    var k := CountIn(keys, s);
    if k == n {
      MixedTotal(|keys|, n, d, probAll, probLinks);
    } else if k == 0 {
      UniformTotal(|keys|, d, probAll);
    }
  }

  /** M shares of (1-d)/M make 1-d. */
  lemma UniformTotal(m: nat, d: real, probAll: real)
    requires m > 0 && probAll == (1.0 - d) * 1.0 / m as real
    ensures Repeat(0, probAll) + Repeat(m, probAll) == 1.0 - d
  {
    RepeatIsProduct(m, probAll);
  }

  /** N pages at (1-d)/M + d/N and M-N pages at (1-d)/M make 1. */
  lemma MixedTotal(m: nat, n: nat, d: real, probAll: real, probLinks: real)
    requires m > 0 && n > 0
    requires probAll == (1.0 - d) * 1.0 / m as real && probLinks == probAll + d / n as real
    requires n <= m
    ensures Repeat(n, probLinks) + Repeat(m - n, probAll) == 1.0
  {
    RepeatIsProduct(n, probLinks);
    RepeatIsProduct(m - n, probAll);
    RepeatIsProduct(m, probAll);
    UniformTotal(m, d, probAll);
    assert n as real * (d / n as real) == d;
    assert n as real * probLinks == n as real * probAll + d;
  }

  /** With d > 0 a linked page is strictly likelier than a page not linked. */
  lemma LinkedOutweighsUnlinked(c: Corpus, page: Page, d: real, i: Page, j: Page)
    requires page in c.links && d > 0.0
    requires i in c.links[page] && j !in c.links[page]
    ensures TransitionWeight(c, page, d, i) > TransitionWeight(c, page, d, j)
  {
    var n := |c.links[page]|;
    assert n > 0;
    assert d / n as real > 0.0;
  }

  /** For 0 <= d <= 1 no entry of the distribution is negative. */
  lemma TransitionNonNegative(c: Corpus, page: Page, d: real)
    requires page in c.links && 0.0 <= d <= 1.0
    ensures NonNegative(Transition(c, page, d))
  {
  }

  /** For a page with links inside the corpus the distribution sums to 1. */
  lemma TransitionSumsToOne(c: Corpus, page: Page, d: real)
    requires c.Valid() && page in c.links
    requires c.links[page] != {} && c.links[page] <= c.links.Keys
    ensures Total(c.keys, Transition(c, page, d)) == 1.0
  {
    var links := c.links[page];
    var r := Transition(c, page, d);
    var probAll := (1.0 - d) * 1.0 / |c.links| as real;
    var probLinks := probAll + d / |links| as real;
    CountInCard(c.keys, links);
    assert links * Elems(c.keys) == links;
    KeyCount(c);
    TwoValuedTotal(c.keys, r, links, probLinks, probAll, |links|, d);
  }

  /** A page without links gives every page exactly (1-d)/M, so the weights
      are uniform but total 1-d; only for d = 0 is this the 1/M distribution. */
  lemma DanglingTransition(c: Corpus, page: Page, d: real)
    requires c.Valid() && page in c.links && c.links[page] == {}
    ensures forall i :: i in c.links ==> Transition(c, page, d)[i] == (1.0 - d) / |c.links| as real
    ensures Total(c.keys, Transition(c, page, d)) == 1.0 - d
    ensures forall i :: i in c.links ==> (Transition(c, page, d)[i] == 1.0 / |c.links| as real <==> d == 0.0)
  {
    var r := Transition(c, page, d);
    var probAll := (1.0 - d) * 1.0 / |c.links| as real;
    var probLinks := probAll + d / 1 as real;
    KeyCount(c);
    assert CountIn(c.keys, {}) == 0 by {
        CountInCard(c.keys, {});
    }
    TwoValuedTotal(c.keys, r, {}, probLinks, probAll, 1, d);
    UniformOnlyWithoutDamping(|c.links| as real, d);
  }

  lemma UniformOnlyWithoutDamping(m: real, d: real)
    requires m > 0.0
    ensures (1.0 - d) * 1.0 / m == 1.0 / m <==> d == 0.0
  {
    var probAll := (1.0 - d) * 1.0 / m;
    assert probAll * m == 1.0 - d;
    if probAll == 1.0 / m {
      assert probAll * m == 1.0;
    }
  }
}
