/** `sample_pagerank`: the Monte-Carlo estimator. The random start page and
    the random draws of the next page are inputs: `walk` is the start page
    followed by the n-1 pages drawn. */
module Sampling {
  import opened LinkGraph
  import opened Transitions

  /** What the weights `transition_model` gives for `page` add up to; the
      draw from them raises ValueError unless this is positive (Python 3.9
      and later). */
  function WeightTotal(c: Corpus, page: Page, d: real): real
    requires c.Valid() && page in c.links
  {
    Total(c.keys, Transition(c, page, d))
  }

  /** In a crawled corpus the weights total 1 for a page with links and 1-d
      for a page without. */
  lemma WeightTotalClosed(c: Corpus, page: Page, d: real)
    requires c.Valid() && c.Closed() && page in c.links
    ensures WeightTotal(c, page, d) == if c.links[page] == {} then 1.0 - d else 1.0
  {
    if c.links[page] == {} {
      DanglingTransition(c, page, d);
    } else {
      TransitionSumsToOne(c, page, d);
    }
  }

  /** A page the surfer cannot leave: it has no links and d >= 1, so no
      page gets a positive weight. */
  predicate DeadEnd(c: Corpus, d: real, page: Page)
    requires page in c.links
  {
    c.links[page] == {} && d >= 1.0
  }

  /** In a crawled corpus the dead ends are exactly the pages whose weights
      do not total more than zero. */
  lemma DeadEndIffNoWeight(c: Corpus, d: real, page: Page)
    requires c.Valid() && c.Closed() && page in c.links
    ensures DeadEnd(c, d, page) <==> WeightTotal(c, page, d) <= 0.0
  {
    WeightTotalClosed(c, page, d);
  }

  /** The pages of a sequence all belong to the corpus. */
  predicate InCorpus(c: Corpus, walk: seq<Page>) {
    forall i :: 0 <= i < |walk| ==> walk[i] in c.links
  }

  /** `next` has positive weight among the choices from `page`: for
      0 <= d <= 1 these are the linked pages and, when d < 1, every page. */
  predicate Weighted(c: Corpus, d: real, page: Page, next: Page)
    requires page in c.links
  {
    next in c.links[page] || d < 1.0
  }

  /** For 0 <= d <= 1 the weighted pages are exactly those of positive weight. */
  lemma WeightedIffPositive(c: Corpus, d: real, page: Page, next: Page)
    requires page in c.links && 0.0 <= d <= 1.0
    ensures Weighted(c, d, page, next) <==> TransitionWeight(c, page, d, next) > 0.0
  {
    var links := c.links[page];
    var n := if |links| == 0 then 1 else |links|;
    var m := |c.links|;
    assert m > 0;
    assert (1.0 - d) * 1.0 / m as real > 0.0 <==> d < 1.0;
    assert d / n as real >= 0.0;
    if next in links {
      assert d / n as real > 0.0 || d < 1.0;
    }
  }

  /** `random.choices` can go from `page` to `next`: from a page that is not
      a dead end it returns only pages of positive weight. */
  predicate Drawable(c: Corpus, d: real, page: Page, next: Page)
    requires page in c.links
  {
    !DeadEnd(c, d, page) ==> Weighted(c, d, page, next)
  }

  /** A walk the random choices can produce: it starts on a corpus page and
      every later page is drawable from the one before. */
  predicate IsWalk(c: Corpus, d: real, walk: seq<Page>) {
    && |walk| >= 1
    && InCorpus(c, walk)
    && (forall i {:trigger Drawable(c, d, walk[i], walk[i + 1])} :: 0 <= i < |walk| - 1 ==>
          Drawable(c, d, walk[i], walk[i + 1]))
  }

  /** One of the first `k` pages of the walk is a dead end. */
  predicate StuckWithin(c: Corpus, d: real, walk: seq<Page>, k: nat)
    requires InCorpus(c, walk) && k <= |walk|
  {
    exists i {:trigger DeadEnd(c, d, walk[i])} :: 0 <= i < k && DeadEnd(c, d, walk[i])
  }

  /** Some draw of the walk raises ValueError: a draw is made from every page
      but the last. */
  predicate Stuck(c: Corpus, d: real, walk: seq<Page>)
    requires InCorpus(c, walk) && |walk| >= 1
  {
    StuckWithin(c, d, walk, |walk| - 1)
  }

  /** A walk is stuck exactly when one of the pages it draws from has weights
      that do not total more than zero. */
  lemma StuckIffNoWeight(c: Corpus, d: real, walk: seq<Page>)
    requires c.Valid() && c.Closed() && InCorpus(c, walk) && |walk| >= 1
    ensures Stuck(c, d, walk) <==> exists i :: 0 <= i < |walk| - 1 && WeightTotal(c, walk[i], d) <= 0.0
  {
    forall i | 0 <= i < |walk| - 1 ensures DeadEnd(c, d, walk[i]) <==> WeightTotal(c, walk[i], d) <= 0.0 {
      DeadEndIffNoWeight(c, d, walk[i]);
    }
  }

  /** A draw from page i that fails makes the walk stuck. */
  lemma StuckAt(c: Corpus, d: real, walk: seq<Page>, i: nat)
    requires InCorpus(c, walk) && i < |walk| - 1 && DeadEnd(c, d, walk[i])
    ensures Stuck(c, d, walk)
  {
  }

  /** A draw from page i that succeeds extends the stretch without failure. */
  lemma NotStuckYet(c: Corpus, d: real, walk: seq<Page>, i: nat)
    requires InCorpus(c, walk) && i < |walk|
    requires !StuckWithin(c, d, walk, i) && !DeadEnd(c, d, walk[i])
    ensures !StuckWithin(c, d, walk, i + 1)
  {
  }

  /** How often the walk visits `p`. */
  function Visits(walk: seq<Page>, p: Page): nat {
    multiset(walk)[p]
  }

  /** A zero count for every page of the key set (lines 102-105), in the set's
      iteration order. */
  method ZeroCounts(keys: set<Page>) returns (dico: map<Page, real>)
    ensures dico.Keys == keys
    ensures forall p :: p in dico ==> dico[p] == 0.0
  {
    dico := map[];
    var remaining := keys;
    while remaining != {}
      invariant remaining <= keys
      invariant dico.Keys == keys - remaining
      invariant forall p :: p in dico ==> dico[p] == 0.0
      decreases remaining
    {
      var i :| i in remaining;
      dico := dico[i := 0.0];
      remaining := remaining - {i};
    }
  }

  /** The count table for the pages visited so far. */
  function VisitTable(c: Corpus, walk: seq<Page>): map<Page, real>
  {
    map p | p in c.links :: Visits(walk, p) as real
  }

  /** One more visit adds one to the count of the page visited. */
  lemma VisitTableStep(c: Corpus, walk: seq<Page>, x: Page)
    requires x in c.links
    ensures VisitTable(c, walk + [x]) == VisitTable(c, walk)[x := VisitTable(c, walk)[x] + 1.0]
  {
    assert multiset(walk + [x]) == multiset(walk) + multiset{x};
  }

  /** Counting one more page of a walk: the table of the first k pages with
      one added for page k is the table of the first k+1. */
  lemma VisitPrefixStep(c: Corpus, walk: seq<Page>, k: nat, counts: map<Page, real>, counts': map<Page, real>)
    requires k < |walk| && walk[k] in c.links && counts == VisitTable(c, walk[..k])
    requires counts' == counts[walk[k] := counts[walk[k]] + 1.0]
    ensures counts' == VisitTable(c, walk[..k + 1])
  {
    assert walk[..k + 1] == walk[..k] + [walk[k]];
    VisitTableStep(c, walk[..k], walk[k]);
  }

  /** A table of zeros is the count of no pages. */
  lemma NoVisits(c: Corpus, walk: seq<Page>, counts: map<Page, real>)
    requires counts.Keys == c.links.Keys && forall p :: p in counts ==> counts[p] == 0.0
    ensures counts == VisitTable(c, walk[..0])
  {
    assert walk[..0] == [];
  }

  /** The count of the whole prefix is the count of the walk. */
  lemma AllVisits(c: Corpus, walk: seq<Page>, counts: map<Page, real>)
    requires counts == VisitTable(c, walk[..|walk|])
    ensures counts == VisitTable(c, walk)
  {
    assert walk[..|walk|] == walk;
  }

  /** The counts of a walk over corpus pages add up to its length. */
  lemma {:induction false} VisitTableTotal(c: Corpus, walk: seq<Page>)
    requires c.Valid() && InCorpus(c, walk)
    ensures Total(c.keys, VisitTable(c, walk)) == |walk| as real
  {
    if walk == [] {
      var t := VisitTable(c, walk);
      TotalScale(c.keys, t, t, 0.0);
    } else {
      var w := walk[..|walk| - 1];
      var x := walk[|walk| - 1];
      assert walk == w + [x];
      VisitTableTotal(c, w);
      VisitTableStep(c, w, x);
      TotalIncrement(c.keys, VisitTable(c, w), x, 1.0);
    }
  }

  /** One step of the surfer (lines 109-112): the transition model of the
      current page and a draw from it. The page drawn, `drawn`, is an input;
      from Python 3.9 on, `random.choices` raises ValueError when the weights
      do not total more than zero, and otherwise returns a page of positive
      weight. Earlier versions return the last page instead of raising. */
  method Draw(c: Corpus, d: real, page: Page, drawn: Page) returns (r: Result<Page>)
    requires c.Valid() && c.Closed() && 0.0 <= d <= 1.0
    requires page in c.links && drawn in c.links && Drawable(c, d, page, drawn)
    ensures r.Err? <==> DeadEnd(c, d, page)
    ensures r.Err? ==> r.error == ValueError
    ensures r.Ok? ==> r.value == drawn
  {
    var transition := TransitionModel(c, page, d);
    TotalAgree(c.keys, transition, Transition(c, page, d));
    DeadEndIffNoWeight(c, d, page);
    WeightedIffPositive(c, d, page, drawn);
    var total := Total(c.keys, transition);
    if total <= 0.0 {
      return Err(ValueError);
    }
    assert transition[drawn] > 0.0;
    r := Ok(drawn);
  }

  /** One pass of the loop at lines 108-113: the draw from page i, then one
      more count for the page drawn. */
  method CountStep(c: Corpus, d: real, walk: seq<Page>, i: nat, dico: map<Page, real>)
    returns (r: Result<map<Page, real>>)
    requires c.Valid() && c.Closed() && 0.0 <= d <= 1.0 && IsWalk(c, d, walk)
    requires i < |walk| - 1 && dico == VisitTable(c, walk[..i + 1])
    ensures r.Err? <==> DeadEnd(c, d, walk[i])
    ensures r.Err? ==> r.error == ValueError
    ensures r.Ok? ==> r.value == VisitTable(c, walk[..i + 2])
  {
    var next := Draw(c, d, walk[i], walk[i + 1]);
    if next.Err? {
      return Err(next.error);
    }
    var page := next.value;
    var counted := dico[page := dico[page] + 1.0];
    VisitPrefixStep(c, walk, i + 1, dico, counted);
    r := Ok(counted);
  }

  /** Lines 102-107: a zero count for every page, then one for the start page. */
  method StartCounts(c: Corpus, walk: seq<Page>) returns (dico: map<Page, real>)
    requires |walk| >= 1 && InCorpus(c, walk)
    ensures dico == VisitTable(c, walk[..1])
  {
    dico := ZeroCounts(c.links.Keys);
    NoVisits(c, walk, dico);
    var counted := dico[walk[0] := dico[walk[0]] + 1.0];
    VisitPrefixStep(c, walk, 0, dico, counted);
    dico := counted;
  }

  /** The visit-count table (lines 102-113): zero for every page, then one
      count for the start page and one for each page drawn, or the ValueError
      of the first draw that fails. */
  method CountVisits(c: Corpus, d: real, walk: seq<Page>) returns (r: Result<map<Page, real>>)
    requires c.Valid() && c.Closed() && 0.0 <= d <= 1.0 && IsWalk(c, d, walk)
    ensures r.Err? <==> Stuck(c, d, walk)
    ensures r.Err? ==> r.error == ValueError
    ensures r.Ok? ==> r.value == VisitTable(c, walk)
  {
    var dico := StartCounts(c, walk);
    var i := 0;
    while i < |walk| - 1
      invariant 0 <= i <= |walk| - 1
      invariant dico == VisitTable(c, walk[..i + 1])
      invariant !StuckWithin(c, d, walk, i)
    {
      var step := CountStep(c, d, walk, i, dico);
      if step.Err? {
        StuckAt(c, d, walk, i);
        return Err(step.error);
      }
      NotStuckYet(c, d, walk, i);
      dico := step.value;
      i := i + 1;
    }
    AllVisits(c, walk, dico);
    r := Ok(dico);
  }

  /** Divides every count by n in place (lines 115-116). */
  method DivideCounts(counts: map<Page, real>, n: int) returns (dico: map<Page, real>)
    requires n != 0
    ensures dico.Keys == counts.Keys
    ensures forall p :: p in dico ==> dico[p] == counts[p] / n as real
  {
    dico := counts;
    var remaining := dico.Keys;
    while remaining != {}
      invariant remaining <= counts.Keys
      invariant dico.Keys == counts.Keys
      invariant forall p :: p in dico ==> dico[p] == if p in remaining then counts[p] else counts[p] / n as real
      decreases remaining
    {
      var j :| j in remaining;
      dico := dico[j := dico[j] / n as real];
      remaining := remaining - {j};
    }
  }

  /** Each page's share of the walk's visits. */
  function Shares(c: Corpus, walk: seq<Page>, n: int): (t: map<Page, real>)
    requires n != 0
    ensures t.Keys == c.links.Keys
  {
    map p | p in c.links :: Visits(walk, p) as real / n as real
  }

  /** Dividing the visit counts by n gives the shares. */
  lemma DividedVisits(c: Corpus, walk: seq<Page>, n: int, counts: map<Page, real>, shares: map<Page, real>)
    requires n != 0 && counts == VisitTable(c, walk) && shares.Keys == counts.Keys
    requires forall p :: p in shares ==> shares[p] == counts[p] / n as real
    ensures shares == Shares(c, walk, n)
  {
  }

  /** Over a walk of n corpus pages the shares lie in [0, 1] and add up to 1;
      a walk of one page gives that page everything. */
  lemma SharesDistribution(c: Corpus, walk: seq<Page>, n: nat)
    requires c.Valid() && n > 0 && |walk| == n && InCorpus(c, walk)
    ensures IsDistribution(c, Shares(c, walk, n))
    ensures n == 1 ==> Shares(c, walk, n) == map p | p in c.links :: if p == walk[0] then 1.0 else 0.0
  {
    var shares := Shares(c, walk, n);
    VisitTableTotal(c, walk);
    TotalDivide(c.keys, VisitTable(c, walk), shares, n as real);
    SelfQuotient(n as real);
    forall p | p in c.links ensures 0.0 <= shares[p] {
      QuotientNonNegative(Visits(walk, p) as real, n as real);
    }
    if n == 1 {
      forall p | p in c.links ensures shares[p] == if p == walk[0] then 1.0 else 0.0 {
        SingleVisit(walk, p);
      }
    }
  }

  /** Lines 93-120. The start page and the draws are the walk: for n > 0 its
      first n pages, for n <= 0 (no draws, as `range(n-1)` is empty) only the
      start page. An empty corpus makes the start-page choice raise
      IndexError, a failed draw raises ValueError, and n = 0 makes the final
      division raise ZeroDivisionError. A negative n divides by n. */
  method SamplePageRank(c: Corpus, d: real, n: int, walk: seq<Page>) returns (r: Result<map<Page, real>>)
    requires c.Valid() && c.Closed() && 0.0 <= d <= 1.0
    requires |c.links| > 0 ==> IsWalk(c, d, walk) && |walk| == if n <= 0 then 1 else n
    ensures |c.links| == 0 ==> r == Err(IndexError)
    ensures |c.links| > 0 && Stuck(c, d, walk) ==> r == Err(ValueError)
    ensures |c.links| > 0 && !Stuck(c, d, walk) && n == 0 ==> r == Err(ZeroDivisionError)
    ensures |c.links| > 0 && !Stuck(c, d, walk) && n != 0 ==> r == Ok(Shares(c, walk, n))
    ensures r.Ok? && n > 0 ==> IsDistribution(c, r.value)
    ensures r.Ok? && n == 1 ==> r.value == map p | p in c.links :: if p == walk[0] then 1.0 else 0.0
  {
    if |c.links| == 0 {
      return Err(IndexError);
    }
    var counted := CountVisits(c, d, walk);
    if counted.Err? {
      return Err(counted.error);
    }
    if n == 0 {
      return Err(ZeroDivisionError);
    }
    var dico := DivideCounts(counted.value, n);
    DividedVisits(c, walk, n, counted.value, dico);
    r := Ok(dico);
    if n > 0 {
      SharesDistribution(c, walk, n);
    }
  }

  lemma SingleVisit(walk: seq<Page>, p: Page)
    requires |walk| == 1
    ensures Visits(walk, p) as real / 1 as real == if p == walk[0] then 1.0 else 0.0
  {
    assert walk == [walk[0]];
  }
}
