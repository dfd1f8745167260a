/** `iterate_pagerank` and `maxdif`: PageRank by repeated relaxation. The
    rank table is updated in place page by page, so every update reads the
    ranks already computed in the same round (a Gauss-Seidel sweep). */
module Iteration {
  import opened LinkGraph

  /** The convergence threshold of line 190. */
  const Epsilon: real := 0.001

  /** A rank table: it has an entry for every page of the corpus. */
  predicate IsTable(c: Corpus, rank: map<Page, real>) {
    forall p :: p in c.links ==> p in rank
  }

  /** What the pages of `keys` that link to `page` pass on to it: each gives
      its rank divided by its number of links, added in the order of `keys`. */
  function LinkingSumOver(c: Corpus, rank: map<Page, real>, page: Page, keys: seq<Page>): real
    requires forall q :: q in keys ==> q in c.links && q in rank
  {
    if keys == [] then 0.0
    else
      (if page in c.links[keys[0]] then rank[keys[0]] / |c.links[keys[0]]| as real else 0.0)
      + LinkingSumOver(c, rank, page, keys[1..])
  }

  /** `linking_pagerank_sum` of line 199, over the corpus in key order. */
  function LinkingSum(c: Corpus, rank: map<Page, real>, page: Page): real
    requires c.Valid() && IsTable(c, rank)
  {
    LinkingSumOver(c, rank, page, c.keys)
  }

  /** The new rank of `page` (lines 197-201) computed from the table `rank`. */
  function Updated(c: Corpus, d: real, rank: map<Page, real>, page: Page): real
    requires c.Valid() && IsTable(c, rank) && page in c.links
  {
    (1.0 - d) / |c.links| as real + d * LinkingSum(c, rank, page)
  }

  /** The starting table of line 188: 1/N for each of the N pages. */
  function Initial(c: Corpus): (r: map<Page, real>)
    ensures IsTable(c, r)
  {
    map p | p in c.links :: 1.0 / |c.links| as real
  }

  /** The table after k rounds of the `while True` loop and then the first i
      pages, in key order, of round k + 1 (lines 196-201): each page's new
      rank is computed from the table as updated so far and written in place. */
  function Swept(c: Corpus, d: real, k: nat, i: nat): (r: map<Page, real>)
    requires c.Valid() && i <= |c.keys|
    ensures IsTable(c, r)
    decreases k, i
  {
    if i == 0 then (if k == 0 then Initial(c) else Swept(c, d, k - 1, |c.keys|))
    else
      var before := Swept(c, d, k, i - 1);
      before[c.keys[i - 1] := Updated(c, d, before, c.keys[i - 1])]
  }

  /** The table after k rounds. */
  function Relax(c: Corpus, d: real, k: nat): (r: map<Page, real>)
    requires c.Valid()
    ensures IsTable(c, r)
  {
    Swept(c, d, k, 0)
  }

  /** `all` over `keys` in order: no page of `keys` moved by Epsilon or more. */
  predicate ConvergedOver(keys: seq<Page>, prev: map<Page, real>, cur: map<Page, real>)
    requires forall p :: p in keys ==> p in prev && p in cur
  {
    keys == [] || (Abs(prev[keys[0]] - cur[keys[0]]) < Epsilon && ConvergedOver(keys[1..], prev, cur))
  }

  /** The test of line 203, over the corpus in key order. */
  predicate Converged(c: Corpus, prev: map<Page, real>, cur: map<Page, real>)
    requires c.Valid() && IsTable(c, prev) && IsTable(c, cur)
  {
    ConvergedOver(c.keys, prev, cur)
  }

  /** The ordered test holds exactly when every page moved by less than Epsilon. */
  lemma {:induction false} ConvergedOverIff(keys: seq<Page>, prev: map<Page, real>, cur: map<Page, real>)
    requires forall p :: p in keys ==> p in prev && p in cur
    ensures ConvergedOver(keys, prev, cur) <==> forall p :: p in keys ==> Abs(prev[p] - cur[p]) < Epsilon
  {
    if keys != [] {
      ConvergedOverIff(keys[1..], prev, cur);
      assert forall p :: p in keys ==> p == keys[0] || p in keys[1..];
    }
  }

  /** Convergence means that no page of the corpus moved by Epsilon or more. */
  lemma ConvergedIff(c: Corpus, prev: map<Page, real>, cur: map<Page, real>)
    requires c.Valid() && IsTable(c, prev) && IsTable(c, cur)
    ensures Converged(c, prev, cur) <==> forall p :: p in c.links ==> Abs(prev[p] - cur[p]) < Epsilon
  {
    ConvergedOverIff(c.keys, prev, cur);
  }

  /** Round k (k >= 1) is one after which the loop stops. */
  predicate ConvergedAt(c: Corpus, d: real, k: nat)
    requires c.Valid() && k >= 1
  {
    Converged(c, Relax(c, d, k - 1), Relax(c, d, k))
  }

  /** Round k is the first round after which the loop stops. */
  predicate FirstConvergence(c: Corpus, d: real, k: nat)
    requires c.Valid()
  {
    k >= 1 && ConvergedAt(c, d, k) && NoConvergenceUpTo(c, d, k - 1)
  }

  /** None of the flags f(1), ..., f(k) is set. */
  predicate NoneUpTo(f: nat -> bool, k: nat) {
    k == 0 || (NoneUpTo(f, k - 1) && !f(k))
  }

  /** If none of the flags up to m is set, flag j (1 <= j <= m) is not. */
  lemma {:induction false} NoneAt(f: nat -> bool, m: nat, j: nat)
    requires NoneUpTo(f, m) && 1 <= j <= m
    ensures !f(j)
  {
    if j < m {
      NoneAt(f, m - 1, j);
    }
  }

  /** Whether round k (k >= 1) stops the loop, as a flag. */
  function StopsAt(c: Corpus, d: real): nat -> bool
    requires c.Valid()
  {
    k => k >= 1 && ConvergedAt(c, d, k)
  }

  /** The loop does not stop in any of the rounds 1..k. */
  predicate NoConvergenceUpTo(c: Corpus, d: real, k: nat)
    requires c.Valid()
  {
    NoneUpTo(StopsAt(c, d), k)
  }

  /** The division by the total of lines 208-209. */
  function Normalise(c: Corpus, rank: map<Page, real>): (r: map<Page, real>)
    requires c.Valid() && IsTable(c, rank)
    requires |c.links| > 0 ==> Total(c.keys, rank) != 0.0
    ensures r.Keys == c.links.Keys
  {
    var total := Total(c.keys, rank);
    map p | p in c.links :: rank[p] / total
  }

  /** Updating page i of round k + 1 once the first i pages are done. */
  lemma SweepStep(c: Corpus, d: real, k: nat, i: nat, before: map<Page, real>, after: map<Page, real>)
    requires c.Valid() && i < |c.keys|
    requires before == Swept(c, d, k, i)
    requires after == before[c.keys[i] := Updated(c, d, before, c.keys[i])]
    ensures after == Swept(c, d, k, i + 1)
  {
  }

  /** A round is done once every page has been updated. */
  lemma RoundComplete(c: Corpus, d: real, k: nat)
    requires c.Valid()
    ensures Swept(c, d, k, |c.keys|) == Relax(c, d, k + 1)
  {
  }

  /** The value lines 197-201 compute is the new rank. */
  lemma UpdatedValue(c: Corpus, d: real, rank: map<Page, real>, page: Page, newPagerank: real, linkingSum: real)
    requires c.Valid() && IsTable(c, rank) && page in c.links
    requires newPagerank == (1.0 - d) / |c.links| as real && linkingSum == LinkingSum(c, rank, page)
    ensures newPagerank + d * linkingSum == Updated(c, d, rank, page)
  {
  }

  /** The body of the loop at lines 196-201 for the i-th page of round
      k + 1: its new rank from the table as updated so far, written in place. */
  method UpdatePage(c: Corpus, d: real, ghost k: nat, i: nat, current: map<Page, real>)
    returns (next: map<Page, real>)
    requires c.Valid() && i < |c.keys|
    requires current == Swept(c, d, k, i)
    ensures next == Swept(c, d, k, i + 1)
  {
    KeyCount(c);
    var page := c.keys[i];
    var newPagerank := (1.0 - d) / |c.links| as real;
    var linkingPagerankSum := LinkingSum(c, current, page);
    UpdatedValue(c, d, current, page, newPagerank, linkingPagerankSum);
    next := current[page := newPagerank + d * linkingPagerankSum];
    SweepStep(c, d, k, i, current, next);
  }

  /** The loop at lines 196-201: round k + 1 gives each page in key order its
      new rank, computed from the table as updated so far. */
  method UpdateRanks(c: Corpus, d: real, pagerank: map<Page, real>, ghost k: nat) returns (next: map<Page, real>)
    requires c.Valid() && pagerank == Relax(c, d, k)
    ensures next == Relax(c, d, k + 1)
  {
    next := pagerank;
    var i := 0;
    while i < |c.keys|
      invariant 0 <= i <= |c.keys|
      invariant next == Swept(c, d, k, i)
    {
      next := UpdatePage(c, d, k, i, next);
      i := i + 1;
    }
    RoundComplete(c, d, k);
  }

  /** A step of the round changes the entry of the page it updates only. */
  lemma SweptOther(c: Corpus, d: real, k: nat, i: nat, p: Page)
    requires c.Valid() && 0 < i <= |c.keys| && p in c.links && p != c.keys[i - 1]
    ensures Swept(c, d, k, i)[p] == Swept(c, d, k, i - 1)[p]
  {
    var before := Swept(c, d, k, i - 1);
    SweepStep(c, d, k, i - 1, before, before[c.keys[i - 1] := Updated(c, d, before, c.keys[i - 1])]);
  }

  /** While round k + 1 is at page i, the pages from i on still hold the
      ranks of round k. */
  lemma {:induction false} SweptUntouched(c: Corpus, d: real, k: nat, i: nat, j: nat)
    requires c.Valid() && i <= j < |c.keys|
    ensures Swept(c, d, k, i)[c.keys[j]] == Relax(c, d, k)[c.keys[j]]
  {
    if i > 0 {
      SweptUntouched(c, d, k, i - 1, j);
      DistinctIndices(c.keys, i - 1, j);
      SweptOther(c, d, k, i, c.keys[j]);
    }
  }

  /** Once page j has been updated, later steps of the round leave it alone. */
  lemma {:induction false} SweptStable(c: Corpus, d: real, k: nat, i: nat, j: nat)
    requires c.Valid() && j < i <= |c.keys|
    ensures Swept(c, d, k, i)[c.keys[j]] == Swept(c, d, k, j + 1)[c.keys[j]]
  {
    if i == j + 1 {
    } else {
      SweptStable(c, d, k, i - 1, j);
      DistinctIndices(c.keys, j, i - 1);
      SweptOther(c, d, k, i, c.keys[j]);
    }
  }

  /** The update is in place (Gauss-Seidel): the i-th page of round k + 1 gets
      its rank from a table that already holds the round's new ranks for the
      pages before it and still holds the previous round's ranks for the
      others. */
  lemma GaussSeidel(c: Corpus, d: real, k: nat, i: nat)
    requires c.Valid() && i < |c.keys|
    ensures Relax(c, d, k + 1)[c.keys[i]] == Updated(c, d, Swept(c, d, k, i), c.keys[i])
    ensures forall j :: 0 <= j < i ==> Swept(c, d, k, i)[c.keys[j]] == Relax(c, d, k + 1)[c.keys[j]]
    ensures forall j :: i <= j < |c.keys| ==> Swept(c, d, k, i)[c.keys[j]] == Relax(c, d, k)[c.keys[j]]
  {
    RoundComplete(c, d, k);
    SweptStable(c, d, k, |c.keys|, i);
    forall j | 0 <= j < i
      ensures Swept(c, d, k, i)[c.keys[j]] == Relax(c, d, k + 1)[c.keys[j]]
    {
      SweptStable(c, d, k, i, j);
      SweptStable(c, d, k, |c.keys|, j);
    }
    forall j | i <= j < |c.keys|
      ensures Swept(c, d, k, i)[c.keys[j]] == Relax(c, d, k)[c.keys[j]]
    {
      SweptUntouched(c, d, k, i, j);
    }
  }

  /** Pages of `keys` that do not link to `page` pass nothing on to it. */
  lemma {:induction false} NoLinkersNoSum(c: Corpus, rank: map<Page, real>, page: Page, keys: seq<Page>)
    requires forall q :: q in keys ==> q in c.links && q in rank && page !in c.links[q]
    ensures LinkingSumOver(c, rank, page, keys) == 0.0
  {
    if keys != [] {
      NoLinkersNoSum(c, rank, page, keys[1..]);
    }
  }

  /** A page no page links to gets (1-d)/N, whatever the table. */
  lemma UnlinkedRank(c: Corpus, d: real, rank: map<Page, real>, page: Page)
    requires c.Valid() && IsTable(c, rank) && page in c.links
    requires forall q :: q in c.links ==> page !in c.links[q]
    ensures Updated(c, d, rank, page) == (1.0 - d) / |c.links| as real
  {
    NoLinkersNoSum(c, rank, page, c.keys);
  }

  /** From non-negative ranks nothing negative is passed on. */
  lemma {:induction false} LinkingSumNonNegative(c: Corpus, rank: map<Page, real>, page: Page, keys: seq<Page>)
    requires forall q :: q in keys ==> q in c.links && q in rank
    requires NonNegative(rank)
    ensures LinkingSumOver(c, rank, page, keys) >= 0.0
  {
    if keys != [] {
      LinkingSumNonNegative(c, rank, page, keys[1..]);
      var q := keys[0];
      if page in c.links[q] {
        QuotientNonNegative(rank[q], |c.links[q]| as real);
      }
    }
  }

  /** (1-d)/n + d*s is non-negative for 0 <= d <= 1 and s >= 0, and positive
      when also d < 1. */
  lemma MixBounds(n: nat, d: real, s: real)
    requires n > 0 && 0.0 <= d <= 1.0 && s >= 0.0
    ensures (1.0 - d) / n as real + d * s >= 0.0
    ensures d < 1.0 ==> (1.0 - d) / n as real + d * s > 0.0
  {
    QuotientNonNegative(1.0 - d, n as real);
    assert d * s >= 0.0;
  }

  /** For 0 <= d <= 1 an update from non-negative ranks is non-negative, and
      positive when d < 1. */
  lemma UpdatedBounds(c: Corpus, d: real, rank: map<Page, real>, page: Page)
    requires c.Valid() && IsTable(c, rank) && page in c.links
    requires 0.0 <= d <= 1.0 && NonNegative(rank)
    ensures Updated(c, d, rank, page) >= 0.0
    ensures d < 1.0 ==> Updated(c, d, rank, page) > 0.0
  {
    LinkingSumNonNegative(c, rank, page, c.keys);
    MixBounds(|c.links|, d, LinkingSum(c, rank, page));
  }

  /** Every page starts with a positive rank. */
  lemma InitialPositive(c: Corpus)
    ensures Positive(Initial(c))
  {
    forall p | p in c.links ensures Initial(c)[p] > 0.0 {
      assert |c.links| > 0;
    }
  }

  /** Writing a non-negative (positive) value keeps a table non-negative (positive). */
  lemma UpdateBounds(rank: map<Page, real>, x: Page, v: real)
    ensures NonNegative(rank) && v >= 0.0 ==> NonNegative(rank[x := v])
    ensures Positive(rank) && v > 0.0 ==> Positive(rank[x := v])
  {
  }

  /** For 0 <= d <= 1 no rank ever becomes negative, and for d < 1 every rank
      stays positive. */
  lemma {:induction false} SweptBounds(c: Corpus, d: real, k: nat, i: nat)
    requires c.Valid() && i <= |c.keys| && 0.0 <= d <= 1.0
    ensures NonNegative(Swept(c, d, k, i))
    ensures d < 1.0 ==> Positive(Swept(c, d, k, i))
    decreases k, i
  {
    if i == 0 {
      if k == 0 {
        InitialPositive(c);
      } else {
        SweptBounds(c, d, k - 1, |c.keys|);
      }
    } else {
      var before := Swept(c, d, k, i - 1);
      var x := c.keys[i - 1];
      SweptBounds(c, d, k, i - 1);
      UpdatedBounds(c, d, before, x);
      UpdateBounds(before, x, Updated(c, d, before, x));
      SweepStep(c, d, k, i - 1, before, before[x := Updated(c, d, before, x)]);
    }
  }

  /** The ranks after any number of rounds, for 0 <= d <= 1. */
  lemma RelaxBounds(c: Corpus, d: real, k: nat)
    requires c.Valid() && 0.0 <= d <= 1.0
    ensures NonNegative(Relax(c, d, k))
    ensures d < 1.0 ==> Positive(Relax(c, d, k))
  {
    SweptBounds(c, d, k, 0);
  }

  /** For 0 <= d < 1 the ranks of a non-empty corpus never total zero, so
      the final division cannot fail. */
  lemma TotalRankPositive(c: Corpus, d: real, k: nat)
    requires c.Valid() && 0.0 <= d < 1.0 && |c.links| > 0
    ensures Total(c.keys, Relax(c, d, k)) > 0.0
  {
    RelaxBounds(c, d, k);
    KeyCount(c);
    TotalPositive(c.keys, Relax(c, d, k));
  }

  /** Dividing non-negative ranks by their non-zero total gives a probability
      distribution. */
  lemma NormaliseDistribution(c: Corpus, rank: map<Page, real>)
    requires c.Valid() && IsTable(c, rank) && NonNegative(rank)
    requires |c.links| > 0 && Total(c.keys, rank) != 0.0
    ensures IsDistribution(c, Normalise(c, rank))
  {
    var total := Total(c.keys, rank);
    var r := Normalise(c, rank);
    TotalNonNegative(c.keys, rank);
    TotalDivide(c.keys, rank, r, total);
    SelfQuotient(total);
    forall p | p in r ensures r[p] >= 0.0 {
      QuotientNonNegative(rank[p], total);
    }
  }

  /** With d = 1 and no links at all, every rank is 0 after the first round,
      so the ranks total 0. */
  lemma {:induction false} AllDanglingVanish(c: Corpus, k: nat)
    requires c.Valid() && k >= 1
    requires forall q :: q in c.links ==> c.links[q] == {}
    ensures forall p :: p in c.links ==> Relax(c, 1.0, k)[p] == 0.0
    ensures Total(c.keys, Relax(c, 1.0, k)) == 0.0
  {
    var r := Relax(c, 1.0, k);
    forall p | p in c.links ensures r[p] == 0.0 {
      assert p in Elems(c.keys);
      var i :| 0 <= i < |c.keys| && c.keys[i] == p;
      GaussSeidel(c, 1.0, k - 1, i);
      UnlinkedRank(c, 1.0, Swept(c, 1.0, k - 1, i), p);
    }
    TotalScale(c.keys, r, r, 0.0);
  }

  /** An empty corpus converges in the first round. */
  lemma EmptyCorpusConverges(c: Corpus, d: real)
    requires c.Valid() && |c.links| == 0
    ensures FirstConvergence(c, d, 1)
  {
    assert c.keys == [] by {
      KeyCount(c);
    }
  }

  /** At most one round is the first to stop the loop. */
  lemma FirstConvergenceUnique(c: Corpus, d: real, k: nat, k': nat)
    requires c.Valid() && FirstConvergence(c, d, k) && FirstConvergence(c, d, k')
    ensures k == k'
  {
    if k < k' {
      NoneAt(StopsAt(c, d), k' - 1, k);
    } else if k' < k {
      NoneAt(StopsAt(c, d), k - 1, k');
    }
  }

  /** `maxdif` (lines 122-127): the largest difference between the two tables
      over the corpus, and 0 when there is none. */
  method MaxDif(l1: map<Page, real>, l2: map<Page, real>, c: Corpus) returns (maxi: real)
    requires c.Valid()
    requires forall r :: r in c.links ==> r in l1 && r in l2
    ensures maxi >= 0.0
    ensures forall r :: r in c.links ==> Abs(l1[r] - l2[r]) <= maxi
    ensures maxi == 0.0 || exists r :: r in c.links && maxi == Abs(l1[r] - l2[r])
    ensures maxi < Epsilon <==> forall r :: r in c.links ==> Abs(l1[r] - l2[r]) < Epsilon
    ensures IsTable(c, l1) && IsTable(c, l2) ==> (maxi < Epsilon <==> Converged(c, l1, l2))
  {
    maxi := 0.0;
    var i := 0;
    while i < |c.keys|
      invariant 0 <= i <= |c.keys|
      invariant maxi >= 0.0
      invariant forall j :: 0 <= j < i ==> Abs(l1[c.keys[j]] - l2[c.keys[j]]) <= maxi
      invariant maxi == 0.0 || exists j :: 0 <= j < i && maxi == Abs(l1[c.keys[j]] - l2[c.keys[j]])
    {
      var r := c.keys[i];
      if Abs(l1[r] - l2[r]) > maxi {
        maxi := Abs(l1[r] - l2[r]);
      }
      i := i + 1;
    }
    forall r | r in c.links ensures Abs(l1[r] - l2[r]) <= maxi {
      var j :| 0 <= j < |c.keys| && c.keys[j] == r;
    }
    if IsTable(c, l1) && IsTable(c, l2) {
      ConvergedIff(c, l1, l2);
    }
  }

  /** One pass of the `while True` loop (lines 194-203): copy, update in
      place, and the convergence test, after k rounds none of which stopped
      the loop. */
  method RelaxRound(c: Corpus, d: real, pagerank: map<Page, real>, ghost k: nat)
    returns (next: map<Page, real>, convergence: bool)
    requires c.Valid() && pagerank == Relax(c, d, k) && NoConvergenceUpTo(c, d, k)
    ensures next == Relax(c, d, k + 1)
    ensures convergence == ConvergedAt(c, d, k + 1)
    ensures convergence ==> FirstConvergence(c, d, k + 1)
    ensures !convergence ==> NoConvergenceUpTo(c, d, k + 1)
  {
    var prevPagerank := pagerank;
    next := UpdateRanks(c, d, pagerank, k);
    convergence := Converged(c, prevPagerank, next);
  }

  /** The `while True` loop (lines 192-206), run for at most `maxRounds`
      rounds: it stops after the first round that converges. */
  method RelaxUntilConverged(c: Corpus, d: real, maxRounds: nat)
    returns (pagerank: map<Page, real>, convergence: bool, rounds: nat)
    requires c.Valid()
    ensures rounds <= maxRounds && pagerank == Relax(c, d, rounds)
    ensures convergence ==> FirstConvergence(c, d, rounds)
    ensures !convergence ==> rounds == maxRounds && NoConvergenceUpTo(c, d, maxRounds)
  {
    pagerank := Initial(c);
    rounds := 0;
    convergence := false;
    while rounds < maxRounds && !convergence
      invariant rounds <= maxRounds
      invariant pagerank == Relax(c, d, rounds)
      invariant convergence ==> FirstConvergence(c, d, rounds)
      invariant !convergence ==> NoConvergenceUpTo(c, d, rounds)
    {
      pagerank, convergence := RelaxRound(c, d, pagerank, rounds);
      rounds := rounds + 1;
    }
  }

  /** `iterate_pagerank` (lines 185-211). The source loops until the ranks
      converge; the model stops with RoundLimitReached after `maxRounds`
      rounds. `rounds` is the number of rounds run. A total of zero makes the
      final division raise ZeroDivisionError, which cannot happen for 0 <= d < 1;
      otherwise the result is a probability distribution. An empty corpus
      converges in the first round and gives an empty table. */
  method IteratePageRank(c: Corpus, d: real, maxRounds: nat) returns (r: Result<map<Page, real>>, rounds: nat)
    requires c.Valid()
    ensures r == Err(RoundLimitReached) <==> NoConvergenceUpTo(c, d, maxRounds)
    ensures r == Err(RoundLimitReached) ==> rounds == maxRounds
    ensures r != Err(RoundLimitReached) ==> rounds <= maxRounds && FirstConvergence(c, d, rounds)
    ensures r == Err(ZeroDivisionError) <==>
              r != Err(RoundLimitReached) && |c.links| > 0 && Total(c.keys, Relax(c, d, rounds)) == 0.0
    ensures r.Ok? ==> r.value == Normalise(c, Relax(c, d, rounds))
    ensures 0.0 <= d < 1.0 ==> r != Err(ZeroDivisionError)
    ensures 0.0 <= d <= 1.0 && r.Ok? && |c.links| > 0 ==> IsDistribution(c, r.value)
    ensures |c.links| == 0 && maxRounds >= 1 ==> r == Ok(map[]) && rounds == 1
  {
    var pagerank, convergence;
    pagerank, convergence, rounds := RelaxUntilConverged(c, d, maxRounds);
    if |c.links| == 0 && maxRounds >= 1 {
      EmptyCorpusConverges(c, d);
      if NoConvergenceUpTo(c, d, maxRounds) {
        NoneAt(StopsAt(c, d), maxRounds, 1);
      }
    }
    if !convergence {
      return Err(RoundLimitReached), rounds;
    }
    if NoConvergenceUpTo(c, d, maxRounds) {
      NoneAt(StopsAt(c, d), maxRounds, rounds);
    }
    var totalPagerank := Total(c.keys, pagerank);
    if 0.0 <= d < 1.0 && |c.links| > 0 {
      TotalRankPositive(c, d, rounds);
    }
    if |c.links| > 0 && totalPagerank == 0.0 {
      return Err(ZeroDivisionError), rounds;
    }
    r := Ok(Normalise(c, pagerank));
    if |c.links| == 0 {
      assert r.value == map[];
      if maxRounds >= 1 {
        FirstConvergenceUnique(c, d, rounds, 1);
      }
    } else if 0.0 <= d <= 1.0 {
      RelaxBounds(c, d, rounds);
      NormaliseDistribution(c, pagerank);
    }
  }
}
