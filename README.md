# PageRank by sampling and by iteration

This project models the core of `pagerank.py`, a small program that ranks the
pages of a corpus of HTML files. It has three parts:

- **Link filter.** `crawl` keeps, for each file, the links to other files of
  the corpus. The result is a closed link graph: no self-links, and no links
  out of the corpus.
- **Sampling.** `transition_model` gives the random surfer's next-page
  distribution. `sample_pagerank` estimates PageRank from the visit counts of
  a random walk of n pages.
- **Iteration.** The live `iterate_pagerank` relaxes the PageRank equation,
  rank = (1-d)/N + d * sum of rank(q)/|links(q)| over the pages q linking in.
  It runs until no page moves by 0.001 or more, then divides by the total.
  `maxdif` computes the largest difference between two rank tables.

The corpus is a `Corpus(keys, links)` value. `links` is the dictionary and
`keys` the order in which iterating over it yields its keys. Both matter:
sums and the in-place update follow that order.

Numbers are exact reals. Set iteration (`for i in pages`) is an arbitrary
choice of the next element. The random choices are inputs: `walk` is the start
page followed by the pages drawn.

Three Python exceptions are modelled as error results:

- `random.choice` on an empty list raises IndexError.
- `random.choices` raises ValueError when the weights do not total more than 0.
  This is the behaviour of Python 3.9 and later, which the model assumes
  throughout (see `Sampling.Draw` under "## Left out" for older versions).
- Division by zero raises ZeroDivisionError: in `sample_pagerank` when n = 0
  (line 116), and in `iterate_pagerank` when the ranks total 0 (line 209).

Each model method is proved against specification functions. The table below
says what each contract states.

Where the code and its description differ, the model follows the code:

- **Dangling pages.** `transition_model` tests `links=={}` to handle a page
  without links. `{}` is an empty dict and `links` a set, so the test is
  always false and the uniform 1/M branch is never taken. A page without
  links gives every page (1-d)/M, and these weights total 1-d, not 1
  (`DanglingTransition`). The relative weights are still uniform, so for
  d < 1 the draw is still uniform. For d = 1 the weights are all 0 and the
  draw raises ValueError (Python 3.9 and later).
- **In-place update.** `iterate_pagerank` updates `pagerank` in place, so each
  page's new rank is computed from a table that already holds this round's
  new ranks for the pages before it (Gauss-Seidel, `GaussSeidel`). It does
  not read only the previous round's table.
- **Single page without links.** For d = 1 a single page with no links does
  get rank 1 neither from the sampler for n >= 2 nor from the iteration (for
  n = 1 the sampler makes no draw and gives it 1). With Python 3.9 and later,
  the sampler raises ValueError on its first draw. The iteration reaches all-zero ranks
  (`AllDanglingVanish`), and the final division then raises
  ZeroDivisionError.

## Model

| member | source | states |
|---|---|---|
| LinkGraph.Total | pagerank.py:208 | Python's `sum` over a table's values, added in key order |
| LinkGraph.DistributionBounded | pagerank.py:98-100 | no entry of a table that is non-negative and sums to 1 exceeds 1 |
| Crawl.Unlooped | pagerank.py:41 | a file's extracted links without its own name |
| Crawl.Kept | pagerank.py:44-48 | the links of a file that survive both loops: not its own name and a file of the corpus |
| Crawl.DropSelfLinks | pagerank.py:35-41 | every file gets an entry, and the entry is its link set without the file's own name |
| Crawl.KeepOne | pagerank.py:45-48 | filtering one entry leaves it with only the links into the corpus and every other entry unchanged, keeping every entry either self-link-free or fully filtered |
| Crawl.KeepCorpusLinks | pagerank.py:44-48 | after the second loop every entry holds exactly its links, minus the self-link, that name files of the corpus |
| Crawl.FilterLinks | pagerank.py:35-50 | same files in the same order; a link survives iff it was found in the file, is not the file itself and names a file of the corpus; the result is a valid, closed graph |
| Transitions.TransitionWeight | pagerank.py:63-81 | for 0 <= d <= 1 no probability is negative |
| Transitions.Transition | pagerank.py:53-82 | the table `transition_model` returns, an entry for every page: the closed form `TransitionWeight` of each target |
| Transitions.TransitionModel | pagerank.py:53-82 | the result has an entry for every page, (1-d)/M + d/N for linked pages and (1-d)/M for the others, N taken as 1 for a page without links |
| Transitions.FillTwoValued | pagerank.py:77-81 | in any iteration order over the pages, each page gets one value if it is linked and the other value if not |
| Transitions.TwoValuedTotal | pagerank.py:68-81 | over any sequence of M keys the table totals 1 when all N links are pages and 1-d when none is |
| Transitions.LinkedOutweighsUnlinked | pagerank.py:68-81 | for d > 0 a linked page is strictly likelier than an unlinked one |
| Transitions.TransitionNonNegative | pagerank.py:53-82 | for 0 <= d <= 1 every entry of the distribution is non-negative |
| Transitions.TransitionSumsToOne | pagerank.py:53-82 | for a page whose links are all corpus pages and not empty the distribution sums to 1 |
| Transitions.DanglingTransition | pagerank.py:63-82 | for a page without links every entry is (1-d)/M, the total is 1-d, and an entry is 1/M iff d = 0 |
| Sampling.WeightTotalClosed | pagerank.py:63-82 | in a closed corpus the weights total 1 for a page with links and 1-d for a page without |
| Sampling.DeadEndIffNoWeight | pagerank.py:109-112 | in a closed corpus a page has no positive weight total iff it has no links and d >= 1 |
| Sampling.WeightedIffPositive | pagerank.py:68-81 | for 0 <= d <= 1 a page has positive weight iff it is linked or d < 1 |
| Sampling.StuckIffNoWeight | pagerank.py:108-112 | in a closed corpus a walk is stuck iff some page it draws from has no positive weight total |
| Sampling.WeightTotal | pagerank.py:109-112 | what the weights `random.choices` receives for a page add up to |
| Sampling.DeadEnd | pagerank.py:109-112 | a page whose draw raises ValueError: it has no links and d >= 1 |
| Sampling.IsWalk | pagerank.py:106-112 | a sequence the random choices can produce: a corpus start page, then each page one of positive weight from the page before, unless that page is a dead end |
| Sampling.Stuck | pagerank.py:108-112 | some draw of the walk raises ValueError: one of the pages it draws from, every page but the last, is a dead end |
| Sampling.VisitTable | pagerank.py:102-113 | the table `dico` counts for a walk: every corpus page with its number of visits |
| Sampling.ZeroCounts | pagerank.py:102-105 | in any iteration order the counts table has every page at zero |
| Sampling.VisitTableStep | pagerank.py:107 | one more visit adds one to the visited page's count and changes nothing else |
| Sampling.VisitPrefixStep | pagerank.py:113 | counting page k of the walk turns the counts of the first k pages into those of the first k+1 |
| Sampling.NoVisits | pagerank.py:102-105 | an all-zero table is the count of the empty prefix |
| Sampling.StartCounts | pagerank.py:102-107 | before the first draw the table counts the start page once and every other page zero times |
| Sampling.VisitTableTotal | pagerank.py:102-113 | the counts of a walk add up to its length |
| Sampling.Draw | pagerank.py:109-112 | the draw fails with ValueError exactly at a dead end and otherwise returns the drawn page |
| Sampling.CountStep | pagerank.py:108-113 | a loop pass fails iff its page is a dead end, and otherwise extends the counts by the drawn page |
| Sampling.CountVisits | pagerank.py:102-113 | the counting fails with ValueError iff the walk gets stuck, and otherwise yields the visit counts of the whole walk |
| Sampling.DivideCounts | pagerank.py:115-116 | in any order, each count ends divided by n and the keys are unchanged |
| Sampling.Shares | pagerank.py:115-116 | the table `sample_pagerank` returns: each page's visits divided by n |
| Sampling.SharesDistribution | pagerank.py:98-100 | for n > 0 the shares are non-negative and sum to 1, and one sample gives the start page everything |
| Sampling.SamplePageRank | pagerank.py:93-120 | the four outcomes: IndexError on an empty corpus, ValueError on a stuck walk, ZeroDivisionError for n = 0, and otherwise the visit shares; for n > 0 a distribution, and for n = 1 the start page alone |
| Iteration.Initial | pagerank.py:185-188 | the starting table: 1/N for each of the N pages of the corpus |
| Iteration.LinkingSumOver | pagerank.py:199 | the generator sum over the pages `q` of a key sequence that link to the page: rank(q) divided by the number of links of q each, added in sequence order, 0 for the others |
| Iteration.LinkingSum | pagerank.py:199 | `linking_pagerank_sum`: that sum over every page of the corpus in key order |
| Iteration.Updated | pagerank.py:197-201 | a page's new rank from a given table: (1-d)/N plus d times its linking sum in that table |
| Iteration.Swept | pagerank.py:192-201 | the table after k rounds and then the first i pages, in key order, of round k+1, each page's new rank computed from the table as already updated and written in place; round k+1 starts from the end of round k, round 1 from the starting table |
| Iteration.Relax | pagerank.py:192-206 | the table after k complete rounds |
| Iteration.Converged | pagerank.py:203 | the `all` of line 203: every page, taken in key order, moved by less than Epsilon between two tables |
| Iteration.Normalise | pagerank.py:208-209 | the final table: every page's rank divided by the total of the ranks, taken in key order |
| Iteration.ConvergedAt | pagerank.py:192-206 | round k is one whose `break` ends the loop: the ranks after it differ from those before it by less than Epsilon on every page |
| Iteration.FirstConvergence | pagerank.py:192-206 | round k is the round that ends the loop: it converges and no earlier round does |
| Iteration.MaxDif | pagerank.py:122-127 | non-negative, at least every page's difference, 0 or one of the differences, and below Epsilon iff the convergence test holds |
| Iteration.ConvergedOverIff | pagerank.py:203 | the ordered `all` holds iff no page of the sequence moved by Epsilon or more |
| Iteration.ConvergedIff | pagerank.py:203 | the convergence test holds iff no page of the corpus moved by Epsilon or more |
| Iteration.UpdatePage | pagerank.py:196-201 | one pass of the inner loop performs the next step of the round |
| Iteration.UpdateRanks | pagerank.py:196-201 | the inner loop turns the ranks after k rounds into those after k+1 |
| Iteration.SweptOther | pagerank.py:201 | a step changes only the entry of the page it updates |
| Iteration.SweptUntouched | pagerank.py:196-201 | during a round, the pages not yet reached still hold the previous round's ranks |
| Iteration.SweptStable | pagerank.py:196-201 | during a round, a page already updated keeps its new rank |
| Iteration.GaussSeidel | pagerank.py:196-201 | a page's new rank is computed from a table holding this round's ranks before it and the previous round's from it on |
| Iteration.NoLinkersNoSum | pagerank.py:199 | pages that do not link to the page contribute nothing |
| Iteration.UnlinkedRank | pagerank.py:197-201 | a page nobody links to gets exactly (1-d)/N |
| Iteration.LinkingSumNonNegative | pagerank.py:199 | non-negative ranks pass on a non-negative sum |
| Iteration.UpdatedBounds | pagerank.py:197-201 | for 0 <= d <= 1 an update from non-negative ranks is non-negative, and positive for d < 1 |
| Iteration.InitialPositive | pagerank.py:188 | every page starts with a positive rank |
| Iteration.SweptBounds | pagerank.py:188-201 | for 0 <= d <= 1 no rank becomes negative at any step, and for d < 1 all stay positive |
| Iteration.RelaxBounds | pagerank.py:188-206 | the same after any number of rounds |
| Iteration.TotalRankPositive | pagerank.py:208 | for 0 <= d < 1 a non-empty corpus's ranks total more than 0 |
| Iteration.NormaliseDistribution | pagerank.py:208-209 | dividing non-negative ranks by their non-zero total gives a distribution |
| Iteration.AllDanglingVanish | pagerank.py:196-208 | with d = 1 and no links at all every rank is 0 after the first round, and so is the total |
| Iteration.EmptyCorpusConverges | pagerank.py:192-206 | an empty corpus stops after the first round |
| Iteration.FirstConvergenceUnique | pagerank.py:192-206 | at most one round is the first to stop the loop |
| Iteration.RelaxRound | pagerank.py:194-206 | one pass of the outer loop yields the next round's ranks and whether that round stops the loop |
| Iteration.RelaxUntilConverged | pagerank.py:192-206 | the loop stops at the first round that converges, or after the round limit with none converged |
| Iteration.IteratePageRank | pagerank.py:185-211 | RoundLimitReached iff no round up to the limit converges. Otherwise the result is the normalised ranks of the first converging round, or ZeroDivisionError iff they total 0 (never for 0 <= d < 1). For 0 <= d <= 1 the result is a distribution, and an empty corpus gives an empty table after one round |

## Left out

- `main` and the command line (lines 10-23), including printing and sorting the results: I/O. `DAMPING` and `SAMPLES` (lines 6-7) are the `d` and `n` parameters.
- Part of `crawl` (lines 33-40): listing the directory, skipping non-`.html` names, reading the files and extracting `href` targets with a regular expression. This is file I/O and text parsing. `FilterLinks` takes the file names in listing order and the extracted link sets as `raw`.
- The random number generator. `random.choice` and `random.choices` are inputs: the walk and the drawn page. Their distribution is not modelled, so the sampler's convergence to the iterated ranks is not stated.
- Floating point. All arithmetic is on exact reals, so rounding in the sums, in the convergence test and in the final division is not captured.
- Non-termination. `while True` in `iterate_pagerank` has no bound. The model runs at most `maxRounds` rounds and returns RoundLimitReached when none of them converged.
- The string literal at lines 140-182 (an earlier `iterate_pagerank`), which never runs. `maxdif` is never called: the string mentions it only in a `#` comment (line 160). `maxdif` is modelled nonetheless.
- Iteration.MaxDif: requires both tables to have an entry for every page of the corpus. With a page missing, `l1[r]` or `l2[r]` raises KeyError, which the model does not represent.
- Sampling.SamplePageRank: requires a closed corpus and 0 <= d <= 1, as `crawl` produces and `main` uses. Draws with negative weights, and links naming files outside the corpus, are not modelled.
- Sampling.CountVisits: the same requirement as SamplePageRank.
- Sampling.CountStep: the same requirement as SamplePageRank.
- Sampling.Draw: the same requirement as SamplePageRank. Its result when the weights total more than 0 is only the drawn page. The ValueError for weights that do not total more than 0 is the behaviour of `random.choices` from Python 3.9 on. Before 3.9 it raises nothing and returns the last page of the list, so there a dead end is not an error and the walk moves to that page. `Draw`, `CountStep`, `CountVisits` and `SamplePageRank` model Python 3.9 and later only.
