/** The link graph both estimators work on: pages, the corpus that maps every
    page to the set of pages it links to, and sums over rank tables. */
module LinkGraph {

  /** A page identifier: the program uses the HTML file name. */
  type Page = string

  /** A corpus as the program holds it, a dictionary from page to its link set.
      `links` is the dictionary's contents and `keys` the order in which
      iterating over the dictionary yields its keys (insertion order). */
  datatype Corpus = Corpus(keys: seq<Page>, links: map<Page, set<Page>>) {

    /** `keys` lists every key of `links` exactly once. */
    predicate Valid() {
      && Distinct(keys)
      && links.Keys == Elems(keys)
    }

    /** The invariant of a crawled link graph: no link leaves the corpus and
        no page links to itself. */
    predicate Closed() {
      forall p :: p in links ==> links[p] <= links.Keys && p !in links[p]
    }
  }

  /** The exceptions the program can raise on the inputs the model admits
      (a division by zero raises ZeroDivisionError, `random.choice` on an
      empty sequence raises IndexError, and from Python 3.9 on `random.choices`
      with weights that do not total more than zero raises ValueError), and
      the model's own stop for a relaxation that has not converged. */
  datatype Error = ZeroDivisionError | IndexError | ValueError | RoundLimitReached

  datatype Result<T> = Ok(value: T) | Err(error: Error)

  function Abs(x: real): (r: real)
    ensures r >= 0.0 && (r == x || r == -x)
  {
    if x < 0.0 then -x else x
  }

  /** The set of pages a sequence mentions. */
  function Elems(s: seq<Page>): set<Page> {
    set p | p in s
  }

  /** No page occurs twice. */
  predicate Distinct(s: seq<Page>) {
    s == [] || (s[0] !in s[1..] && Distinct(s[1..]))
  }

  /** Python's `sum` over a table's values, taken in the order `keys`. */
  function Total(keys: seq<Page>, m: map<Page, real>): real
    requires forall k :: k in keys ==> k in m
  {
    if keys == [] then 0.0 else m[keys[0]] + Total(keys[1..], m)
  }

  predicate NonNegative(m: map<Page, real>) {
    forall p :: p in m ==> m[p] >= 0.0
  }

  predicate Positive(m: map<Page, real>) {
    forall p :: p in m ==> m[p] > 0.0
  }

  /** A probability distribution over the corpus: an entry for every page,
      none negative, summing to 1. */
  predicate IsDistribution(c: Corpus, m: map<Page, real>)
    requires c.Valid()
  {
    && m.Keys == c.links.Keys
    && NonNegative(m)
    && Total(c.keys, m) == 1.0
  }

  /** No entry of a distribution exceeds 1. */
  lemma DistributionBounded(c: Corpus, m: map<Page, real>, p: Page)
    requires c.Valid() && IsDistribution(c, m) && p in m
    ensures m[p] <= 1.0
  {
    TotalAtLeastEntry(c.keys, m, p);
  }

  /** With no negative entries, the total is at least any one entry. */
  lemma {:induction false} TotalAtLeastEntry(keys: seq<Page>, m: map<Page, real>, p: Page)
    requires forall k :: k in keys ==> k in m
    requires NonNegative(m) && p in keys
    ensures Total(keys, m) >= m[p]
  {
    if keys[0] == p {
      TotalNonNegative(keys[1..], m);
    } else {
      TotalAtLeastEntry(keys[1..], m, p);
    }
  }

  /** A sequence without repetitions has as many elements as its set. */
  lemma {:induction false} DistinctCard(s: seq<Page>)
    requires Distinct(s)
    ensures |Elems(s)| == |s|
  {
    if s != [] {
      assert Elems(s) == {s[0]} + Elems(s[1..]);
      DistinctCard(s[1..]);
    }
  }

  /** In a valid corpus the dictionary has exactly |keys| entries. */
  lemma KeyCount(c: Corpus)
    requires c.Valid()
    ensures |c.links| == |c.keys|
  {
    assert |c.links| == |c.links.Keys|;
    DistinctCard(c.keys);
  }

  /** Adding `delta` to one entry adds `delta` to the total over distinct keys. */
  lemma {:induction false} TotalIncrement(keys: seq<Page>, m: map<Page, real>, x: Page, delta: real)
    requires Distinct(keys) && x in keys
    requires forall k :: k in keys ==> k in m
    ensures Total(keys, m[x := m[x] + delta]) == Total(keys, m) + delta
  {
    var m' := m[x := m[x] + delta];
    if keys[0] == x {
      TotalAgree(keys[1..], m, m');
    } else {
      TotalIncrement(keys[1..], m, x, delta);
    }
  }

  /** Two tables that agree on the keys have the same total. */
  lemma {:induction false} TotalAgree(keys: seq<Page>, m: map<Page, real>, m': map<Page, real>)
    requires forall k :: k in keys ==> k in m && k in m' && m[k] == m'[k]
    ensures Total(keys, m) == Total(keys, m')
  {
    if keys != [] {
      TotalAgree(keys[1..], m, m');
    }
  }

  /** Scaling every entry scales the total. */
  lemma {:induction false} TotalScale(keys: seq<Page>, m: map<Page, real>, m': map<Page, real>, s: real)
    requires forall k :: k in keys ==> k in m && k in m' && m'[k] == m[k] * s
    ensures Total(keys, m') == Total(keys, m) * s
  {
    if keys != [] {
      TotalScale(keys[1..], m, m', s);
    }
  }

  /** Dividing every entry by `t` divides the total by `t`. */
  lemma {:induction false} TotalDivide(keys: seq<Page>, m: map<Page, real>, m': map<Page, real>, t: real)
    requires t != 0.0
    requires forall k :: k in keys ==> k in m && k in m' && m'[k] == m[k] / t
    ensures Total(keys, m') == Total(keys, m) / t
  {
    if keys != [] {
      TotalDivide(keys[1..], m, m', t);
      SumOfQuotients(m[keys[0]], Total(keys[1..], m), t);
    }
  }

  lemma SumOfQuotients(x: real, y: real, t: real)
    requires t != 0.0
    ensures x / t + y / t == (x + y) / t
  {
  }

  lemma SelfQuotient(x: real)
    requires x != 0.0
    ensures x / x == 1.0
  {
  }

  lemma QuotientNonNegative(x: real, t: real)
    requires x >= 0.0 && t > 0.0
    ensures x / t >= 0.0
  {
  }

  /** Different positions of a sequence without repetitions hold different pages. */
  lemma {:induction false} DistinctIndices(s: seq<Page>, a: nat, b: nat)
    requires Distinct(s) && a < b < |s|
    ensures s[a] != s[b]
  {
    if a == 0 {
      assert s[b] == s[1..][b - 1];
    } else {
      DistinctIndices(s[1..], a - 1, b - 1);
    }
  }

  lemma {:induction false} TotalNonNegative(keys: seq<Page>, m: map<Page, real>)
    requires forall k :: k in keys ==> k in m
    requires NonNegative(m)
    ensures Total(keys, m) >= 0.0
  {
    if keys != [] {
      TotalNonNegative(keys[1..], m);
    }
  }

  lemma {:induction false} TotalPositive(keys: seq<Page>, m: map<Page, real>)
    requires forall k :: k in keys ==> k in m
    requires keys != [] && Positive(m)
    ensures Total(keys, m) > 0.0
  {
    if keys[1..] != [] {
      TotalPositive(keys[1..], m);
    }
  }

  /** How many entries of `keys` lie in `s`. */
  function CountIn(keys: seq<Page>, s: set<Page>): (n: nat)
    ensures n <= |keys|
  {
    if keys == [] then 0 else (if keys[0] in s then 1 else 0) + CountIn(keys[1..], s)
  }

  /** Over distinct keys, the count is the number of pages of `s` among the keys. */
  lemma {:induction false} CountInCard(keys: seq<Page>, s: set<Page>)
    requires Distinct(keys)
    ensures CountIn(keys, s) == |s * Elems(keys)|
  {
    if keys != [] {
      var rest := keys[1..];
      assert Elems(keys) == {keys[0]} + Elems(rest);
      CountInCard(rest, s);
      if keys[0] in s {
        assert s * Elems(keys) == {keys[0]} + s * Elems(rest);
      } else {
        assert s * Elems(keys) == s * Elems(rest);
      }
    }
  }

  /** `k` copies of `x` added up. */
  function Repeat(k: nat, x: real): real {
    if k == 0 then 0.0 else x + Repeat(k - 1, x)
  }

  /** Repeated addition is multiplication. */
  lemma {:induction false} RepeatIsProduct(k: nat, x: real)
    ensures Repeat(k, x) == k as real * x
  {
    if k > 0 {
      RepeatIsProduct(k - 1, x);
    }
  }

  /** A table that holds `a` on the pages of `s` and `b` on the others totals
      `a` once per key in `s` and `b` once per key outside it. */
  lemma {:induction false} TotalTwoValued(keys: seq<Page>, m: map<Page, real>, s: set<Page>, a: real, b: real)
    requires forall k :: k in keys ==> k in m && m[k] == (if k in s then a else b)
    ensures Total(keys, m) == Repeat(CountIn(keys, s), a) + Repeat(|keys| - CountIn(keys, s), b)
  {
    if keys != [] {
      var rest := keys[1..];
      TotalTwoValued(rest, m, s, a, b);
      var n := CountIn(rest, s);
      if keys[0] in s {
        assert Repeat(n + 1, a) == a + Repeat(n, a);
      } else {
        assert Repeat(|keys| - n, b) == b + Repeat(|rest| - n, b);
      }
    }
  }
}
