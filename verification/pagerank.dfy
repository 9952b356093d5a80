/**
 * The PageRank pieces of `pagerank.py` that are deterministic: the link filtering of `crawl`,
 * the random surfer's transition model, the initial ranks and the final normalisation of
 * `iterate_pagerank`. Probabilities are exact reals.
 */
module PageRank {

  /** A page is named by its file name. */
  type Page = string

  /** Each page of the corpus with the set of pages it links to. */
  type Corpus = map<Page, set<Page>>

  // ---------------------------------------------------------------------------------------
  // Sums of map values

  ghost function Pick(keys: set<Page>): (k: Page)
    requires keys != {}
    ensures k in keys
  {
    var k :| k in keys; k
  }

  /** The sum of `m`'s values over `keys`, in no particular order. */
  ghost function Sum(m: map<Page, real>, keys: set<Page>): real
    requires keys <= m.Keys
    decreases keys
  {
    if keys == {} then 0.0
    else
      var k := Pick(keys);
      m[k] + Sum(m, keys - {k})
  }

  /** The sum of all of `m`'s values. */
  ghost function Total(m: map<Page, real>): real {
    Sum(m, m.Keys)
  }

  /** Any key may be taken out of the sum first. */
  lemma {:induction false} SumRemove(m: map<Page, real>, keys: set<Page>, k: Page)
    requires keys <= m.Keys && k in keys
    ensures Sum(m, keys) == m[k] + Sum(m, keys - {k})
    decreases keys
  {
    var j := Pick(keys);
    if j != k {
      calc {
        Sum(m, keys);
        m[j] + Sum(m, keys - {j});
        { SumRemove(m, keys - {j}, k); }
        m[j] + m[k] + Sum(m, keys - {j} - {k});
        { assert keys - {j} - {k} == keys - {k} - {j}; }
        m[k] + (m[j] + Sum(m, keys - {k} - {j}));
        { SumRemove(m, keys - {k}, j); }
        m[k] + Sum(m, keys - {k});
      }
    }
  }

  /** `n` copies of `a` added up. */
  function Times(a: real, n: nat): real {
    if n == 0 then 0.0 else a + Times(a, n - 1)
  }

  lemma {:induction false} TimesIsProduct(a: real, n: nat)
    ensures Times(a, n) == a * (n as real)
  {
    if n > 0 {
      TimesIsProduct(a, n - 1);
    }
  }

  /** `n` equal shares of `x` add up to `x`. */
  lemma SharesAddUp(x: real, n: nat)
    requires n > 0
    ensures Times(x / (n as real), n) == x
  {
    TimesIsProduct(x / (n as real), n);
  }

  /** The sum of values `a`, plus `b` on the keys in `s`. */
  lemma {:induction false} SumAffine(m: map<Page, real>, keys: set<Page>, a: real, b: real, s: set<Page>)
    requires keys <= m.Keys && s <= keys
    requires forall q :: q in keys ==> m[q] == a + (if q in s then b else 0.0)
    ensures Sum(m, keys) == Times(a, |keys|) + Times(b, |s|)
    decreases keys
  {
    if keys != {} {
      var k := Pick(keys);
      var rest := keys - {k};
      SumAffine(m, rest, a, b, s - {k});
      assert |rest| == |keys| - 1;
      if k in s {
        assert |s - {k}| == |s| - 1;
      } else {
        assert s - {k} == s;
      }
    }
  }

  /** Dividing every value by `t` divides the sum by `t`. */
  lemma {:induction false} SumScale(m: map<Page, real>, n: map<Page, real>, keys: set<Page>, t: real)
    requires keys <= m.Keys && keys <= n.Keys && t != 0.0
    requires forall q :: q in keys ==> n[q] == m[q] / t
    ensures Sum(n, keys) == Sum(m, keys) / t
    decreases keys
  {
    if keys != {} {
      var k := Pick(keys);
      SumScale(m, n, keys - {k}, t);
    }
  }

  /** A sum of non-negative values is at least each of them. */
  lemma {:induction false} SumNonNegative(m: map<Page, real>, keys: set<Page>)
    requires keys <= m.Keys && forall q :: q in keys ==> m[q] >= 0.0
    ensures Sum(m, keys) >= 0.0
    ensures forall q :: q in keys ==> m[q] <= Sum(m, keys)
    decreases keys
  {
    if keys != {} {
      var k := Pick(keys);
      SumNonNegative(m, keys - {k});
      forall q | q in keys ensures m[q] <= Sum(m, keys) {
        if q != k {
          SumRemove(m, keys, q);
          SumNonNegative(m, keys - {q});
        }
      }
    }
  }

  // ---------------------------------------------------------------------------------------
  // crawl

  /** The link set of one page: the links found in it, without a link to itself. */
  function PageLinks(filename: Page, links: seq<Page>): (r: set<Page>)
    ensures forall q :: q in r <==> q in links && q != filename
  {
    (set q | q in links) - {filename}
  }

  /** Keeps only the links to pages of the corpus. */
  function KeepCorpusLinks(pages: map<Page, set<Page>>): (corpus: Corpus)
    ensures corpus.Keys == pages.Keys
    ensures forall p :: p in corpus ==> corpus[p] <= pages[p] && corpus[p] <= corpus.Keys
    ensures forall p, q :: p in corpus && q in pages[p] && q in pages ==> q in corpus[p]
  {
    map p | p in pages :: set q | q in pages[p] && q in pages
  }

  /**
   * The corpus `crawl` returns for pages whose HTML holds the links `files[p]`: every page,
   * linked to the other pages of the corpus it links to.
   */
  function Crawl(files: map<Page, seq<Page>>): (corpus: Corpus)
    ensures corpus.Keys == files.Keys
    ensures forall p :: p in corpus ==> p !in corpus[p] && corpus[p] <= corpus.Keys
    ensures forall p, q :: p in corpus ==> (q in corpus[p] <==> q in files[p] && q != p && q in files)
  {
    KeepCorpusLinks(map p | p in files :: PageLinks(p, files[p]))
  }

  /** Filtering a filtered corpus again changes nothing. */
  lemma KeepCorpusLinksIdempotent(pages: map<Page, set<Page>>)
    ensures KeepCorpusLinks(KeepCorpusLinks(pages)) == KeepCorpusLinks(pages)
  {
    var once := KeepCorpusLinks(pages);
    var twice := KeepCorpusLinks(once);
    forall p | p in once ensures twice[p] == once[p] {
      assert once[p] <= once.Keys;
    }
  }

  /** Every link of the corpus leads to a page of the corpus. */
  ghost predicate Closed(corpus: Corpus) {
    forall p :: p in corpus ==> corpus[p] <= corpus.Keys
  }

  // ---------------------------------------------------------------------------------------
  // transition_model

  /**
   * The distribution `transition_model` returns for `page`. Its keys are the corpus pages
   * and the pages `page` links to, since assigning a linked page adds it to the dictionary.
   */
  function Transition(corpus: Corpus, page: Page, damping: real): map<Page, real>
    requires page in corpus
  {
    var links := corpus[page];
    var keys := corpus.Keys + links;
    assert page in keys;
    if links != {} then
      map q | q in keys :: (if q in links then damping / (|links| as real) else 0.0) + (1.0 - damping) / (|keys| as real)
    else
      map q | q in keys :: 1.0 / (|keys| as real)
  }

  /**
   * Builds the distribution as the source does: every page at 0, the linked pages at
   * d/k, then the random-jump share added to every entry.
   */
  method TransitionModel(corpus: Corpus, page: Page, damping: real) returns (dist: map<Page, real>)
    requires page in corpus
    ensures dist == Transition(corpus, page, damping)
  {
    dist := map p | p in corpus :: 0.0;
    var nextPages := corpus[page];
    var pChooseRandomly: real;
    if nextPages != {} {
      var pNextPage := damping / (|nextPages| as real);
      dist := SetEach(dist, nextPages, pNextPage);
      assert page in dist;
      pChooseRandomly := (1.0 - damping) / (|dist| as real);
    } else {
      assert page in dist;
      pChooseRandomly := 1.0 / (|dist| as real);
    }
    ghost var linked := dist;
    dist := AddToEvery(dist, pChooseRandomly);
    TransitionBuilt(corpus, page, damping, linked, pChooseRandomly, dist);
  }

  /** The first loop of `transition_model`: sets the value of every page of `pages` to `v`. */
  method SetEach(dist: map<Page, real>, pages: set<Page>, v: real) returns (r: map<Page, real>)
    ensures r.Keys == dist.Keys + pages
    ensures forall q :: q in r ==> r[q] == if q in pages then v else dist[q]
  {
    r := dist;
    var rest := pages;
    while rest != {}
      invariant rest <= pages
      invariant r.Keys == dist.Keys + (pages - rest)
      invariant forall q :: q in r ==> r[q] == if q in pages - rest then v else dist[q]
      decreases rest
    {
      var nextPage :| nextPage in rest;
      r := r[nextPage := v];
      rest := rest - {nextPage};
    }
  }

  /** The last loop of `transition_model`: adds `p` to the value of every page. */
  method AddToEvery(dist: map<Page, real>, p: real) returns (r: map<Page, real>)
    ensures r.Keys == dist.Keys
    ensures forall q :: q in r ==> r[q] == dist[q] + p
  {
    r := dist;
    var todo := dist.Keys;
    while todo != {}
      invariant todo <= dist.Keys && r.Keys == dist.Keys
      invariant forall q :: q in r ==> r[q] == dist[q] + (if q in todo then 0.0 else p)
      decreases todo
    {
      var webpage :| webpage in todo;
      r := r[webpage := r[webpage] + p];
      todo := todo - {webpage};
    }
  }

  /**
   * The dictionary `transition_model` builds is `Transition`: every key holds its link
   * share plus the random-jump share of the case the page falls in.
   */
  lemma TransitionBuilt(corpus: Corpus, page: Page, damping: real, linked: map<Page, real>, p: real, dist: map<Page, real>)
    requires page in corpus
    requires linked.Keys == corpus.Keys + corpus[page]
    requires forall q :: q in linked ==>
      linked[q] == if q in corpus[page] then damping / (|corpus[page]| as real) else 0.0
    requires p == if corpus[page] != {} then (1.0 - damping) / (|linked| as real) else 1.0 / (|linked| as real)
    requires dist.Keys == linked.Keys && forall q :: q in dist ==> dist[q] == linked[q] + p
    ensures dist == Transition(corpus, page, damping)
  {
    assert |linked| == |corpus.Keys + corpus[page]| by { assert linked.Keys == corpus.Keys + corpus[page]; }
    var spec := Transition(corpus, page, damping);
    assert dist.Keys == spec.Keys;
    forall q | q in dist ensures dist[q] == spec[q] {
    }
  }

  /**
   * On a corpus whose links stay inside it, the distribution has a key for exactly the
   * corpus pages; with k > 0 links each linked page gets d/k + (1-d)/N and every other page
   * (1-d)/N, and without links every page gets 1/N.
   */
  lemma TransitionOnClosedCorpus(corpus: Corpus, page: Page, damping: real)
    requires page in corpus && Closed(corpus)
    ensures Transition(corpus, page, damping).Keys == corpus.Keys
    ensures corpus[page] != {} ==> forall q :: q in corpus ==>
      Transition(corpus, page, damping)[q]
        == (if q in corpus[page] then damping / (|corpus[page]| as real) else 0.0) + (1.0 - damping) / (|corpus| as real)
    ensures corpus[page] == {} ==> forall q :: q in corpus ==>
      Transition(corpus, page, damping)[q] == 1.0 / (|corpus| as real)
  {
    assert corpus.Keys + corpus[page] == corpus.Keys;
    assert |corpus.Keys| == |corpus|;
  }

  /** The values of the distribution sum to 1, for any damping factor. */
  lemma TransitionSumsToOne(corpus: Corpus, page: Page, damping: real)
    requires page in corpus
    ensures Total(Transition(corpus, page, damping)) == 1.0
  {
    var links := corpus[page];
    var keys := corpus.Keys + links;
    var dist := Transition(corpus, page, damping);
    assert page in keys;
    var n := |keys|;
    if links != {} {
      var base := (1.0 - damping) / (n as real);
      var share := damping / (|links| as real);
      assert dist.Keys == keys;
      assert forall q :: q in keys ==> dist[q] == base + (if q in links then share else 0.0);
      SumAffine(dist, keys, base, share, links);
      SharesAddUp(1.0 - damping, n);
      SharesAddUp(damping, |links|);
      assert Sum(dist, keys) == (1.0 - damping) + damping;
    } else {
      assert dist.Keys == keys;
      SumAffine(dist, keys, 1.0 / (n as real), 0.0, {});
      SharesAddUp(1.0, n);
      assert Sum(dist, keys) == 1.0 + Times(0.0, 0);
    }
  }

  /** For a damping factor in [0, 1] every value is a probability. */
  lemma TransitionIsProbability(corpus: Corpus, page: Page, damping: real)
    requires page in corpus && 0.0 <= damping <= 1.0
    ensures forall q :: q in Transition(corpus, page, damping) ==> 0.0 <= Transition(corpus, page, damping)[q] <= 1.0
  {
    var dist := Transition(corpus, page, damping);
    forall q | q in dist ensures 0.0 <= dist[q] {
    }
    TransitionSumsToOne(corpus, page, damping);
    SumNonNegative(dist, dist.Keys);
  }

  // ---------------------------------------------------------------------------------------
  // iterate_pagerank: initial ranks and normalisation

  /** Every page starts with rank 1/N; Python divides by zero on an empty corpus. */
  function InitialRanks(corpus: Corpus): (ranks: map<Page, real>)
    requires |corpus| > 0
    ensures ranks.Keys == corpus.Keys
  {
    map p | p in corpus :: 1.0 / (|corpus| as real)
  }

  /** The initial ranks are 1/N for every page and sum to 1. */
  lemma InitialRanksSumToOne(corpus: Corpus)
    requires |corpus| > 0
    ensures forall p :: p in corpus ==> InitialRanks(corpus)[p] == 1.0 / (|corpus| as real)
    ensures Total(InitialRanks(corpus)) == 1.0
  {
    assert |corpus.Keys| == |corpus|;
    SumAffine(InitialRanks(corpus), corpus.Keys, 1.0 / (|corpus| as real), 0.0, {});
    SharesAddUp(1.0, |corpus|);
  }

  /**
   * Divides every rank by the sum of the ranks. Python divides by zero when the ranks
   * are not empty and sum to zero.
   */
  method Normalise(ranks: map<Page, real>) returns (normalised: map<Page, real>)
    requires ranks == map[] || Total(ranks) != 0.0
    ensures normalised.Keys == ranks.Keys
    ensures forall p :: p in ranks ==> normalised[p] == ranks[p] / Total(ranks)
    ensures ranks != map[] ==> Total(normalised) == 1.0
    ensures (forall p :: p in ranks ==> ranks[p] >= 0.0) ==> forall p :: p in normalised ==> 0.0 <= normalised[p] <= 1.0
  {
    var sumPageranks := SumValues(ranks);
    normalised := map p | p in ranks :: ranks[p] / sumPageranks;
    assert normalised.Keys == ranks.Keys;
    if ranks != map[] {
      NormalisedSumsToOne(ranks, normalised);
      if forall p :: p in ranks ==> ranks[p] >= 0.0 {
        NormalisedAreProbabilities(ranks, normalised);
      }
    }
  }

  /** Python's `sum` over the ranks: adds the values up one page at a time. */
  method SumValues(ranks: map<Page, real>) returns (total: real)
    ensures total == Total(ranks)
  {
    total := 0.0;
    var rest := ranks.Keys;
    while rest != {}
      invariant rest <= ranks.Keys
      invariant total + Sum(ranks, rest) == Total(ranks)
      decreases rest
    {
      var k :| k in rest;
      SumRemove(ranks, rest, k);
      total := total + ranks[k];
      rest := rest - {k};
    }
  }

  /** Ranks divided by their sum add up to 1. */
  lemma NormalisedSumsToOne(ranks: map<Page, real>, normalised: map<Page, real>)
    requires ranks != map[] && Total(ranks) != 0.0
    requires normalised.Keys == ranks.Keys
    requires forall p :: p in ranks ==> normalised[p] == ranks[p] / Total(ranks)
    ensures Total(normalised) == 1.0
  {
    var t := Total(ranks);
    SumScale(ranks, normalised, ranks.Keys, t);
    assert Total(normalised) == t / t;
  }

  /** Non-negative ranks divided by their sum lie between 0 and 1. */
  lemma NormalisedAreProbabilities(ranks: map<Page, real>, normalised: map<Page, real>)
    requires Total(ranks) != 0.0 && forall p :: p in ranks ==> ranks[p] >= 0.0
    requires normalised.Keys == ranks.Keys
    requires forall p :: p in ranks ==> normalised[p] == ranks[p] / Total(ranks)
    ensures forall p :: p in normalised ==> 0.0 <= normalised[p] <= 1.0
  {
    var t := Total(ranks);
    SumNonNegative(ranks, ranks.Keys);
    forall p | p in normalised ensures 0.0 <= normalised[p] <= 1.0 {
      QuotientIsProbability(ranks[p], t);
    }
  }

  lemma QuotientIsProbability(x: real, t: real)
    requires 0.0 <= x <= t && t != 0.0
    ensures 0.0 <= x / t <= 1.0
  {
  }
}
