/** What the block cache's LRU order means, as a sequence with the most recent entry first. */
module Lru {
  import opened LogStore

  datatype Entry = Entry(key: BlockId, size: nat)

  function Total(es: seq<Entry>): nat {
    if es == [] then 0 else Total(es[..|es| - 1]) + es[|es| - 1].size
  }

  ghost predicate DistinctKeys(es: seq<Entry>) {
    forall i, j | 0 <= i < j < |es| :: es[i].key != es[j].key
  }

  function Without(es: seq<Entry>, k: BlockId): seq<Entry> {
    if es == [] then []
    else Without(es[..|es| - 1], k) + if es[|es| - 1].key == k then [] else [es[|es| - 1]]
  }

  /** Entries are dropped from the end until the rest fits. */
  function Fit(es: seq<Entry>, budget: nat): seq<Entry> {
    if Total(es) <= budget then es else Fit(es[..|es| - 1], budget)
  }

  /** The order after using an entry. */
  function Use(es: seq<Entry>, e: Entry, cap: nat): seq<Entry>
    requires e.size <= cap
  {
    [e] + Fit(Without(es, e.key), cap - e.size)
  }

  /** The entries that using e pushes out, in list order. */
  function Evicted(es: seq<Entry>, e: Entry, cap: nat): seq<Entry>
    requires e.size <= cap
  {
    FitIsPrefix(Without(es, e.key), cap - e.size);
    Without(es, e.key)[|Fit(Without(es, e.key), cap - e.size)|..]
  }

  // ---- sums and prefixes

  lemma {:induction false} TotalConcat(a: seq<Entry>, b: seq<Entry>)
    ensures Total(a + b) == Total(a) + Total(b)
    decreases |b|
  {
    if b == [] {
      assert a + b == a;
    } else {
      var n := |b| - 1;
      TotalConcat(a, b[..n]);
      assert (a + b)[..|a + b| - 1] == a + b[..n];
    }
  }

  lemma TotalOfPrefix(es: seq<Entry>, i: nat)
    requires i <= |es|
    ensures Total(es[..i]) <= Total(es)
  {
    TotalConcat(es[..i], es[i..]);
    assert es == es[..i] + es[i..];
  }

  lemma {:induction false} FitIsPrefix(es: seq<Entry>, budget: nat)
    ensures Fit(es, budget) <= es && Total(Fit(es, budget)) <= budget
    decreases |es|
  {
    if Total(es) > budget { FitIsPrefix(es[..|es| - 1], budget); }
  }

  /** What stays is the longest prefix that fits. */
  lemma {:induction false} FitIsLongest(es: seq<Entry>, budget: nat, n: nat)
    requires n <= |es|
    ensures Total(es[..n]) <= budget <==> n <= |Fit(es, budget)|
    decreases |es|
  {
    FitIsPrefix(es, budget);
    if Total(es) <= budget {
      TotalOfPrefix(es, n);
    } else if n == |es| {
      assert es[..n] == es;
      FitIsPrefix(es[..|es| - 1], budget);
    } else {
      var front := es[..|es| - 1];
      FitIsLongest(front, budget, n);
      assert front[..n] == es[..n];
    }
  }

  // ---- using an entry

  lemma {:induction false} WithoutKeys(es: seq<Entry>, k: BlockId)
    requires DistinctKeys(es)
    ensures DistinctKeys(Without(es, k))
    ensures forall e :: e in Without(es, k) <==> e in es && e.key != k
    decreases |es|
  {
    if es != [] {
      var n := |es| - 1;
      WithoutKeys(es[..n], k);
      assert es == es[..n] + [es[n]];
      assert forall e | e in es[..n] :: e.key != es[n].key;
    }
  }

  /** Removing the entry at position i. */
  lemma {:induction false} WithoutAt(es: seq<Entry>, i: nat)
    requires DistinctKeys(es) && i < |es|
    ensures Without(es, es[i].key) == es[..i] + es[i + 1..]
    decreases |es|
  {
    var n := |es| - 1;
    if i < n {
      WithoutAt(es[..n], i);
      assert es[..n][..i] + es[..n][i + 1..] + [es[n]] == es[..i] + es[i + 1..];
    } else {
      WithoutAbsent(es[..n], es[i].key);
      assert es[..n] == es[..i] + es[i + 1..];
    }
  }

  lemma {:induction false} WithoutAbsent(es: seq<Entry>, k: BlockId)
    requires forall e | e in es :: e.key != k
    ensures Without(es, k) == es
    decreases |es|
  {
    if es != [] {
      var front, last := es[..|es| - 1], es[|es| - 1];
      assert last in es;
      forall e | e in front ensures e.key != k { assert e in es; }
      WithoutAbsent(front, k);
      assert es == front + [last];
    }
  }

  /** Keys stay distinct and the budget is kept. */
  lemma UseKeepsOrder(es: seq<Entry>, e: Entry, cap: nat)
    requires DistinctKeys(es) && e.size <= cap
    ensures DistinctKeys(Use(es, e, cap)) && Total(Use(es, e, cap)) <= cap
  {
    hide Fit, Without;
    var rest := Without(es, e.key);
    WithoutKeys(es, e.key);
    FitIsPrefix(rest, cap - e.size);
    TotalConcat([e], Fit(rest, cap - e.size));
    assert Total([e]) == e.size by { assert [e][..0] == []; }
    assert forall x | x in Fit(rest, cap - e.size) :: x in rest;
  }

  /** A use puts its entry in front and keeps as many of the others, in their old order, as the capacity allows; what
      it pushes out is the rest of them. */
  lemma UseIsLongest(es: seq<Entry>, e: Entry, cap: nat, n: nat)
    requires e.size <= cap && n <= |Without(es, e.key)|
    ensures var r, others := Use(es, e, cap), Without(es, e.key);
            && r != [] && r[0] == e && others == r[1..] + Evicted(es, e, cap)
            && (e.size + Total(others[..n]) <= cap <==> n < |r|)
  {
    hide Fit, Without, Total;
    var others := Without(es, e.key);
    FitIsPrefix(others, cap - e.size);
    FitIsLongest(others, cap - e.size, n);
  }

  // ---- whole runs

  predicate AllFit(uses: seq<Entry>, cap: nat) { forall e | e in uses :: e.size <= cap }

  /** The order after a run of uses on an empty cache. */
  function UseAll(uses: seq<Entry>, cap: nat): seq<Entry>
    requires AllFit(uses, cap)
  {
    if uses == [] then [] else Use(UseAll(uses[..|uses| - 1], cap), uses[|uses| - 1], cap)
  }

  /** The distinct keys of a run, most recently used first, with their latest sizes. */
  function Recency(uses: seq<Entry>): seq<Entry> {
    if uses == [] then []
    else var e := uses[|uses| - 1]; [e] + Without(Recency(uses[..|uses| - 1]), e.key)
  }

  /** One more than the index of the last use of k, or 0. */
  function LastUse(uses: seq<Entry>, k: BlockId): (n: nat)
    ensures n <= |uses| && (n > 0 ==> uses[n - 1].key == k) && forall j | n <= j < |uses| :: uses[j].key != k
  {
    if uses == [] then 0 else if uses[|uses| - 1].key == k then |uses| else LastUse(uses[..|uses| - 1], k)
  }

  lemma {:induction false} WithoutPrefix(a: seq<Entry>, b: seq<Entry>, k: BlockId)
    requires a <= b
    ensures Without(a, k) <= Without(b, k)
    decreases |b|
  {
    if |a| < |b| {
      WithoutPrefix(a, b[..|b| - 1], k);
    } else {
      assert a == b;
    }
  }

  /** After any run the cache holds exactly a prefix of the recency order of the run. */
  lemma {:induction false} CacheIsRecencyPrefix(uses: seq<Entry>, cap: nat)
    requires AllFit(uses, cap)
    ensures UseAll(uses, cap) <= Recency(uses)
    ensures DistinctKeys(UseAll(uses, cap)) && Total(UseAll(uses, cap)) <= cap
    decreases |uses|
  {
    hide Fit, Without;
    if uses != [] {
      var e, before := uses[|uses| - 1], UseAll(uses[..|uses| - 1], cap);
      CacheIsRecencyPrefix(uses[..|uses| - 1], cap);
      WithoutPrefix(before, Recency(uses[..|uses| - 1]), e.key);
      FitIsPrefix(Without(before, e.key), cap - e.size);
      UseKeepsOrder(before, e, cap);
    }
  }

  lemma LastUseStep(uses: seq<Entry>, k: BlockId)
    requires uses != []
    ensures var n := |uses| - 1; LastUse(uses, k) == if uses[n].key == k then |uses| else LastUse(uses[..n], k)
  {
  }

  /** e is the last use of its key. */
  ghost predicate IsLatest(uses: seq<Entry>, e: Entry) {
    LastUse(uses, e.key) > 0 && uses[LastUse(uses, e.key) - 1] == e
  }

  lemma LatestStep(uses: seq<Entry>, e: Entry)
    requires uses != []
    ensures var n := |uses| - 1; IsLatest(uses, e) <==> if uses[n].key == e.key then uses[n] == e else IsLatest(uses[..n], e)
  {
    LastUseStep(uses, e.key);
  }

  /** The recency order lists exactly the used keys, each once, with the size of its last use ... */
  lemma {:induction false} RecencyMembers(uses: seq<Entry>)
    ensures DistinctKeys(Recency(uses))
    ensures forall e :: e in Recency(uses) <==> IsLatest(uses, e)
    decreases |uses|
  {
    hide Without;
    if uses == [] {
      assert Recency(uses) == [];
    } else {
      hide IsLatest;
      var before, last := uses[..|uses| - 1], uses[|uses| - 1];
      RecencyMembers(before);
      WithoutKeys(Recency(before), last.key);
      forall e ensures e in Recency(uses) <==> IsLatest(uses, e) { LatestStep(uses, e); }
    }
  }

  ghost predicate ByLastUse(uses: seq<Entry>, r: seq<Entry>) {
    forall i, j | 0 <= i < j < |r| :: LastUse(uses, r[i].key) > LastUse(uses, r[j].key)
  }

  /** ... sorted by that last use, the most recent first. */
  lemma {:induction false} RecencySorted(uses: seq<Entry>)
    ensures ByLastUse(uses, Recency(uses))
    decreases |uses|
  {
    hide Without, LastUse;
    if uses != [] {
      var before, last := uses[..|uses| - 1], uses[|uses| - 1];
      var w := Without(Recency(before), last.key);
      RecencySorted(before);
      RecencyMembers(before);
      WithoutKeys(Recency(before), last.key);
      WithoutSorted(before, Recency(before), last.key);
      LastUseStep(uses, last.key);
      forall i | 0 <= i < |w| ensures LastUse(uses, w[i].key) == LastUse(before, w[i].key) {
        assert w[i] in w;
        LastUseStep(uses, w[i].key);
      }
      assert Recency(uses) == [last] + w;
    }
  }

  lemma WithoutSorted(uses: seq<Entry>, r: seq<Entry>, k: BlockId)
    requires DistinctKeys(r) && ByLastUse(uses, r)
    ensures ByLastUse(uses, Without(r, k))
  {
    hide LastUse, Without;
    if i :| 0 <= i < |r| && r[i].key == k { WithoutAt(r, i); } else { WithoutAbsent(r, k); }
  }
}
