/** What training does to the model's table: the effect of each step of the
    scan over the corpus, and what the table holds once the scan is over. */
module Training {
  import opened CharLists

  /** The model's table: each window seen so far mapped to its distribution. */
  type Table = map<string, seq<CharData>>

  /** The `k` characters of `t` that start at position `i`. */
  function Window(t: string, i: nat, k: nat): string
    requires i + k <= |t|
  {
    t[i..i + k]
  }

  /** The distribution of `w`, or the empty list when `w` is not a key. */
  function Lookup(m: Table, w: string): seq<CharData>
  {
    if w in m then m[w] else []
  }

  /** How many window positions the training loop visits: every position that
      has at least one character after its window. */
  function Positions(t: string, k: nat): nat
  {
    if |t| > k then |t| - k else 0
  }

  /** One step of the training loop: record `c` after window `w` (creating the
      list when `w` is new) and recompute that list's probabilities. */
  function Observe(m: Table, w: string, c: char): Table
  {
    UpdateTotal(Lookup(m, w), c);
    m[w := Probabilities(Update(Lookup(m, w), c))]
  }

  /** The table after the first `n` steps of training on `t`, starting from `m`. */
  function Trained(m: Table, t: string, k: nat, n: nat): Table
    requires n <= Positions(t, k)
  {
    if n == 0 then m else Observe(Trained(m, t, k, n - 1), Window(t, n - 1, k), t[n - 1 + k])
  }

  /** Step `i` of the scan observes the character after window `i`. */
  lemma TrainedNext(m: Table, t: string, k: nat, i: nat)
    requires i < Positions(t, k)
    ensures Trained(m, t, k, i + 1) == Observe(Trained(m, t, k, i), Window(t, i, k), t[i + k])
  {
  }

  /** The number of positions `i < n` whose window is `w`. */
  function Occurrences(t: string, k: nat, w: string, n: nat): nat
    requires n <= Positions(t, k)
  {
    if n == 0 then 0
    else Occurrences(t, k, w, n - 1) + (if Window(t, n - 1, k) == w then 1 else 0)
  }

  /** The number of positions `i < n` whose window is `w` and whose next
      character is `c`. */
  function Followers(t: string, k: nat, w: string, c: char, n: nat): nat
    requires n <= Positions(t, k)
  {
    if n == 0 then 0
    else Followers(t, k, w, c, n - 1) + (if Window(t, n - 1, k) == w && t[n - 1 + k] == c then 1 else 0)
  }

  /** A well-formed distribution: non-empty, every count positive, no character
      twice, and its probabilities current with its counts. */
  ghost predicate ListInvariant(l: seq<CharData>)
  {
    && |l| > 0
    && Total(l) > 0
    && PositiveCounts(l)
    && DistinctChars(l)
    && ProbabilitiesCurrent(l)
  }

  /** When `w` is a key, it is a window of length `k` with a well-formed
      distribution. */
  ghost predicate EntryInvariant(m: Table, k: nat, w: string)
  {
    w in m ==> |w| == k && ListInvariant(m[w])
  }

  /** A well-formed table: every key is a window of length `k` and every
      distribution is well formed. The trigger keeps the solver from unfolding
      every entry; a proof names the entry it needs. */
  ghost predicate TableInvariant(m: Table, k: nat)
  {
    forall w {:trigger EntryInvariant(m, k, w)} :: EntryInvariant(m, k, w)
  }

  // ---------------------------------------------------------------------
  // One step

  /** The table with an empty list put for `w` when `w` is not yet a key. */
  function PutIfAbsent(m: Table, w: string): (r: Table)
    ensures w in r && r[w] == Lookup(m, w)
  {
    if w in m then m else m[w := []]
  }

  /** The put touches no other entry: the keys gain `w` and every existing
      entry, `w`'s included, keeps its list. */
  lemma PutIfAbsentFrame(m: Table, w: string)
    ensures PutIfAbsent(m, w).Keys == m.Keys + {w}
    ensures forall v :: v in m ==> PutIfAbsent(m, w)[v] == m[v]
  {
  }

  /** One step touches only the entry of `w`: the keys gain `w` and every
      other window keeps its list. */
  lemma ObserveFrame(m: Table, w: string, c: char)
    ensures Observe(m, w, c).Keys == m.Keys + {w}
    ensures forall v :: v != w ==> Lookup(Observe(m, w, c), v) == Lookup(m, v)
  {
  }

  /** One step as the source performs it: put an empty list for a new window,
      then store that window's updated list with its probabilities
      recomputed. */
  lemma ObserveByPut(m: Table, w: string, c: char)
    ensures Total(Update(PutIfAbsent(m, w)[w], c)) > 0
    ensures Observe(m, w, c) == PutIfAbsent(m, w)[w := Probabilities(Update(PutIfAbsent(m, w)[w], c))]
  {
    UpdateTotal(Lookup(m, w), c);
    if w !in m {
      assert m[w := []][w := Probabilities(Update([], c))] == m[w := Probabilities(Update([], c))];
    }
  }

  /** One step adds one observation of `c` to the distribution of `w` and
      changes no other count. */
  lemma ObserveCounts(m: Table, w: string, c: char, w': string, c': char)
    ensures CountOf(Lookup(Observe(m, w, c), w'), c') ==
            CountOf(Lookup(m, w'), c') + (if w' == w && c' == c then 1 else 0)
  {
    if w' == w {
      var u := Update(Lookup(m, w), c);
      UpdateTotal(Lookup(m, w), c);
      UpdateCounts(Lookup(m, w), c, c');
      ProbabilitiesKeepCounts(u, c');
    }
  }

  /** One step adds one to the total of `w`'s distribution and changes no
      other total. */
  lemma ObserveTotals(m: Table, w: string, c: char, w': string)
    ensures Total(Lookup(Observe(m, w, c), w')) == Total(Lookup(m, w')) + (if w' == w then 1 else 0)
  {
    if w' == w {
      var u := Update(Lookup(m, w), c);
      UpdateTotal(Lookup(m, w), c);
      ProbabilitiesKeepCounts(u, c);
    }
  }

  /** Recomputing the probabilities of a non-empty list with positive counts
      and distinct characters gives a well-formed distribution. */
  lemma ProbabilitiesWellFormed(u: seq<CharData>)
    requires |u| > 0 && Total(u) > 0 && PositiveCounts(u) && DistinctChars(u)
    ensures ListInvariant(Probabilities(u))
  {
    var q := Probabilities(u);
    ProbabilitiesIdempotent(u);
    CurrentIsFixpoint(q);
    forall i | 0 <= i < |u| ensures q[i].chr == u[i].chr && q[i].count == u[i].count {
      ProbabilitiesAt(u, i);
    }
  }

  /** Recording an observation in an empty or well-formed distribution and
      recomputing its probabilities gives a well-formed distribution. */
  lemma UpdatedListInvariant(l: seq<CharData>, c: char)
    requires l == [] || ListInvariant(l)
    ensures Total(Update(l, c)) > 0 && ListInvariant(Probabilities(Update(l, c)))
  {
    UpdateTotal(l, c);
    UpdateShape(l, c);
    ProbabilitiesWellFormed(Update(l, c));
  }

  /** One step with a window of length `k` keeps the table well formed. */
  lemma ObserveInvariant(m: Table, k: nat, w: string, c: char)
    requires TableInvariant(m, k) && |w| == k
    ensures TableInvariant(Observe(m, w, c), k)
  {
    assert EntryInvariant(m, k, w);
    UpdatedListInvariant(Lookup(m, w), c);
    var u := Probabilities(Update(Lookup(m, w), c));
    assert ListInvariant(u);
    var m' := Observe(m, w, c);
    assert m' == m[w := u];
    forall w' ensures EntryInvariant(m', k, w') {
      if w' == w {
        assert m'[w] == u;
      } else {
        assert EntryInvariant(m, k, w');
        if w' in m' {
          assert m'[w'] == m[w'];
        }
      }
    }
  }

  /** Every distribution of a well-formed table samples as its counts say: a
      draw `r` in [0, 1) selects, without falling back, the record whose slice
      `[cp - p, cp)` of the unit interval holds `r`, and the slice's width is
      that record's share of the total count. */
  lemma TableSampleFallsInSlice(m: Table, k: nat, w: string, r: real)
    requires TableInvariant(m, k) && w in m && 0.0 <= r < 1.0
    ensures |m[w]| > 0 && Total(m[w]) > 0
    ensures var l := m[w];
      var i := SampleIndex(l, r);
      && i == FirstAbove(l, r)
      && l[i].cp - l[i].p <= r < l[i].cp
      && l[i].p == l[i].count as real / Total(l) as real
      && Sample(l, r) == l[i].chr
  {
    assert EntryInvariant(m, k, w);
    var l := m[w];
    CurrentIsFixpoint(l);
    assert Probabilities(l) == l;
    SampleFallsInSlice(l, r);
    ProbabilitiesAt(l, SampleIndex(l, r));
  }

  // ---------------------------------------------------------------------
  // The whole scan

  /** The keys after training are the keys before it together with every
      window the scan visited. */
  lemma {:induction false} TrainedKeys(m: Table, t: string, k: nat, n: nat, w: string)
    requires n <= Positions(t, k)
    ensures w in Trained(m, t, k, n) <==> w in m || exists i :: 0 <= i < n && Window(t, i, k) == w
  {
    if n > 0 {
      TrainedKeys(m, t, k, n - 1, w);
      if w in Trained(m, t, k, n) && w !in Trained(m, t, k, n - 1) {
        assert Window(t, n - 1, k) == w;
      }
      if exists i :: 0 <= i < n && Window(t, i, k) == w {
        var i :| 0 <= i < n && Window(t, i, k) == w;
        if i == n - 1 {
          assert w in Trained(m, t, k, n);
        }
      }
    }
  }

  /** Count conservation, per character: training adds one to the count of
      `c` in `w`'s distribution for every position where `w` is followed by `c`. */
  lemma {:induction false} TrainedCounts(m: Table, t: string, k: nat, n: nat, w: string, c: char)
    requires n <= Positions(t, k)
    ensures CountOf(Lookup(Trained(m, t, k, n), w), c) == CountOf(Lookup(m, w), c) + Followers(t, k, w, c, n)
  {
    if n > 0 {
      TrainedCounts(m, t, k, n - 1, w, c);
      ExtendCounts(m, t, k, n, w, c);
    }
  }

  /** The inductive step of `TrainedCounts`: conservation up to step `n - 1`
      carries over to step `n`. */
  lemma ExtendCounts(m: Table, t: string, k: nat, n: nat, w: string, c: char)
    requires 0 < n <= Positions(t, k)
    requires CountOf(Lookup(Trained(m, t, k, n - 1), w), c) == CountOf(Lookup(m, w), c) + Followers(t, k, w, c, n - 1)
    ensures CountOf(Lookup(Trained(m, t, k, n), w), c) == CountOf(Lookup(m, w), c) + Followers(t, k, w, c, n)
  {
    var d := if Window(t, n - 1, k) == w && t[n - 1 + k] == c then 1 else 0;
    TrainedStepCounts(m, t, k, n, w, c);
    AddSteps(CountOf(Lookup(Trained(m, t, k, n), w), c), CountOf(Lookup(Trained(m, t, k, n - 1), w), c),
             CountOf(Lookup(m, w), c), Followers(t, k, w, c, n), Followers(t, k, w, c, n - 1), d);
  }

  /** Adding the same step to a running count and to its reference keeps
      them apart by the same base. */
  lemma AddSteps(after: int, before: int, base: int, steps: int, earlier: int, d: int)
    requires after == before + d && before == base + earlier && steps == earlier + d
    ensures after == base + steps
  {
  }

  /** Count conservation, per window: training adds one to the total of `w`'s
      distribution for every position of `w` that has a character after it. */
  lemma {:induction false} TrainedTotals(m: Table, t: string, k: nat, n: nat, w: string)
    requires n <= Positions(t, k)
    ensures Total(Lookup(Trained(m, t, k, n), w)) == Total(Lookup(m, w)) + Occurrences(t, k, w, n)
  {
    if n > 0 {
      TrainedTotals(m, t, k, n - 1, w);
      ExtendTotals(m, t, k, n, w);
    }
  }

  /** The inductive step of `TrainedTotals`: conservation up to step `n - 1`
      carries over to step `n`. */
  lemma ExtendTotals(m: Table, t: string, k: nat, n: nat, w: string)
    requires 0 < n <= Positions(t, k)
    requires Total(Lookup(Trained(m, t, k, n - 1), w)) == Total(Lookup(m, w)) + Occurrences(t, k, w, n - 1)
    ensures Total(Lookup(Trained(m, t, k, n), w)) == Total(Lookup(m, w)) + Occurrences(t, k, w, n)
  {
    var d := if Window(t, n - 1, k) == w then 1 else 0;
    TrainedStepTotals(m, t, k, n, w);
    AddSteps(Total(Lookup(Trained(m, t, k, n), w)), Total(Lookup(Trained(m, t, k, n - 1), w)),
             Total(Lookup(m, w)), Occurrences(t, k, w, n), Occurrences(t, k, w, n - 1), d);
  }

  /** Step `n` adds one to the count of the character after window `n - 1`
      in that window's distribution. */
  lemma TrainedStepCounts(m: Table, t: string, k: nat, n: nat, w: string, c: char)
    requires 0 < n <= Positions(t, k)
    ensures CountOf(Lookup(Trained(m, t, k, n), w), c) ==
            CountOf(Lookup(Trained(m, t, k, n - 1), w), c) + (if Window(t, n - 1, k) == w && t[n - 1 + k] == c then 1 else 0)
  {
    ObserveCounts(Trained(m, t, k, n - 1), Window(t, n - 1, k), t[n - 1 + k], w, c);
  }

  /** Step `n` adds one to the total of window `n - 1`'s distribution. */
  lemma TrainedStepTotals(m: Table, t: string, k: nat, n: nat, w: string)
    requires 0 < n <= Positions(t, k)
    ensures Total(Lookup(Trained(m, t, k, n), w)) ==
            Total(Lookup(Trained(m, t, k, n - 1), w)) + (if Window(t, n - 1, k) == w then 1 else 0)
  {
    ObserveTotals(Trained(m, t, k, n - 1), Window(t, n - 1, k), t[n - 1 + k], w);
  }

  /** Training keeps the table well formed. */
  lemma {:induction false} TrainedInvariant(m: Table, t: string, k: nat, n: nat)
    requires n <= Positions(t, k) && TableInvariant(m, k)
    ensures TableInvariant(Trained(m, t, k, n), k)
  {
    if n > 0 {
      TrainedInvariant(m, t, k, n - 1);
      TrainedStepInvariant(m, t, k, n);
    }
  }

  /** The step from `n - 1` to `n` keeps the table well formed. */
  lemma TrainedStepInvariant(m: Table, t: string, k: nat, n: nat)
    requires 0 < n <= Positions(t, k) && TableInvariant(Trained(m, t, k, n - 1), k)
    ensures TableInvariant(Trained(m, t, k, n), k)
  {
    var prev := Trained(m, t, k, n - 1);
    ObserveInvariant(prev, k, Window(t, n - 1, k), t[n - 1 + k]);
  }

  /** A corpus no longer than the window gives the loop nothing to do. */
  lemma ShortCorpusTrainsNothing(m: Table, t: string, k: nat)
    requires |t| <= k
    ensures Trained(m, t, k, Positions(t, k)) == m
  {
  }

  /** Training a fresh model on `t`: the keys are exactly the windows of `t`
      that have a character after them, each of length `k` and with a
      well-formed distribution; the count of `c` in `w`'s distribution is the
      number of times `w` is followed by `c` in `t`, its total the number of
      times `w` occurs with a character after it, and `c` has a record exactly
      when it follows `w` somewhere. */
  lemma TrainedFromEmpty(t: string, k: nat, w: string, c: char)
    ensures var m := Trained(map[], t, k, Positions(t, k));
      && (w in m <==> exists i :: 0 <= i < Positions(t, k) && Window(t, i, k) == w)
      && (w in m ==> |w| == k && ListInvariant(m[w]))
      && CountOf(Lookup(m, w), c) == Followers(t, k, w, c, Positions(t, k))
      && Total(Lookup(m, w)) == Occurrences(t, k, w, Positions(t, k))
      && (w in m ==> (c in Chars(m[w]) <==> Followers(t, k, w, c, Positions(t, k)) > 0))
  {
    var n := Positions(t, k);
    var m := Trained(map[], t, k, n);
    TrainedKeys(map[], t, k, n, w);
    TrainedCounts(map[], t, k, n, w, c);
    TrainedTotals(map[], t, k, n, w);
    TrainedInvariant(map[], t, k, n);
    assert EntryInvariant(m, k, w);
    if w in m {
      CountOfPositive(m[w], c);
    }
  }

  /** A positive follower count names a position of the corpus. */
  lemma {:induction false} FollowersWitness(t: string, k: nat, w: string, c: char, n: nat)
    requires n <= Positions(t, k) && Followers(t, k, w, c, n) > 0
    ensures exists i :: 0 <= i < n && Window(t, i, k) == w && t[i + k] == c
  {
    if Window(t, n - 1, k) == w && t[n - 1 + k] == c {
      assert Window(t, n - 1, k) == w && t[n - 1 + k] == c;
    } else {
      FollowersWitness(t, k, w, c, n - 1);
    }
  }
}
