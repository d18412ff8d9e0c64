/** The per-window distribution of the Markov model: a list of character records
    kept in the order in which their characters were first seen. */
module CharLists {

  /** One record of a distribution: a character seen after some window, how many
      times it was seen there, and the probability and cumulative probability
      derived from those counts. */
  datatype CharData = CharData(chr: char, count: nat, p: real, cp: real)

  /** The sum of the counts of `l`, taken from the back so that a loop over
      prefixes can follow it. */
  function Total(l: seq<CharData>): nat
  {
    if l == [] then 0 else Total(l[..|l| - 1]) + l[|l| - 1].count
  }

  /** The characters that have a record in `l`. */
  function Chars(l: seq<CharData>): set<char>
  {
    set i | 0 <= i < |l| :: l[i].chr
  }

  /** No two records share a character. */
  ghost predicate DistinctChars(l: seq<CharData>)
  {
    forall i, j :: 0 <= i < j < |l| ==> l[i].chr != l[j].chr
  }

  /** Every record has been observed at least once. */
  ghost predicate PositiveCounts(l: seq<CharData>)
  {
    forall i :: 0 <= i < |l| ==> l[i].count > 0
  }

  /** The position of the first record for `c`, or `|l|` when there is none. */
  function IndexOf(l: seq<CharData>, c: char): (i: nat)
    ensures i <= |l|
    ensures i < |l| ==> l[i].chr == c
    ensures forall j :: 0 <= j < i ==> l[j].chr != c
  {
    if l == [] then 0 else if l[0].chr == c then 0 else 1 + IndexOf(l[1..], c)
  }

  /** The count recorded for `c`, zero when `c` has no record. */
  function CountOf(l: seq<CharData>, c: char): nat
  {
    var i := IndexOf(l, c);
    if i < |l| then l[i].count else 0
  }

  /** `List.update(c)`: increments the record for `c`, or appends a new record
      for `c` with count 1 when there is none. */
  function Update(l: seq<CharData>, c: char): seq<CharData>
  {
    var i := IndexOf(l, c);
    if i < |l| then l[i := l[i].(count := l[i].count + 1)] else l + [CharData(c, 1, 0.0, 0.0)]
  }

  /** The distribution `l` with every `p` and `cp` recomputed from the counts:
      `p` is the record's share of the total and `cp` the share of the records
      up to and including it. */
  function Probabilities(l: seq<CharData>): (r: seq<CharData>)
    requires l == [] || Total(l) > 0
    ensures |r| == |l|
  {
    seq(|l|, i requires 0 <= i < |l| =>
      CharData(l[i].chr, l[i].count,
               l[i].count as real / Total(l) as real,
               Total(l[..i + 1]) as real / Total(l) as real))
  }

  /** Record `i` of `l`, if there is one, holds the probabilities that the
      counts of `l` give it. */
  ghost predicate CurrentAt(l: seq<CharData>, i: int)
  {
    0 <= i < |l| && Total(l) > 0 ==>
      && l[i].p == l[i].count as real / Total(l) as real
      && l[i].cp == Total(l[..i + 1]) as real / Total(l) as real
  }

  /** Every record holds the probabilities its counts give. The trigger keeps
      the solver from unfolding every record; a proof names the one it needs. */
  ghost predicate ProbabilitiesCurrent(l: seq<CharData>)
  {
    forall i {:trigger CurrentAt(l, i)} :: CurrentAt(l, i)
  }

  /** The sum of the `p` fields of `l`. */
  function SumP(l: seq<CharData>): real
  {
    if l == [] then 0.0 else SumP(l[..|l| - 1]) + l[|l| - 1].p
  }

  /** The position of the first record whose cumulative probability exceeds
      `r`, or `|l|` when there is none. */
  function FirstAbove(l: seq<CharData>, r: real): (i: nat)
    ensures i <= |l|
    ensures i < |l| ==> l[i].cp > r
    ensures forall j :: 0 <= j < i ==> l[j].cp <= r
  {
    if l == [] then 0 else if l[0].cp > r then 0 else 1 + FirstAbove(l[1..], r)
  }

  /** The record a draw `r` selects: the first one whose cumulative probability
      exceeds `r`, falling back to the last record. */
  function SampleIndex(l: seq<CharData>, r: real): (i: nat)
    requires |l| > 0
    ensures i < |l|
    ensures i < |l| - 1 ==> l[i].cp > r
    ensures forall j :: 0 <= j < i ==> l[j].cp <= r
  {
    var f := FirstAbove(l, r);
    if f < |l| then f else |l| - 1
  }

  /** The character a draw `r` selects from `l`. */
  function Sample(l: seq<CharData>, r: real): (c: char)
    requires |l| > 0
    ensures c in Chars(l)
  {
    var i := SampleIndex(l, r);
    assert l[i].chr in Chars(l);
    l[i].chr
  }

  // ---------------------------------------------------------------------
  // Totals

  lemma TotalPrefixStep(l: seq<CharData>, i: nat)
    requires i < |l|
    ensures Total(l[..i + 1]) == Total(l[..i]) + l[i].count
  {
    assert l[..i + 1][..i] == l[..i];
  }

  lemma {:induction false} TotalPrefixMonotone(l: seq<CharData>, i: nat, j: nat)
    requires i <= j <= |l|
    ensures Total(l[..i]) <= Total(l[..j])
  {
    if i < j {
      TotalPrefixMonotone(l, i, j - 1);
      TotalPrefixStep(l, j - 1);
    }
  }

  /** Two lists with the same counts, position by position, have the same total. */
  lemma {:induction false} TotalSameCounts(a: seq<CharData>, b: seq<CharData>)
    requires |a| == |b|
    requires forall i :: 0 <= i < |a| ==> a[i].count == b[i].count
    ensures Total(a) == Total(b)
  {
    if a != [] {
      TotalSameCounts(a[..|a| - 1], b[..|b| - 1]);
    }
  }

  lemma {:induction false} TotalIncrementAt(l: seq<CharData>, i: nat)
    requires i < |l|
    ensures Total(l[i := l[i].(count := l[i].count + 1)]) == Total(l) + 1
  {
    var l' := l[i := l[i].(count := l[i].count + 1)];
    if i == |l| - 1 {
      assert l'[..|l'| - 1] == l[..|l| - 1];
    } else {
      var front := l[..|l| - 1];
      assert l'[..|l'| - 1] == front[i := front[i].(count := front[i].count + 1)];
      TotalIncrementAt(front, i);
    }
  }

  lemma TotalAppend(l: seq<CharData>, x: CharData)
    ensures Total(l + [x]) == Total(l) + x.count
  {
    assert (l + [x])[..|l|] == l;
  }

  // ---------------------------------------------------------------------
  // Looking up a character

  /** The conditions of `IndexOf`'s contract pin the index down. */
  lemma IndexOfUnique(l: seq<CharData>, c: char, i: nat)
    requires i <= |l|
    requires i < |l| ==> l[i].chr == c
    requires forall j :: 0 <= j < i ==> l[j].chr != c
    ensures IndexOf(l, c) == i
  {
  }

  /** Two lists with the same characters, position by position, find every
      character at the same index. */
  lemma IndexOfSameChars(a: seq<CharData>, b: seq<CharData>, c: char)
    requires |a| == |b|
    requires forall i :: 0 <= i < |a| ==> a[i].chr == b[i].chr
    ensures IndexOf(a, c) == IndexOf(b, c)
  {
    IndexOfUnique(b, c, IndexOf(a, c));
  }

  /** A character has a record exactly when `IndexOf` finds one. */
  lemma IndexOfFindsChars(l: seq<CharData>, c: char)
    ensures c in Chars(l) <==> IndexOf(l, c) < |l|
  {
    if c in Chars(l) {
      var k :| 0 <= k < |l| && l[k].chr == c;
      assert IndexOf(l, c) <= k;
    }
  }

  /** With positive counts, a character has a record exactly when its count is
      positive. */
  lemma CountOfPositive(l: seq<CharData>, c: char)
    requires PositiveCounts(l)
    ensures c in Chars(l) <==> CountOf(l, c) > 0
  {
    IndexOfFindsChars(l, c);
  }

  // ---------------------------------------------------------------------
  // What one observation does to a distribution

  /** Observing `c` raises the count of `c` by one and leaves every other
      character's count alone. */
  lemma UpdateCounts(l: seq<CharData>, c: char, d: char)
    ensures CountOf(Update(l, c), d) == CountOf(l, d) + (if d == c then 1 else 0)
  {
    var i := IndexOf(l, c);
    var r := Update(l, c);
    var k := IndexOf(l, d);
    if i < |l| {
      IndexOfUnique(r, d, k);
      if d != c && k < |l| {
        assert k != i;
      }
    } else if d == c {
      IndexOfUnique(r, d, |l|);
    } else if k < |l| {
      IndexOfUnique(r, d, k);
    } else {
      IndexOfUnique(r, d, |l| + 1);
    }
  }

  /** Observing a character adds exactly one to the total. */
  lemma UpdateTotal(l: seq<CharData>, c: char)
    ensures Total(Update(l, c)) == Total(l) + 1
  {
    var i := IndexOf(l, c);
    if i < |l| {
      TotalIncrementAt(l, i);
    } else {
      TotalAppend(l, CharData(c, 1, 0.0, 0.0));
    }
  }

  /** Observing `c` keeps the existing records in place, adds `c` to the set of
      characters (a new record goes last, with count 1), and keeps the
      distribution free of duplicates and of zero counts. */
  lemma UpdateShape(l: seq<CharData>, c: char)
    ensures var r := Update(l, c);
      && Chars(r) == Chars(l) + {c}
      && |r| == (if c in Chars(l) then |l| else |l| + 1)
      && (forall i :: 0 <= i < |l| ==> r[i].chr == l[i].chr)
      && (c !in Chars(l) ==> r[|l|].chr == c && r[|l|].count == 1)
      && (DistinctChars(l) ==> DistinctChars(r))
      && (PositiveCounts(l) ==> PositiveCounts(r))
  {
    var i := IndexOf(l, c);
    var r := Update(l, c);
    IndexOfFindsChars(l, c);
    if i < |l| {
      assert forall j :: 0 <= j < |l| ==> r[j].chr == l[j].chr;
      assert Chars(r) == Chars(l);
    } else {
      assert r == l + [CharData(c, 1, 0.0, 0.0)];
      assert Chars(r) == Chars(l) + {c} by {
        forall d | d in Chars(r) ensures d in Chars(l) + {c} {
          var k :| 0 <= k < |r| && r[k].chr == d;
          if k < |l| { assert l[k].chr == d; }
        }
        forall d | d in Chars(l) + {c} ensures d in Chars(r) {
          if d == c {
            assert r[|l|].chr == c;
          } else {
            var k :| 0 <= k < |l| && l[k].chr == d;
            assert r[k].chr == d;
          }
        }
      }
    }
  }

  // ---------------------------------------------------------------------
  // Probabilities

  /** Recomputing probabilities keeps every character and its count, so every
      character's recorded count is unchanged. */
  lemma ProbabilitiesKeepCounts(l: seq<CharData>, c: char)
    requires l == [] || Total(l) > 0
    ensures |Probabilities(l)| == |l|
    ensures Chars(Probabilities(l)) == Chars(l)
    ensures Total(Probabilities(l)) == Total(l)
    ensures CountOf(Probabilities(l), c) == CountOf(l, c)
  {
    var q := Probabilities(l);
    IndexOfSameChars(q, l, c);
    TotalSameCounts(q, l);
    assert forall i :: 0 <= i < |l| ==> q[i].chr == l[i].chr;
  }

  /** `p` and `cp` depend only on the counts, so recomputing twice changes
      nothing. */
  lemma ProbabilitiesIdempotent(l: seq<CharData>)
    requires l == [] || Total(l) > 0
    ensures Total(Probabilities(l)) == Total(l)
    ensures Probabilities(Probabilities(l)) == Probabilities(l)
  {
    var q := Probabilities(l);
    TotalSameCounts(q, l);
    forall i | 0 <= i <= |l| ensures Total(q[..i]) == Total(l[..i]) {
      TotalSameCounts(q[..i], l[..i]);
    }
  }

  /** The value of one recomputed record. */
  lemma ProbabilitiesAt(l: seq<CharData>, i: nat)
    requires Total(l) > 0 && i < |l|
    ensures |Probabilities(l)| == |l|
    ensures Probabilities(l)[i].chr == l[i].chr && Probabilities(l)[i].count == l[i].count
    ensures Probabilities(l)[i].p == l[i].count as real / Total(l) as real
    ensures Probabilities(l)[i].cp == Total(l[..i + 1]) as real / Total(l) as real
  {
  }

  /** A list's probabilities are current exactly when recomputing them
      changes nothing. */
  lemma CurrentIsFixpoint(l: seq<CharData>)
    requires Total(l) > 0
    ensures ProbabilitiesCurrent(l) <==> l == Probabilities(l)
  {
    var q := Probabilities(l);
    if ProbabilitiesCurrent(l) {
      forall i | 0 <= i < |l| ensures l[i] == q[i] {
        assert CurrentAt(l, i);
        ProbabilitiesAt(l, i);
      }
    }
    if l == q {
      forall i ensures CurrentAt(l, i) {
        if 0 <= i < |l| {
          ProbabilitiesAt(l, i);
        }
      }
    }
  }

  // Facts about dividing by a positive total.

  lemma DivAdd(a: real, c: real, t: real)
    requires t > 0.0
    ensures (a + c) / t == a / t + c / t
  {
  }

  lemma DivSelf(t: real)
    requires t > 0.0
    ensures t / t == 1.0
  {
  }

  lemma DivMonotone(a: real, b: real, t: real)
    requires t > 0.0 && a <= b
    ensures a / t <= b / t
  {
  }

  lemma DivUnit(a: real, t: real)
    requires t > 0.0 && 0.0 <= a <= t
    ensures 0.0 <= a / t <= 1.0
  {
    DivMonotone(a, t, t);
    DivMonotone(0.0, a, t);
  }

  /** Each `cp` is the inclusive prefix sum of the `p` fields: the first
      equals its `p`, every later one adds its `p` to the one before. */
  lemma CumulativeIsPrefixSum(l: seq<CharData>, i: nat)
    requires Total(l) > 0 && i < |l|
    ensures var q := Probabilities(l);
      q[i].cp == (if i == 0 then 0.0 else q[i - 1].cp) + q[i].p
  {
    if i == 0 {
      CumulativeFirst(l);
    } else {
      CumulativeStep(l, i);
    }
  }

  lemma CumulativeFirst(l: seq<CharData>)
    requires Total(l) > 0
    ensures Probabilities(l)[0].cp == Probabilities(l)[0].p
  {
    TotalPrefixStep(l, 0);
    assert l[..0] == [];
    ProbabilitiesAt(l, 0);
  }

  lemma CumulativeStep(l: seq<CharData>, i: nat)
    requires Total(l) > 0 && 0 < i < |l|
    ensures Probabilities(l)[i].cp == Probabilities(l)[i - 1].cp + Probabilities(l)[i].p
  {
    var q := Probabilities(l);
    ProbabilitiesAt(l, i);
    ProbabilitiesAt(l, i - 1);
    assert l[..i - 1 + 1] == l[..i];
    var t := Total(l) as real;
    var a := Total(l[..i]) as real;
    var c := l[i].count as real;
    TotalPrefixStep(l, i);
    assert Total(l[..i + 1]) as real == a + c;
    DivAdd(a, c, t);
  }

  /** Cumulative probabilities never decrease along the list. */
  lemma CumulativeMonotone(l: seq<CharData>, i: nat, j: nat)
    requires Total(l) > 0 && i <= j < |l|
    ensures Probabilities(l)[i].cp <= Probabilities(l)[j].cp
  {
    TotalPrefixMonotone(l, i + 1, j + 1);
    ProbabilitiesAt(l, i);
    ProbabilitiesAt(l, j);
    DivMonotone(Total(l[..i + 1]) as real, Total(l[..j + 1]) as real, Total(l) as real);
  }

  /** Every `p` and `cp` lies between 0 and 1. */
  lemma ProbabilitiesInUnitInterval(l: seq<CharData>, i: nat)
    requires Total(l) > 0 && i < |l|
    ensures 0.0 <= Probabilities(l)[i].p <= 1.0
    ensures 0.0 <= Probabilities(l)[i].cp <= 1.0
  {
    TotalPrefixMonotone(l, i + 1, |l|);
    TotalPrefixMonotone(l, i, |l|);
    TotalPrefixStep(l, i);
    assert l[..|l|] == l;
    ProbabilitiesAt(l, i);
    var t := Total(l) as real;
    DivUnit(l[i].count as real, t);
    DivUnit(Total(l[..i + 1]) as real, t);
  }

  /** The last cumulative probability is exactly 1. */
  lemma LastCumulativeIsOne(l: seq<CharData>)
    requires Total(l) > 0
    ensures |l| > 0 && Probabilities(l)[|l| - 1].cp == 1.0
  {
    assert l != [];
    ProbabilitiesAt(l, |l| - 1);
    assert l[..|l|] == l;
    DivSelf(Total(l) as real);
  }

  /** The probabilities of a distribution sum to exactly 1. */
  lemma SumOfProbabilitiesIsOne(l: seq<CharData>)
    requires Total(l) > 0
    ensures SumP(Probabilities(l)) == 1.0
  {
    var q := Probabilities(l);
    assert l != [];
    ProbabilitiesAt(l, 0);
    SumPPrefix(l, |l|);
    assert q[..|l|] == q;
    assert l[..|l|] == l;
    DivSelf(Total(l) as real);
  }

  lemma {:induction false} SumPPrefix(l: seq<CharData>, i: nat)
    requires Total(l) > 0 && i <= |l|
    ensures SumP(Probabilities(l)[..i]) == Total(l[..i]) as real / Total(l) as real
  {
    var q := Probabilities(l);
    if i == 0 {
      assert q[..0] == [] && l[..0] == [];
    } else {
      SumPPrefix(l, i - 1);
      assert q[..i][..i - 1] == q[..i - 1];
      TotalPrefixStep(l, i - 1);
      ProbabilitiesAt(l, i - 1);
      DivAdd(Total(l[..i - 1]) as real, l[i - 1].count as real, Total(l) as real);
    }
  }

  // ---------------------------------------------------------------------
  // Sampling

  /** With exact probabilities and a draw in [0, 1), some record's cumulative
      probability exceeds the draw, so the fallback to the last record is
      never taken. */
  lemma SampleNeverFallsBack(l: seq<CharData>, r: real)
    requires Total(l) > 0 && 0.0 <= r < 1.0
    ensures FirstAbove(Probabilities(l), r) < |l|
  {
    LastCumulativeIsOne(l);
  }

  /** A draw `r` in [0, 1) selects the record whose slice `[cp - p, cp)` of the
      unit interval holds `r`; the slice's width is the record's probability. */
  lemma SampleFallsInSlice(l: seq<CharData>, r: real)
    requires Total(l) > 0 && 0.0 <= r < 1.0
    ensures var q := Probabilities(l);
      var i := SampleIndex(q, r);
      i == FirstAbove(q, r) && q[i].cp - q[i].p <= r < q[i].cp
  {
    var q := Probabilities(l);
    SampleNeverFallsBack(l, r);
    var i := SampleIndex(q, r);
    CumulativeIsPrefixSum(l, i);
  }
}
