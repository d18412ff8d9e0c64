/** What text generation produces: the text it returns, character by
    character, as a function of the table, the window length, the initial
    text, the length bound and the stream of random draws. */
module Generation {
  import opened CharLists
  import opened Training

  /** Character `s[j]` is the one that a draw selects from the distribution of
      the `k` characters before it; the draw is number `j - off` of the stream. */
  ghost predicate SampledAt(m: Table, k: nat, s: string, j: nat, draws: nat -> real, off: nat)
  {
    && off <= j
    && k <= j < |s|
    && Window(s, j - k, k) in m
    && |m[Window(s, j - k, k)]| > 0
    && s[j] == Sample(m[Window(s, j - k, k)], draws(j - off))
  }

  /** `out` is what generation from `init` returns. When `init` is already at
      least `textLength` long, or shorter than a window, it is `init` itself.
      Otherwise it extends `init`; each added character is drawn, with the next
      draw of the stream, from the distribution of the window before it; and it
      stops either at length `textLength + k` or at the first window that is
      not in the table. */
  ghost predicate IsGeneration(m: Table, k: nat, init: string, textLength: int, draws: nat -> real, out: string)
    ensures IsGeneration(m, k, init, textLength, draws, out) ==>
      init <= out && (out == init || |init| < |out| <= textLength + k)
  {
    if |init| >= textLength || |init| < k then out == init
    else
      && init <= out
      && |out| <= textLength + k
      && (forall j :: |init| <= j < |out| ==> SampledAt(m, k, out, j, draws, |init|))
      && (|out| == textLength + k || Window(out, |out| - k, k) !in m)
  }

  /** Two texts that both extend `init` and whose added characters are both
      sampled as `IsGeneration` says agree on their first `n` characters. */
  lemma {:induction false} AgreeOnPrefix(m: Table, k: nat, init: string, draws: nat -> real,
                                         a: string, b: string, n: nat)
    requires |init| >= k && init <= a && init <= b && n <= |a| && n <= |b|
    requires forall j :: |init| <= j < |a| ==> SampledAt(m, k, a, j, draws, |init|)
    requires forall j :: |init| <= j < |b| ==> SampledAt(m, k, b, j, draws, |init|)
    ensures a[..n] == b[..n]
  {
    if n <= |init| {
      assert a[..n] == init[..n] == b[..n];
    } else {
      AgreeOnPrefix(m, k, init, draws, a, b, n - 1);
      var j := n - 1;
      assert SampledAt(m, k, a, j, draws, |init|) && SampledAt(m, k, b, j, draws, |init|);
      assert Window(a, j - k, k) == a[..j][j - k..] == b[..j][j - k..] == Window(b, j - k, k);
      assert a[..n] == a[..j] + [a[j]];
      assert b[..n] == b[..j] + [b[j]];
    }
  }

  /** Appending the character that the next draw selects from the distribution
      of the last window keeps every added character sampled. */
  lemma ExtendSampled(m: Table, k: nat, init: string, draws: nat -> real, s: string, c: char)
    requires |init| <= |s| && k <= |s|
    requires forall j :: |init| <= j < |s| ==> SampledAt(m, k, s, j, draws, |init|)
    requires Window(s, |s| - k, k) in m && |m[Window(s, |s| - k, k)]| > 0
    requires c == Sample(m[Window(s, |s| - k, k)], draws(|s| - |init|))
    ensures forall j :: |init| <= j < |s + [c]| ==> SampledAt(m, k, s + [c], j, draws, |init|)
  {
    var s' := s + [c];
    forall j | |init| <= j < |s'| ensures SampledAt(m, k, s', j, draws, |init|) {
      if j < |s| {
        assert SampledAt(m, k, s, j, draws, |init|);
        assert Window(s', j - k, k) == Window(s, j - k, k);
      } else {
        assert Window(s', j - k, k) == Window(s, |s| - k, k);
      }
    }
  }

  /** The window before a sampled character is a key of the table. */
  lemma SampledWindowIsKey(m: Table, k: nat, init: string, draws: nat -> real, s: string, j: nat)
    requires forall i :: |init| <= i < |s| ==> SampledAt(m, k, s, i, draws, |init|)
    requires |init| <= j < |s|
    ensures k <= j && Window(s, j - k, k) in m
  {
    assert SampledAt(m, k, s, j, draws, |init|);
  }

  /** Generation is deterministic: the same table, initial text, bound and
      draws admit exactly one result. */
  lemma GenerationIsUnique(m: Table, k: nat, init: string, textLength: int, draws: nat -> real,
                           a: string, b: string)
    requires IsGeneration(m, k, init, textLength, draws, a)
    requires IsGeneration(m, k, init, textLength, draws, b)
    ensures a == b
  {
    if !(|init| >= textLength || |init| < k) {
      if |a| < |b| {
        AgreeOnPrefix(m, k, init, draws, a, b, |a|);
        SampledWindowIsKey(m, k, init, draws, b, |a|);
        assert false;
      } else if |b| < |a| {
        AgreeOnPrefix(m, k, init, draws, a, b, |b|);
        SampledWindowIsKey(m, k, init, draws, a, |b|);
        assert false;
      } else {
        AgreeOnPrefix(m, k, init, draws, a, b, |a|);
        assert a == a[..|a|] && b == b[..|b|];
      }
    }
  }

  /** Every character generation adds has a record in the distribution of the
      window it was drawn from. */
  lemma GeneratedCharsAreRecorded(m: Table, k: nat, init: string, textLength: int,
                                  draws: nat -> real, out: string, j: nat)
    requires IsGeneration(m, k, init, textLength, draws, out)
    requires |init| <= j < |out|
    ensures k <= j && Window(out, j - k, k) in m
    ensures out[j] in Chars(m[Window(out, j - k, k)])
  {
    assert SampledAt(m, k, out, j, draws, |init|);
  }

  /** Every character generation adds follows its window somewhere in the
      corpus the table was trained on. */
  lemma GeneratedTransitionsOccurInCorpus(t: string, k: nat, init: string, textLength: int,
                                           draws: nat -> real, out: string, j: nat)
    requires IsGeneration(Trained(map[], t, k, Positions(t, k)), k, init, textLength, draws, out)
    requires |init| <= j < |out|
    ensures k <= j
    ensures exists i :: 0 <= i < Positions(t, k) && Window(t, i, k) == Window(out, j - k, k) && t[i + k] == out[j]
  {
    var m := Trained(map[], t, k, Positions(t, k));
    assert SampledAt(m, k, out, j, draws, |init|);
    var w := Window(out, j - k, k);
    TrainedFromEmpty(t, k, w, out[j]);
    FollowersWitness(t, k, w, out[j], Positions(t, k));
  }
}
