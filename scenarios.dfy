/** Concrete runs of the model: training on small corpora and what generation
    from the resulting tables must return. */
module Scenarios {
  import opened CharLists
  import opened Training
  import opened Generation

  /** Recording `c` after `w` in a fresh table gives `c` probability 1. */
  lemma ObserveFirst(w: string, c: char)
    ensures Observe(map[], w, c) == map[w := [CharData(c, 1, 1.0, 1.0)]]
  {
    var l := [CharData(c, 1, 0.0, 0.0)];
    assert Update(Lookup(map[], w), c) == l;
    assert l[..1] == l;
    ProbabilitiesAt(l, 0);
    var q := Probabilities(l);
    assert q[0] == CharData(c, 1, 1.0, 1.0);
    assert q == [CharData(c, 1, 1.0, 1.0)];
  }

  /** Recording `c` again after `w`, when `c` is all `w` has seen, keeps its
      probability at 1 and adds one to its count. */
  lemma ObserveAgain(w: string, c: char, n: nat)
    requires n >= 1
    ensures Observe(map[w := [CharData(c, n, 1.0, 1.0)]], w, c) == map[w := [CharData(c, n + 1, 1.0, 1.0)]]
  {
    var m := map[w := [CharData(c, n, 1.0, 1.0)]];
    var l := [CharData(c, n + 1, 1.0, 1.0)];
    assert Update(Lookup(m, w), c) == l;
    assert l[..1] == l;
    ProbabilitiesAt(l, 0);
    DivSelf((n + 1) as real);
    var q := Probabilities(l);
    assert q[0] == CharData(c, n + 1, 1.0, 1.0);
    assert q == l;
  }

  /** Training on a corpus that repeats one character `c` leaves one window,
      itself made of `c`, whose distribution is the single record of `c`
      with the number of steps as its count and probability 1. */
  lemma {:induction false} RepeatedCorpusTrainsOneRecord(t: string, c: char, k: nat, n: nat)
    requires forall i :: 0 <= i < |t| ==> t[i] == c
    requires 1 <= n <= Positions(t, k)
    ensures Trained(map[], t, k, n) == map[t[..k] := [CharData(c, n, 1.0, 1.0)]]
  {
    RepeatedWindow(t, c, k, n - 1);
    if n == 1 {
      ObserveFirst(t[..k], c);
    } else {
      RepeatedCorpusTrainsOneRecord(t, c, k, n - 1);
      ObserveAgain(t[..k], c, n - 1);
    }
  }

  /** In a corpus that repeats one character, every window is the first one
      and every character after a window is that character. */
  lemma RepeatedWindow(t: string, c: char, k: nat, i: nat)
    requires forall j :: 0 <= j < |t| ==> t[j] == c
    requires i < Positions(t, k)
    ensures Window(t, i, k) == t[..k] && t[i + k] == c
  {
    var w := Window(t, i, k);
    forall j | 0 <= j < k ensures w[j] == t[..k][j] {
      assert w[j] == t[i + j];
    }
  }

  /** Training on "aaaa" with windows of one character leaves one window,
      "a", whose distribution is the single record of 'a' with count 3 and
      probability 1. */
  lemma AaaaTrainsOneCertainRecord(t: string)
    requires t == "aaaa"
    ensures Trained(map[], t, 1, Positions(t, 1)) == map["a" := [CharData('a', 3, 1.0, 1.0)]]
  {
    assert Positions(t, 1) == 3;
    assert t[..1] == "a";
    RepeatedCorpusTrainsOneRecord(t, 'a', 1, 3);
  }

  /** A distribution with one record always samples that record. */
  lemma SingleRecordSample(l: seq<CharData>, r: real)
    requires |l| == 1
    ensures Sample(l, r) == l[0].chr
  {
  }

  /** Generating from "a" with a length bound of 4 on that table returns
      "aaaaa", whatever the draws: the loop runs until the text is the bound
      plus one window long, and every draw selects 'a'. */
  lemma AaaaGeneratesFiveLetters(t: string, draws: nat -> real, out: string)
    requires t == "aaaa"
    requires IsGeneration(Trained(map[], t, 1, Positions(t, 1)), 1, "a", 4, draws, out)
    ensures out == "aaaaa"
  {
    var m := Trained(map[], t, 1, Positions(t, 1));
    var l := [CharData('a', 3, 1.0, 1.0)];
    AaaaTrainsOneCertainRecord(t);
    assert m == map["a" := l];
    forall j | 0 <= j < |out| ensures out[j] == 'a' {
      if j >= 1 {
        assert SampledAt(m, 1, out, j, draws, 1);
        assert Window(out, j - 1, 1) == "a";
        SingleRecordSample(l, draws(j - 1));
      } else {
        assert out[0] == "a"[0];
      }
    }
    assert Window(out, |out| - 1, 1) in m by {
      assert Window(out, |out| - 1, 1) == "a";
    }
    assert |out| == 5;
  }

  /** Generation from an initial text whose last window the corpus never
      shows followed by a character returns the initial text unchanged. */
  lemma UnseenWindowGeneratesNothing(t: string, k: nat, init: string, textLength: int,
                                     draws: nat -> real, out: string)
    requires IsGeneration(Trained(map[], t, k, Positions(t, k)), k, init, textLength, draws, out)
    requires |init| >= k
    requires forall i :: 0 <= i < Positions(t, k) ==> Window(t, i, k) != Window(init, |init| - k, k)
    ensures out == init
  {
    var m := Trained(map[], t, k, Positions(t, k));
    var w := Window(init, |init| - k, k);
    TrainedKeys(map[], t, k, Positions(t, k), w);
    if |out| > |init| {
      assert Window(out, |init| - k, k) == w;
      SampledWindowIsKey(m, k, init, draws, out, |init|);
      assert false;
    }
    assert out == out[..|init|] == init;
  }

  /** Trained on "abcabcabc" with windows of three characters, generation
      from the unseen window "xyz" returns "xyz". */
  lemma AbcFromXyzGeneratesNothing(t: string, draws: nat -> real, out: string)
    requires t == "abcabcabc"
    requires IsGeneration(Trained(map[], t, 3, Positions(t, 3)), 3, "xyz", 10, draws, out)
    ensures out == "xyz"
  {
    forall i | 0 <= i < Positions(t, 3) ensures Window(t, i, 3) != Window("xyz", 0, 3) {
      assert i == 0 || i == 1 || i == 2 || i == 3 || i == 4 || i == 5;
      assert Window(t, i, 3)[0] == t[i];
    }
    UnseenWindowGeneratesNothing(t, 3, "xyz", 10, draws, out);
  }
}
