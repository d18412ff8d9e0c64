/** The language model object: its window length and its table, trained in
    place on a corpus and used to generate text. */
module Markov {
  import opened CharLists
  import opened Training
  import opened Generation

  class LanguageModel {
    /** Maps each window seen in training to the distribution of the
        characters that followed it. */
    var charDataMap: Table
    /** The order of the model: the length of every window. */
    const windowLength: nat

    /** The object invariant: every key is a window of `windowLength`
        characters with a well-formed distribution. */
    ghost predicate Valid()
      reads this
    {
      TableInvariant(charDataMap, windowLength)
    }

    /** A model with the given window length and an empty table. */
    constructor (windowLength: nat)
      ensures Valid()
      ensures this.windowLength == windowLength && charDataMap == map[]
    {
      this.windowLength := windowLength;
      charDataMap := map[];
      new;
      assert forall w :: EntryInvariant(charDataMap, windowLength, w);
    }

    /** Scans `txt` once, recording for every window the character after it
        and recomputing that window's probabilities. */
    method Train(txt: string)
      requires Valid()
      modifies this
      ensures Valid()
      ensures charDataMap == Trained(old(charDataMap), txt, windowLength, Positions(txt, windowLength))
      ensures |txt| <= windowLength ==> charDataMap == old(charDataMap)
    {
      ghost var start := charDataMap;
      var i := 0;
      while i < |txt| - windowLength
        invariant 0 <= i <= Positions(txt, windowLength)
        invariant charDataMap == Trained(start, txt, windowLength, i)
      {
        ghost var before := charDataMap;
        var key := txt[i..i + windowLength];
        var next := txt[i + windowLength];
        if key !in charDataMap {
          charDataMap := charDataMap[key := []];
        }
        assert charDataMap == PutIfAbsent(before, key);
        ObserveByPut(before, key, next);
        TrainedNext(start, txt, windowLength, i);
        var probs := CalculateProbabilities(Update(charDataMap[key], next));
        charDataMap := charDataMap[key := probs];
        i := i + 1;
      }
      assert i == Positions(txt, windowLength);
      TrainedInvariant(start, txt, windowLength, i);
    }

    /** Sums the counts of `probs`, then sets every record's `p` to its share
        of the total and its `cp` to the running sum of the `p` so far. */
    method CalculateProbabilities(probs: seq<CharData>) returns (r: seq<CharData>)
      requires probs == [] || Total(probs) > 0
      ensures r == Probabilities(probs)
      ensures |probs| > 0 ==> r[|r| - 1].cp == 1.0
    {
      var total := 0;
      var i := 0;
      while i < |probs|
        invariant 0 <= i <= |probs|
        invariant total == Total(probs[..i])
      {
        TotalPrefixStep(probs, i);
        total := total + probs[i].count;
        i := i + 1;
      }
      assert probs[..|probs|] == probs;
      var cp := 0.0;
      r := probs;
      i := 0;
      while i < |r|
        invariant 0 <= i <= |r| == |probs|
        invariant forall j :: 0 <= j < i ==> r[j] == Probabilities(probs)[j]
        invariant forall j :: i <= j < |r| ==> r[j] == probs[j]
        invariant total > 0 ==> cp == Total(probs[..i]) as real / total as real
      {
        var p := r[i].count as real / total as real;
        TotalPrefixStep(probs, i);
        DivAdd(Total(probs[..i]) as real, probs[i].count as real, total as real);
        ProbabilitiesAt(probs, i);
        cp := cp + p;
        r := r[i := r[i].(p := p, cp := cp)];
        i := i + 1;
      }
      if |probs| > 0 {
        LastCumulativeIsOne(probs);
      }
    }

    /** Returns the character of the first record whose cumulative
        probability exceeds the draw `r`, or of the last record when none does. */
    method GetRandomChar(probs: seq<CharData>, r: real) returns (c: char)
      requires |probs| > 0
      ensures c == Sample(probs, r)
      ensures c in Chars(probs)
    {
      var i := 0;
      while i < |probs|
        invariant 0 <= i <= |probs|
        invariant forall j :: 0 <= j < i ==> probs[j].cp <= r
      {
        if probs[i].cp > r {
          return probs[i].chr;
        }
        i := i + 1;
      }
      return probs[|probs| - 1].chr;
    }

    /** Extends `initialText` one sampled character at a time, the n-th one
        drawn with `draws(n)`, until it is `textLength + windowLength` long or
        its last window is not in the table. An initial text at least
        `textLength` long, or shorter than a window, is returned unchanged.
        With windows of length 0 the empty window must not be a key: sliding
        it would drop a character from an empty string. */
    method Generate(initialText: string, textLength: int, draws: nat -> real) returns (gentxt: string)
      requires Valid()
      requires windowLength >= 1 || "" !in charDataMap
      ensures IsGeneration(charDataMap, windowLength, initialText, textLength, draws, gentxt)
    {
      gentxt := initialText;
      if |initialText| >= textLength || |initialText| < windowLength {
        return;
      }
      var window := initialText[|initialText| - windowLength..];
      while |gentxt| - windowLength < textLength
        invariant initialText <= gentxt && |gentxt| <= textLength + windowLength
        invariant window == gentxt[|gentxt| - windowLength..]
        invariant forall j :: |initialText| <= j < |gentxt| ==>
                    SampledAt(charDataMap, windowLength, gentxt, j, draws, |initialText|)
        decreases textLength + windowLength - |gentxt|
      {
        if window in charDataMap {
          assert EntryInvariant(charDataMap, windowLength, window);
          var chr := GetRandomChar(charDataMap[window], draws(|gentxt| - |initialText|));
          assert window == Window(gentxt, |gentxt| - windowLength, windowLength);
          ExtendSampled(charDataMap, windowLength, initialText, draws, gentxt, chr);
          gentxt := gentxt + [chr];
          window := window[1..] + [chr];
        } else {
          assert window == Window(gentxt, |gentxt| - windowLength, windowLength);
          return;
        }
      }
    }
  }
}
