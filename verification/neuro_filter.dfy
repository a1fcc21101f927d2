/**
  Which neural candidates ProcessStackForNeuro (moses/SearchCubePruning.cpp)
  turns into translation options, and under which coverage it files them.
 */
module NeuroFilter {
  import opened Coverage
  import opened Text
  import opened SearchTypes

  /** Hypothesis::IsSourceCompleted: every source word is covered. */
  predicate SourceCompleted(h: Hypothesis)
  {
    Complete(h.coverage)
  }

  /** The span [front, back] of a candidate's covered positions. */
  function SpanOf(p: NeuralCandidate): Range
    requires |p.coverage| > 0
  {
    Range(p.coverage[0], p.coverage[|p.coverage| - 1])
  }

  /**
    What the loop over one feature's candidates reads safely: each reached
    candidate names an existing hypothesis; unless that hypothesis is
    complete (which ends the loop), a candidate with coverage has a first
    word and a span that is an input path of the sentence.
   */
  predicate Readable(hyps: seq<Hypothesis>, props: seq<NeuralCandidate>, size: nat)
  {
    |props| == 0 ||
    (props[0].prevIndex < |hyps| &&
     (SourceCompleted(hyps[props[0].prevIndex]) ||
      ((|props[0].coverage| > 0 ==>
          |props[0].phrase| > 0 && SpanOf(props[0]).start <= SpanOf(props[0]).end < size) &&
       Readable(hyps, props[1..], size))))
  }

  /** One option ProcessStackForNeuro creates and the coverage it is filed under. */
  datatype Filing = Filing(bitmap: Bitmap, option: TranslationOption)

  /**
    The options kept from one feature's candidates, in order: the loop stops
    at the first candidate extending a complete hypothesis and skips those
    with no coverage or overlapping their hypothesis's coverage; a kept one
    joins its words with single spaces and is filed under the hypothesis's
    coverage plus its span.
   */
  function Kept(hyps: seq<Hypothesis>, props: seq<NeuralCandidate>, size: nat): seq<Filing>
    requires Readable(hyps, props, size)
  {
    if |props| == 0 then []
    else
      var p := props[0];
      var prev := hyps[p.prevIndex];
      if SourceCompleted(prev) then []
      else if |p.coverage| == 0 || Overlap(prev.coverage, SpanOf(p)) then Kept(hyps, props[1..], size)
      else
        [Filing(Union(prev.coverage, SpanOf(p)), TranslationOption(SpanOf(p), Join(p.phrase), p.score))]
        + Kept(hyps, props[1..], size)
  }

  /** Readable for every feature's list. */
  predicate AllReadable(hyps: seq<Hypothesis>, features: seq<seq<NeuralCandidate>>, size: nat)
  {
    forall f :: 0 <= f < |features| ==> Readable(hyps, features[f], size)
  }

  /** What all the features' loops keep, feature by feature. */
  function AllKept(hyps: seq<Hypothesis>, features: seq<seq<NeuralCandidate>>, size: nat): seq<Filing>
    requires AllReadable(hyps, features, size)
  {
    if |features| == 0 then []
    else AllKept(hyps, features[..|features| - 1], size) + Kept(hyps, features[|features| - 1], size)
  }

  /** The options of a filing list, in order. */
  function OptionsOf(fs: seq<Filing>): (os: seq<TranslationOption>)
    ensures |os| == |fs|
  {
    if |fs| == 0 then [] else OptionsOf(fs[..|fs| - 1]) + [fs[|fs| - 1].option]
  }

  /** The options of a filing list filed under coverage b, in order. */
  function FiledUnder(fs: seq<Filing>, b: Bitmap): seq<TranslationOption>
  {
    if |fs| == 0 then []
    else FiledUnder(fs[..|fs| - 1], b) + (if fs[|fs| - 1].bitmap == b then [fs[|fs| - 1].option] else [])
  }

  /** Filing one more option extends its own coverage's list and no other. */
  lemma FiledUnderSnoc(fs: seq<Filing>, f: Filing, b: Bitmap)
    ensures FiledUnder(fs + [f], b) == FiledUnder(fs, b) + (if f.bitmap == b then [f.option] else [])
  {
    assert (fs + [f])[..|fs|] == fs;
  }

  /** A list of filings with its options in the same order. */
  lemma OptionsOfSnoc(fs: seq<Filing>, f: Filing)
    ensures OptionsOf(fs + [f]) == OptionsOf(fs) + [f.option]
  {
    assert (fs + [f])[..|fs|] == fs;
  }

  /**
    The loop reaches candidate k: it and every candidate before it name an
    existing hypothesis, and none before it extends a complete one (which
    would have ended the loop).
   */
  ghost predicate Reached(hyps: seq<Hypothesis>, props: seq<NeuralCandidate>, k: nat)
  {
    && k < |props|
    && (forall j :: 0 <= j <= k ==> props[j].prevIndex < |hyps|)
    && (forall j :: 0 <= j < k ==> !SourceCompleted(hyps[props[j].prevIndex]))
  }

  /**
    Candidate k, once reached, is kept: its hypothesis is not complete, it
    has a coverage whose span lies inside the sentence and does not overlap
    the hypothesis's coverage.
   */
  ghost predicate Keeps(hyps: seq<Hypothesis>, props: seq<NeuralCandidate>, size: nat, k: nat)
  {
    && Reached(hyps, props, k)
    && |props[k].coverage| > 0
    && !SourceCompleted(hyps[props[k].prevIndex])
    && !Overlap(hyps[props[k].prevIndex].coverage, SpanOf(props[k]))
    && SpanOf(props[k]).start <= SpanOf(props[k]).end < size
  }

  /**
    The filing made from candidate k: its span, its words joined and its
    score, filed under its hypothesis's coverage plus the span.
   */
  function FilingOf(hyps: seq<Hypothesis>, p: NeuralCandidate): Filing
    requires p.prevIndex < |hyps| && |p.coverage| > 0
  {
    Filing(Union(hyps[p.prevIndex].coverage, SpanOf(p)), TranslationOption(SpanOf(p), Join(p.phrase), p.score))
  }

  /** A filing is made from one reached, kept candidate of the list. */
  ghost predicate FiledSoundly(hyps: seq<Hypothesis>, props: seq<NeuralCandidate>, size: nat, f: Filing)
  {
    exists k :: 0 <= k < |props| && Keeps(hyps, props, size, k) && f == FilingOf(hyps, props[k])
  }

  /** Reaching candidate k of the rest of the list past a candidate that does not stop the loop reaches k + 1. */
  lemma ReachedShift(hyps: seq<Hypothesis>, props: seq<NeuralCandidate>, size: nat, k: nat)
    requires |props| > 0 && props[0].prevIndex < |hyps| && !SourceCompleted(hyps[props[0].prevIndex])
    requires Keeps(hyps, props[1..], size, k)
    ensures Keeps(hyps, props, size, k + 1) && props[k + 1] == props[1..][k]
  {
    assert forall j :: 1 <= j <= k + 1 ==> props[j] == props[1..][j - 1];
  }

  /** Every option one feature's loop keeps comes from one reached candidate, with that candidate's span, words and score. */
  lemma {:induction false} KeptSound(hyps: seq<Hypothesis>, props: seq<NeuralCandidate>, size: nat)
    requires Readable(hyps, props, size)
    ensures forall f :: f in Kept(hyps, props, size) ==> FiledSoundly(hyps, props, size, f)
  {
    if |props| > 0 && !SourceCompleted(hyps[props[0].prevIndex]) {
      KeptSound(hyps, props[1..], size);
      forall f | f in Kept(hyps, props, size)
        ensures FiledSoundly(hyps, props, size, f)
      {
        if f in Kept(hyps, props[1..], size) {
          var k :| 0 <= k < |props[1..]| && Keeps(hyps, props[1..], size, k) && f == FilingOf(hyps, props[1..][k]);
          ReachedShift(hyps, props, size, k);
        } else {
          assert Keeps(hyps, props, size, 0);
        }
      }
    }
  }

  /** Conversely, every reached candidate that passes the checks is kept. */
  lemma {:induction false} KeptComplete(hyps: seq<Hypothesis>, props: seq<NeuralCandidate>, size: nat, k: nat)
    requires Readable(hyps, props, size)
    requires Reached(hyps, props, k) && |props[k].coverage| > 0
    requires !SourceCompleted(hyps[props[k].prevIndex]) && !Overlap(hyps[props[k].prevIndex].coverage, SpanOf(props[k]))
    ensures FilingOf(hyps, props[k]) in Kept(hyps, props, size)
  {
    if k > 0 {
      var rest := props[1..];
      assert Reached(hyps, rest, k - 1) by {
        assert forall j :: 0 <= j < k ==> rest[j] == props[j + 1];
      }
      assert rest[k - 1] == props[k];
      KeptComplete(hyps, rest, size, k - 1);
    }
  }

  /** Every option from any feature is filed soundly with respect to its own feature's candidates. */
  lemma {:induction false} AllKeptSound(hyps: seq<Hypothesis>, features: seq<seq<NeuralCandidate>>, size: nat)
    requires AllReadable(hyps, features, size)
    ensures forall f :: f in AllKept(hyps, features, size) ==>
      exists g :: 0 <= g < |features| && FiledSoundly(hyps, features[g], size, f)
  {
    if |features| > 0 {
      var n := |features| - 1;
      var front := features[..n];
      assert AllReadable(hyps, front, size) by {
        forall g | 0 <= g < |front| ensures Readable(hyps, front[g], size) {
          assert front[g] == features[g];
        }
      }
      AllKeptSound(hyps, front, size);
      KeptSound(hyps, features[n], size);
      forall f | f in AllKept(hyps, features, size)
        ensures exists g :: 0 <= g < |features| && FiledSoundly(hyps, features[g], size, f)
      {
        if f in AllKept(hyps, front, size) {
          var g :| 0 <= g < |front| && FiledSoundly(hyps, front[g], size, f);
          assert front[g] == features[g];
        } else {
          assert FiledSoundly(hyps, features[n], size, f);
        }
      }
    }
  }

  /** Every reached candidate of any feature that passes the checks is kept over all features. */
  lemma {:induction false} AllKeptComplete(hyps: seq<Hypothesis>, features: seq<seq<NeuralCandidate>>, size: nat, g: nat, k: nat)
    requires AllReadable(hyps, features, size)
    requires g < |features| && Reached(hyps, features[g], k) && |features[g][k].coverage| > 0
    requires !SourceCompleted(hyps[features[g][k].prevIndex])
    requires !Overlap(hyps[features[g][k].prevIndex].coverage, SpanOf(features[g][k]))
    ensures FilingOf(hyps, features[g][k]) in AllKept(hyps, features, size)
  {
    var n := |features| - 1;
    if g == n {
      KeptComplete(hyps, features[n], size, k);
    } else {
      var front := features[..n];
      assert front[g] == features[g];
      assert AllReadable(hyps, front, size) by {
        forall i | 0 <= i < |front| ensures Readable(hyps, front[i], size) {
          assert front[i] == features[i];
        }
      }
      AllKeptComplete(hyps, front, size, g, k);
    }
  }

  /**
    The loop ends at the first candidate extending a complete hypothesis:
    whatever follows it is never looked at.
   */
  lemma {:induction false} KeptStopsAtComplete(hyps: seq<Hypothesis>, props: seq<NeuralCandidate>, more: seq<NeuralCandidate>, size: nat)
    requires |props| > 0
    requires Readable(hyps, props + more, size)
    requires props[|props| - 1].prevIndex < |hyps| && SourceCompleted(hyps[props[|props| - 1].prevIndex])
    ensures Readable(hyps, props, size)
    ensures Kept(hyps, props + more, size) == Kept(hyps, props, size)
  {
    assert (props + more)[0] == props[0];
    if |props| > 1 && !SourceCompleted(hyps[props[0].prevIndex]) {
      assert (props + more)[1..] == props[1..] + more;
      KeptStopsAtComplete(hyps, props[1..], more, size);
    }
  }
}
