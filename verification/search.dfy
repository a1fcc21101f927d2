/**
  SearchCubePruning (moses/SearchCubePruning.cpp): the stack-by-stack
  decoder. Stack s holds hypotheses covering s source words. Each stack is
  filled by popping bitmap containers best first, topped up for diversity,
  pruned, offered to the neural scorer for extra options, and then every
  container of the stack registers its forward edges into later stacks.

  BitmapContainer and HypothesisStackCubePruning are not part of this
  model. Their roles are played by small functions below: a container's
  candidates are the hypotheses its edges produce, best first, and pruning
  keeps the best stack_size hypotheses.
 */
module Search {
  import opened Coverage
  import opened Sorting
  import opened Text
  import opened SearchTypes
  import opened CubeQueue
  import opened Forward
  import opened NeuroFilter

  // ---------------------------------------------------------------------------
  // Stand-ins for the containers

  /** The hypotheses one hypothesis yields along an edge into coverage nb, one per option. */
  function ExtendBy(h: Hypothesis, nb: Bitmap, os: seq<TranslationOption>): (r: seq<Hypothesis>)
    ensures |r| == |os|
    ensures forall x :: x in r ==> x.coverage == nb
  {
    seq(|os|, k requires 0 <= k < |os| => Hypothesis(nb, h.futureScore + os[k].futureScore, Some(os[k].target)))
  }

  /** The hypotheses an edge yields from the hypotheses hs of its previous stack. */
  function EdgeCandidates(hs: seq<Hypothesis>, reg: Registration): (r: seq<Hypothesis>)
    ensures forall x :: x in r ==> x.coverage == reg.newBitmap
  {
    if |hs| == 0 then []
    else
      var h := hs[|hs| - 1];
      EdgeCandidates(hs[..|hs| - 1], reg) + (if h.coverage == reg.prevBitmap then ExtendBy(h, reg.newBitmap, reg.options) else [])
  }

  /** The hypotheses all edges into coverage nb yield. */
  function ContainerCandidates(stacks: seq<seq<Hypothesis>>, regs: seq<Registration>, nb: Bitmap): (r: seq<Hypothesis>)
    ensures forall x :: x in r ==> x.coverage == nb
  {
    if |regs| == 0 then []
    else
      var reg := regs[|regs| - 1];
      var p := NumCovered(reg.prevBitmap);
      ContainerCandidates(stacks, regs[..|regs| - 1], nb)
      + (if reg.newBitmap == nb && p < |stacks| then EdgeCandidates(stacks[p], reg) else [])
  }

  /** The coverages of the containers of stack s, one per coverage, in order of first registration. */
  function NewBitmaps(regs: seq<Registration>, s: nat): (bs: seq<Bitmap>)
    ensures forall i :: 0 <= i < |bs| ==> exists k :: 0 <= k < |regs| && regs[k].stack == s && regs[k].newBitmap == bs[i]
  {
    if |regs| == 0 then []
    else
      var reg := regs[|regs| - 1];
      var front := NewBitmaps(regs[..|regs| - 1], s);
      if reg.stack == s && reg.newBitmap !in front then front + [reg.newBitmap] else front
  }

  /** Stand-in for InitializeEdges: the containers of stack s with their candidates, best first. */
  function Containers(stacks: seq<seq<Hypothesis>>, regs: seq<Registration>, s: nat): seq<Cube>
  {
    var bs := NewBitmaps(regs, s);
    seq(|bs|, i requires 0 <= i < |bs| => Cube(bs[i], SortByKey(ContainerCandidates(stacks, regs, bs[i]), HypothesisScore), 0))
  }

  /** Every candidate of every container covers s of size words. */
  ghost predicate CandidatesAt(cubes: seq<Cube>, s: nat, size: nat)
  {
    forall i, h :: 0 <= i < |cubes| && h in cubes[i].pending ==> |h.coverage| == size && NumCovered(h.coverage) == s
  }

  /** The containers of stack s built from well-formed edges hold only hypotheses covering s words. */
  lemma ContainersAt(stacks: seq<seq<Hypothesis>>, regs: seq<Registration>, s: nat, size: nat)
    requires forall k :: 0 <= k < |regs| ==> WellFormedReg(size, regs[k])
    ensures CandidatesAt(Containers(stacks, regs, s), s, size)
  {
    var bs := NewBitmaps(regs, s);
    var cubes := Containers(stacks, regs, s);
    forall i, h | 0 <= i < |cubes| && h in cubes[i].pending
      ensures |h.coverage| == size && NumCovered(h.coverage) == s
    {
      var cands := ContainerCandidates(stacks, regs, bs[i]);
      SortByKeyCorrect(cands, HypothesisScore);
      assert h in multiset(SortByKey(cands, HypothesisScore));
      assert h in cands;
      var k :| 0 <= k < |regs| && regs[k].stack == s && regs[k].newBitmap == bs[i];
      assert WellFormedReg(size, regs[k]);
    }
  }

  /** What a container has not yet given up is among what it held. */
  lemma ConsumedKeepsAt(cubes: seq<Cube>, rest: seq<Cube>, s: nat, size: nat)
    requires |rest| == |cubes|
    requires forall i :: 0 <= i < |cubes| ==> Consumed(cubes[i], rest[i])
    requires CandidatesAt(cubes, s, size)
    ensures CandidatesAt(rest, s, size)
  {
    forall i, h | 0 <= i < |rest| && h in rest[i].pending
      ensures |h.coverage| == size && NumCovered(h.coverage) == s
    {
      var t := rest[i].added - cubes[i].added;
      assert cubes[i].pending == cubes[i].pending[..t] + rest[i].pending;
      assert h in cubes[i].pending;
    }
  }

  /** Hypotheses taken from containers that hold only hypotheses covering s words cover s words. */
  lemma ProducedAt(produced: seq<Hypothesis>, cubes: seq<Cube>, s: nat, size: nat)
    requires FromCubes(produced, cubes)
    requires CandidatesAt(cubes, s, size)
    ensures forall h :: h in produced ==> |h.coverage| == size && NumCovered(h.coverage) == s
  {
    forall h | h in produced
      ensures |h.coverage| == size && NumCovered(h.coverage) == s
    {
      var i :| 0 <= i < |cubes| && h in cubes[i].pending;
    }
  }

  /** The containers are built best first. */
  lemma ContainersSorted(stacks: seq<seq<Hypothesis>>, regs: seq<Registration>, s: nat)
    ensures CubesSorted(Containers(stacks, regs, s))
  {
    var bs := NewBitmaps(regs, s);
    forall i | 0 <= i < |bs|
      ensures SortedBy(Containers(stacks, regs, s)[i].pending, HypothesisScore)
    {
      SortByKeyCorrect(ContainerCandidates(stacks, regs, bs[i]), HypothesisScore);
    }
  }

  /** What comes from what is left of the containers comes from the containers. */
  lemma FromConsumed(more: seq<Hypothesis>, cubes: seq<Cube>, rest: seq<Cube>)
    requires |rest| == |cubes|
    requires forall i :: 0 <= i < |cubes| ==> Consumed(cubes[i], rest[i])
    requires FromCubes(more, rest)
    ensures FromCubes(more, cubes)
  {
    forall h | h in more
      ensures exists i :: 0 <= i < |cubes| && h in cubes[i].pending
    {
      var i :| 0 <= i < |rest| && h in rest[i].pending;
      var t := rest[i].added - cubes[i].added;
      assert cubes[i].pending == cubes[i].pending[..t] + rest[i].pending;
      assert h in cubes[i].pending;
    }
  }

  /**
    One stack's search from its containers cubes: at most PopLimit pops,
    fewer, or a pop that produced nothing, only when every container is
    exhausted, leave the containers
    popped and produce, best first, exactly what they gave up; with a
    positive diversity every container is then topped up to that many
    hypotheses or exhausted, leaving left and producing more; the stack is
    the best stack_size of everything produced.
   */
  ghost predicate StackSearch(cubes: seq<Cube>, opts: SearchOptions, popped: seq<Cube>, produced: seq<Hypothesis>, pops: nat,
                              left: seq<Cube>, more: seq<Hypothesis>, hyps: seq<Hypothesis>)
  {
    && |popped| == |cubes| && |left| == |cubes|
    && pops <= opts.popLimit && |produced| <= pops
    && (pops < opts.popLimit || |produced| < pops ==> forall i :: 0 <= i < |popped| ==> !NonEmpty(popped[i]))
    && (forall i :: 0 <= i < |cubes| ==> Consumed(cubes[i], popped[i]))
    && |produced| + Remaining(popped) == Remaining(cubes)
    && BestFirst(produced, popped)
    && (opts.diversity == 0 ==> left == popped && more == [])
    && (opts.diversity > 0 ==> forall i :: 0 <= i < |left| ==> left[i].added >= opts.diversity || !NonEmpty(left[i]))
    && (forall i :: 0 <= i < |cubes| ==> Consumed(popped[i], left[i]))
    && |more| + Remaining(left) == Remaining(popped)
    && FromCubes(produced + more, cubes)
    && hyps == Best(produced + more, opts.stackSize, HypothesisScore)
  }

  /**
    What one round of Decode's loop started from, what its stack search and
    its neural rescoring produced, and what it left.
   */
  datatype Round = Round(
    stacksBefore: seq<seq<Hypothesis>>,
    regsBefore: seq<Registration>,
    listsBefore: seq<seq<TranslationOption>>,
    dynBefore: seq<TranslationOption>,
    popped: seq<Cube>,
    produced: seq<Hypothesis>,
    pops: nat,
    left: seq<Cube>,
    more: seq<Hypothesis>,
    neuro: NeuroPhraseColl,
    regsAfter: seq<Registration>,
    listsAfter: seq<seq<TranslationOption>>,
    dynAfter: seq<TranslationOption>)

  /**
    Round r filled stack s with filled: the stack is the search of the
    containers built from the stacks and edges the round started from; the
    neural map files every option kept for the stack's hypotheses; those
    options are appended to the dynamic options; and the stack's containers
    register their edges and allocate their lists with that map.
   */
  ghost predicate RoundOf(inp: SearchInput, rescore: (nat, seq<Hypothesis>) -> seq<seq<NeuralCandidate>>, r: Round, s: nat,
                          filled: seq<Hypothesis>)
  {
    && AllReadable(filled, rescore(s, filled), inp.size)
    && var kept := AllKept(filled, rescore(s, filled), inp.size);
    && StackSearch(Containers(r.stacksBefore, r.regsBefore, s), inp.options, r.popped, r.produced, r.pops, r.left, r.more, filled)
    && (forall b :: Lookup(r.neuro, b) == FiledUnder(kept, b))
    && r.dynAfter == r.dynBefore + OptionsOf(kept)
    && r.regsAfter == r.regsBefore + RegsFrom(inp, Coverages(filled), Some(r.neuro))
    && r.listsAfter == r.listsBefore + ListsFrom(inp, Coverages(filled), Some(r.neuro))
  }

  /** Round b started from what round a left. */
  predicate Chained(a: Round, b: Round)
  {
    b.regsBefore == a.regsAfter && b.listsBefore == a.listsAfter && b.dynBefore == a.dynAfter
  }

  /** Stack soundness: every hypothesis of stack s covers exactly s of the size words. */
  ghost predicate StacksSound(stacks: seq<seq<Hypothesis>>, size: nat)
  {
    forall s, h :: 0 <= s < |stacks| && h in stacks[s] ==> |h.coverage| == size && NumCovered(h.coverage) == s
  }

  /** The coverages of a stack's hypotheses, each once, in order (the containers that hold hypotheses). */
  function Coverages(hyps: seq<Hypothesis>): (bs: seq<Bitmap>)
    ensures forall i :: 0 <= i < |bs| ==> exists h :: h in hyps && h.coverage == bs[i]
  {
    if |hyps| == 0 then []
    else
      var front := Coverages(hyps[..|hyps| - 1]);
      var b := hyps[|hyps| - 1].coverage;
      if b in front then front else front + [b]
  }

  /** Every hypothesis's coverage is visited, and no coverage twice. */
  lemma {:induction false} CoveragesComplete(hyps: seq<Hypothesis>)
    ensures forall h :: h in hyps ==> h.coverage in Coverages(hyps)
    ensures forall i, j :: 0 <= i < j < |Coverages(hyps)| ==> Coverages(hyps)[i] != Coverages(hyps)[j]
  {
    if |hyps| > 0 {
      var front := hyps[..|hyps| - 1];
      CoveragesComplete(front);
      assert forall h :: h in hyps ==> h in front || h == hyps[|hyps| - 1];
    }
  }

  /** The coverages of hypotheses over size words are size words long. */
  lemma CoveragesSized(hyps: seq<Hypothesis>, size: nat)
    requires forall h :: h in hyps ==> |h.coverage| == size
    ensures forall i :: 0 <= i < |Coverages(hyps)| ==> |Coverages(hyps)[i]| == size
  {
    var bs := Coverages(hyps);
    forall i | 0 <= i < |bs|
      ensures |bs[i]| == size
    {
      var h :| h in hyps && h.coverage == bs[i];
    }
  }

  /** Every range the enumerator may reach from a full-length coverage has a static list (the neural overload reads it unchecked). */
  ghost predicate ListsExist(inp: SearchInput)
  {
    forall b, r :: |b| == inp.size && Triable(b, r, inp.options.maxPhraseLength) && CheckDistortion(inp, b, r) ==>
      r in inp.transOptColl
  }

  /** Both maps present or both absent, and they agree on every lookup. */
  ghost predicate Agree(a: Option<NeuroPhraseColl>, b: Option<NeuroPhraseColl>)
  {
    a.Some? == b.Some? && (a.Some? ==> forall k :: Lookup(a.value, k) == Lookup(b.value, k))
  }

  /** Moving the next element from what is left to what is done. */
  lemma ConsStep<T>(done: seq<T>, x: T, ext: seq<T>, tail: seq<T>)
    ensures done + ([x] + ext) + tail == (done + [x]) + ext + tail
    ensures x in done + ([x] + ext) + tail
  {
  }

  /** Filing one more option in the map keeps the map equal to the filings, coverage by coverage. */
  lemma FileStep(neuro: NeuroPhraseColl, filed: seq<Filing>, x: Filing)
    requires forall b :: Lookup(neuro, b) == FiledUnder(filed, b)
    ensures forall b :: Lookup(neuro[x.bitmap := Lookup(neuro, x.bitmap) + [x.option]], b) == FiledUnder(filed + [x], b)
  {
    forall b
      ensures Lookup(neuro[x.bitmap := Lookup(neuro, x.bitmap) + [x.option]], b) == FiledUnder(filed + [x], b)
    {
      FiledUnderSnoc(filed, x, b);
    }
  }

  /**
    The list the neural overload builds before sorting: a copy of the
    static options, then every neural option filed under the new coverage.
   */
  method ExtendedList(fixed: seq<TranslationOption>, neural: seq<TranslationOption>) returns (extended: seq<TranslationOption>)
    ensures extended == fixed + neural
  {
    extended := [];
    var i := 0;
    while i < |fixed|
      invariant 0 <= i <= |fixed|
      invariant extended == fixed[..i]
    {
      extended := extended + [fixed[i]];
      i := i + 1;
    }
    assert fixed[..i] == fixed;
    var j := 0;
    while j < |neural|
      invariant 0 <= j <= |neural|
      invariant extended == fixed + neural[..j]
    {
      assert neural[..j + 1] == neural[..j] + [neural[j]];
      AppendAssoc(fixed, neural[..j], [neural[j]]);
      extended := extended + [neural[j]];
      j := j + 1;
    }
    assert neural[..j] == neural;
  }

  /** Joining one more word of a phrase adds a space and that word. */
  lemma JoinPrefixStep(words: seq<string>, wi: nat)
    requires 1 <= wi < |words|
    ensures Join(words[..wi + 1]) == Join(words[..wi]) + " " + words[wi]
  {
    JoinSnoc(words[..wi], words[wi]);
    assert words[..wi + 1] == words[..wi] + [words[wi]];
  }

  /** The loop that writes a candidate's words into a string stream, separated by single spaces. */
  method JoinPhrase(words: seq<string>) returns (s: string)
    requires |words| > 0
    ensures s == Join(words)
  {
    s := words[0];
    var wi := 1;
    while wi < |words|
      invariant 1 <= wi <= |words|
      invariant s == Join(words[..wi])
    {
      JoinPrefixStep(words, wi);
      s := s + " " + words[wi];
      wi := wi + 1;
    }
    assert words[..wi] == words;
  }

  // ---------------------------------------------------------------------------
  // The search

  class SearchCubePruning {
    const inp: SearchInput
    /** m_hypoStackColl: one stack per number of covered words. */
    var stacks: seq<seq<Hypothesis>>
    /** Every SetBitmapAccessor call so far. */
    var registrations: seq<Registration>
    /** m_transOptionLists: the extended lists the neural overload allocates. */
    var transOptionLists: seq<seq<TranslationOption>>
    /** m_dynamicOptions: the options created from neural candidates. */
    var dynamicOptions: seq<TranslationOption>

    /** One empty stack per covered count 0 .. size. */
    constructor (inp: SearchInput)
      ensures this.inp == inp
      ensures |stacks| == inp.size + 1 && forall s :: 0 <= s < |stacks| ==> stacks[s] == []
      ensures registrations == [] && transOptionLists == [] && dynamicOptions == []
    {
      this.inp := inp;
      stacks := seq(inp.size + 1, _ => []);
      registrations := [];
      transOptionLists := [];
      dynamicOptions := [];
    }

    /** The static overload of CreateForwardTodos: an edge for r when the static list is non-empty. */
    method ForwardStatic(b: Bitmap, r: Range)
      requires CheckDistortion(inp, b, r)
      modifies this
      ensures registrations == old(registrations) + RegFor(inp, b, r, None)
      ensures stacks == old(stacks) && transOptionLists == old(transOptionLists) && dynamicOptions == old(dynamicOptions)
    {
      var nb := Union(b, r);
      var numCovered := NumCovered(nb);
      if r in inp.transOptColl && |inp.transOptColl[r]| > 0 {
        registrations := registrations + [Registration(numCovered, nb, r, b, inp.transOptColl[r])];
      }
    }

    /**
      The neural overload of CreateForwardTodos: the static options and the
      neural options for r are copied into a new list, which is sorted and
      kept; an edge is registered only when the static list is non-empty.
      Looking the new coverage up in the neural map adds an empty entry.
      Every option filed under the new coverage joins the list, whatever
      span it translates.
     */
    method ForwardNeuro(b: Bitmap, r: Range, neuro: NeuroPhraseColl) returns (neuro': NeuroPhraseColl)
      requires CheckDistortion(inp, b, r)
      requires r in inp.transOptColl
      modifies this
      ensures registrations == old(registrations) + RegFor(inp, b, r, Some(neuro))
      ensures transOptionLists == old(transOptionLists) + ListFor(inp, b, r, Some(neuro))
      ensures stacks == old(stacks) && dynamicOptions == old(dynamicOptions)
      ensures neuro'.Keys == neuro.Keys + {Union(b, r)}
      ensures forall k :: Lookup(neuro', k) == Lookup(neuro, k)
    {
      var nb := Union(b, r);
      neuro' := if nb in neuro then neuro else neuro[nb := []];
      var neuroPhrases := neuro'[nb];
      var numCovered := NumCovered(nb);
      var transOptList := inp.transOptColl[r];
      var extended := ExtendedList(transOptList, neuroPhrases);
      extended := SortByKey(extended, OptionScore);
      assert neuroPhrases == Lookup(neuro, nb) && transOptList == StaticList(inp, r);
      assert extended == EdgeOptions(inp, nb, r, Some(neuro));
      assert ListFor(inp, b, r, Some(neuro)) == [extended];
      transOptionLists := transOptionLists + [extended];
      if |transOptList| > 0 {
        assert RegFor(inp, b, r, Some(neuro)) == [Registration(numCovered, nb, r, b, extended)];
        registrations := registrations + [Registration(numCovered, nb, r, b, extended)];
      } else {
        assert RegFor(inp, b, r, Some(neuro)) == [];
        assert registrations + [] == registrations;
      }
    }

    /** Either overload, as the enumerator picks it, behind the distortion gate. */
    method Forward(b: Bitmap, r: Range, neuro: Option<NeuroPhraseColl>) returns (neuro': Option<NeuroPhraseColl>)
      requires neuro.Some? && CheckDistortion(inp, b, r) ==> r in inp.transOptColl
      modifies this
      ensures stacks == old(stacks) && dynamicOptions == old(dynamicOptions)
      ensures registrations == old(registrations) + RegFor(inp, b, r, neuro)
      ensures transOptionLists == old(transOptionLists) + ListFor(inp, b, r, neuro)
      ensures Agree(neuro', neuro)
    {
      neuro' := neuro;
      if CheckDistortion(inp, b, r) {
        if neuro.Some? {
          var m := ForwardNeuro(b, r, neuro.value);
          neuro' := Some(m);
        } else {
          ForwardStatic(b, r);
        }
      }
    }

    /** One span the enumerator tries, forwarded with a neural map that agrees with the original one. */
    method ForwardOne(b: Bitmap, r: Range, neuro: Option<NeuroPhraseColl>, cur: Option<NeuroPhraseColl>,
                      ghost done: seq<Range>, ghost regs0: seq<Registration>, ghost lists0: seq<seq<TranslationOption>>)
      returns (next: Option<NeuroPhraseColl>)
      requires |b| == inp.size
      requires Triable(b, r, inp.options.maxPhraseLength)
      requires neuro.Some? ==> ListsExist(inp)
      requires Agree(cur, neuro)
      requires registrations == regs0 + RegsOver(inp, b, done, neuro)
      requires transOptionLists == lists0 + ListsOver(inp, b, done, neuro)
      modifies this
      ensures stacks == old(stacks) && dynamicOptions == old(dynamicOptions)
      ensures registrations == regs0 + RegsOver(inp, b, done + [r], neuro)
      ensures transOptionLists == lists0 + ListsOver(inp, b, done + [r], neuro)
      ensures Agree(next, neuro)
    {
      AgreeSameRegFor(b, r, cur, neuro);
      OverSnoc(inp, b, done, r, neuro);
      AppendAssoc(regs0, RegsOver(inp, b, done, neuro), RegFor(inp, b, r, neuro));
      AppendAssoc(lists0, ListsOver(inp, b, done, neuro), ListFor(inp, b, r, neuro));
      next := Forward(b, r, cur);
    }

    /**
      The endPos loop for one start position: the longer spans [startPos,
      endPos] below stop are forwarded until a covered word is reached.
     */
    method ForwardLonger(b: Bitmap, startPos: nat, stop: nat, neuro: Option<NeuroPhraseColl>, cur: Option<NeuroPhraseColl>,
                         ghost done0: seq<Range>, ghost regs0: seq<Registration>, ghost lists0: seq<seq<TranslationOption>>)
      returns (next: Option<NeuroPhraseColl>, ghost done: seq<Range>)
      requires |b| == inp.size
      requires startPos < stop <= |b| && stop - startPos <= Max1(inp.options.maxPhraseLength)
      requires !b[startPos]
      requires neuro.Some? ==> ListsExist(inp)
      requires Agree(cur, neuro)
      requires registrations == regs0 + RegsOver(inp, b, done0, neuro)
      requires transOptionLists == lists0 + ListsOver(inp, b, done0, neuro)
      modifies this
      ensures done == done0 + TriedExt(b, startPos, startPos + 1, stop)
      ensures stacks == old(stacks) && dynamicOptions == old(dynamicOptions)
      ensures registrations == regs0 + RegsOver(inp, b, done, neuro)
      ensures transOptionLists == lists0 + ListsOver(inp, b, done, neuro)
      ensures Agree(next, neuro)
    {
      next := cur;
      done := done0;
      var endPos := startPos + 1;
      while endPos < stop && !b[endPos]
        invariant startPos + 1 <= endPos
        invariant forall k :: startPos <= k < endPos && k < |b| ==> !b[k]
        invariant done + TriedExt(b, startPos, endPos, stop) == done0 + TriedExt(b, startPos, startPos + 1, stop)
        invariant stacks == old(stacks) && dynamicOptions == old(dynamicOptions)
        invariant registrations == regs0 + RegsOver(inp, b, done, neuro)
        invariant transOptionLists == lists0 + ListsOver(inp, b, done, neuro)
        invariant Agree(next, neuro)
      {
        var r := Range(startPos, endPos);
        TriedExtStep(done, b, startPos, endPos, stop);
        next := ForwardOne(b, r, neuro, next, done, regs0, lists0);
        done := done + [r];
        endPos := endPos + 1;
      }
      assert TriedExt(b, startPos, endPos, stop) == [];
      assert done + [] == done;
    }

    /** The spans tried from one start position: the single word, then the longer spans. */
    method ForwardAt(b: Bitmap, startPos: nat, neuro: Option<NeuroPhraseColl>, cur: Option<NeuroPhraseColl>,
                     ghost done0: seq<Range>, ghost regs0: seq<Registration>, ghost lists0: seq<seq<TranslationOption>>)
      returns (next: Option<NeuroPhraseColl>, ghost done: seq<Range>)
      requires |b| == inp.size && startPos < |b|
      requires neuro.Some? ==> ListsExist(inp)
      requires Agree(cur, neuro)
      requires registrations == regs0 + RegsOver(inp, b, done0, neuro)
      requires transOptionLists == lists0 + ListsOver(inp, b, done0, neuro)
      modifies this
      ensures done == done0 + TriedAt(b, startPos, inp.options.maxPhraseLength)
      ensures stacks == old(stacks) && dynamicOptions == old(dynamicOptions)
      ensures registrations == regs0 + RegsOver(inp, b, done, neuro)
      ensures transOptionLists == lists0 + ListsOver(inp, b, done, neuro)
      ensures Agree(next, neuro)
    {
      if b[startPos] {
        assert TriedAt(b, startPos, inp.options.maxPhraseLength) == [];
        assert done0 + [] == done0;
        return cur, done0;
      }
      var r := Range(startPos, startPos);
      next := ForwardOne(b, r, neuro, cur, done0, regs0, lists0);
      var maxSize := Min(inp.size - startPos, inp.options.maxPhraseLength);
      var stop := startPos + maxSize;
      ghost var ext := TriedExt(b, startPos, startPos + 1, stop);
      assert TriedAt(b, startPos, inp.options.maxPhraseLength) == [r] + ext;
      AppendAssoc(done0, [r], ext);
      if maxSize == 0 {
        assert ext == [];
        assert done0 + [r] + [] == done0 + [r];
        done := done0 + [r];
      } else {
        next, done := ForwardLonger(b, startPos, stop, neuro, next, done0 + [r], regs0, lists0);
      }
    }

    /**
      The startPos loop for one container with coverage b: every span the
      enumerator tries, in order, is passed through the distortion gate and
      forwarded.
     */
    method ForwardFrom(b: Bitmap, neuro: Option<NeuroPhraseColl>) returns (neuro': Option<NeuroPhraseColl>)
      requires |b| == inp.size
      requires neuro.Some? ==> ListsExist(inp)
      modifies this
      ensures stacks == old(stacks) && dynamicOptions == old(dynamicOptions)
      ensures registrations == old(registrations) + RegsOver(inp, b, Tried(b, inp.options.maxPhraseLength), neuro)
      ensures transOptionLists == old(transOptionLists) + ListsOver(inp, b, Tried(b, inp.options.maxPhraseLength), neuro)
      ensures Agree(neuro', neuro)
    {
      var mpl := inp.options.maxPhraseLength;
      ghost var all := Tried(b, mpl);
      ghost var regs0 := registrations;
      ghost var lists0 := transOptionLists;
      ghost var done: seq<Range> := [];
      assert RegsOver(inp, b, [], neuro) == [] && ListsOver(inp, b, [], neuro) == [];
      assert regs0 + [] == regs0 && lists0 + [] == lists0;
      neuro' := neuro;
      var startPos := 0;
      while startPos < inp.size
        invariant 0 <= startPos <= inp.size
        invariant done + TriedFrom(b, startPos, mpl) == all
        invariant stacks == old(stacks) && dynamicOptions == old(dynamicOptions)
        invariant registrations == regs0 + RegsOver(inp, b, done, neuro)
        invariant transOptionLists == lists0 + ListsOver(inp, b, done, neuro)
        invariant Agree(neuro', neuro)
      {
        AppendAssoc(done, TriedAt(b, startPos, mpl), TriedFrom(b, startPos + 1, mpl));
        neuro', done := ForwardAt(b, startPos, neuro, neuro', done, regs0, lists0);
        startPos := startPos + 1;
      }
      assert TriedFrom(b, startPos, mpl) == [];
      assert done + [] == done;
    }

    /**
      CreateForwardTodos(stack, neuro): every container of stack s that holds
      hypotheses forwards its spans, with the neural map when there is one.
     */
    method CreateForwardTodos(s: nat, neuro: Option<NeuroPhraseColl>) returns (neuro': Option<NeuroPhraseColl>)
      requires s < |stacks|
      requires forall h :: h in stacks[s] ==> |h.coverage| == inp.size
      requires neuro.Some? ==> ListsExist(inp)
      modifies this
      ensures stacks == old(stacks) && dynamicOptions == old(dynamicOptions)
      ensures registrations == old(registrations) + RegsFrom(inp, Coverages(stacks[s]), neuro)
      ensures transOptionLists == old(transOptionLists) + ListsFrom(inp, Coverages(stacks[s]), neuro)
      ensures Agree(neuro', neuro)
    {
      var bs := Coverages(stacks[s]);
      CoveragesSized(stacks[s], inp.size);
      ghost var regs0 := registrations;
      ghost var lists0 := transOptionLists;
      neuro' := neuro;
      assert bs[..0] == [];
      assert regs0 + [] == regs0 && lists0 + [] == lists0;
      var i := 0;
      while i < |bs|
        invariant 0 <= i <= |bs|
        invariant stacks == old(stacks) && dynamicOptions == old(dynamicOptions)
        invariant registrations == regs0 + RegsFrom(inp, bs[..i], neuro)
        invariant transOptionLists == lists0 + ListsFrom(inp, bs[..i], neuro)
        invariant Agree(neuro', neuro)
      {
        neuro' := ForwardContainer(bs, i, neuro, neuro', regs0, lists0);
        i := i + 1;
      }
      assert bs[..i] == bs;
    }

    /** One container of the stack forwards its spans, extending what the containers before it registered. */
    method ForwardContainer(bs: seq<Bitmap>, i: nat, neuro: Option<NeuroPhraseColl>, cur: Option<NeuroPhraseColl>,
                            ghost regs0: seq<Registration>, ghost lists0: seq<seq<TranslationOption>>)
      returns (next: Option<NeuroPhraseColl>)
      requires i < |bs| && |bs[i]| == inp.size
      requires neuro.Some? ==> ListsExist(inp)
      requires Agree(cur, neuro)
      requires registrations == regs0 + RegsFrom(inp, bs[..i], neuro)
      requires transOptionLists == lists0 + ListsFrom(inp, bs[..i], neuro)
      modifies this
      ensures stacks == old(stacks) && dynamicOptions == old(dynamicOptions)
      ensures registrations == regs0 + RegsFrom(inp, bs[..i + 1], neuro)
      ensures transOptionLists == lists0 + ListsFrom(inp, bs[..i + 1], neuro)
      ensures Agree(next, neuro)
    {
      var b := bs[i];
      ghost var tried := Tried(b, inp.options.maxPhraseLength);
      FromStep(bs, i, cur, neuro);
      AppendAssoc(regs0, RegsFrom(inp, bs[..i], neuro), RegsOver(inp, b, tried, cur));
      AppendAssoc(lists0, ListsFrom(inp, bs[..i], neuro), ListsOver(inp, b, tried, cur));
      next := ForwardFrom(b, cur);
      AgreeTrans(next, cur, neuro);
    }

    /** Extending the containers forwarded so far by one more, forwarded with an agreeing map. */
    lemma FromStep(bs: seq<Bitmap>, i: nat, cur: Option<NeuroPhraseColl>, neuro: Option<NeuroPhraseColl>)
      requires i < |bs|
      requires Agree(cur, neuro)
      ensures RegsFrom(inp, bs[..i + 1], neuro) ==
        RegsFrom(inp, bs[..i], neuro) + RegsOver(inp, bs[i], Tried(bs[i], inp.options.maxPhraseLength), cur)
      ensures ListsFrom(inp, bs[..i + 1], neuro) ==
        ListsFrom(inp, bs[..i], neuro) + ListsOver(inp, bs[i], Tried(bs[i], inp.options.maxPhraseLength), cur)
    {
      var b := bs[i];
      var tried := Tried(b, inp.options.maxPhraseLength);
      AgreeSameRegs(b, tried, cur, neuro);
      assert bs[..i + 1] == bs[..i] + [b];
      RegsFromAppend(inp, bs[..i], [b], neuro);
      ListsFromAppend(inp, bs[..i], [b], neuro);
      assert RegsFrom(inp, [b], neuro) == RegsOver(inp, b, tried, neuro) + RegsFrom(inp, [], neuro);
      assert ListsFrom(inp, [b], neuro) == ListsOver(inp, b, tried, neuro) + ListsFrom(inp, [], neuro);
      assert RegsOver(inp, b, tried, neuro) + [] == RegsOver(inp, b, tried, neuro);
      assert ListsOver(inp, b, tried, neuro) + [] == ListsOver(inp, b, tried, neuro);
    }

    /** Agreement is transitive. */
    lemma AgreeTrans(a: Option<NeuroPhraseColl>, b: Option<NeuroPhraseColl>, c: Option<NeuroPhraseColl>)
      requires Agree(a, b) && Agree(b, c)
      ensures Agree(a, c)
    {
    }

    /** Two neural maps that agree on every lookup forward a span alike. */
    lemma AgreeSameRegFor(b: Bitmap, r: Range, m1: Option<NeuroPhraseColl>, m2: Option<NeuroPhraseColl>)
      requires Agree(m1, m2)
      ensures RegFor(inp, b, r, m1) == RegFor(inp, b, r, m2)
      ensures ListFor(inp, b, r, m1) == ListFor(inp, b, r, m2)
    {
      if m1.Some? {
        assert Lookup(m1.value, Union(b, r)) == Lookup(m2.value, Union(b, r));
      }
    }

    /** Two neural maps that agree on every lookup forward every span alike. */
    lemma {:induction false} AgreeSameRegs(b: Bitmap, rs: seq<Range>, m1: Option<NeuroPhraseColl>, m2: Option<NeuroPhraseColl>)
      requires Agree(m1, m2)
      ensures RegsOver(inp, b, rs, m1) == RegsOver(inp, b, rs, m2)
      ensures ListsOver(inp, b, rs, m1) == ListsOver(inp, b, rs, m2)
    {
      if |rs| > 0 {
        AgreeSameRegs(b, rs[1..], m1, m2);
        AgreeSameRegFor(b, rs[0], m1, m2);
      }
    }

    /**
      One feature's candidates for the hypotheses hyps: the loop stops at the
      first candidate extending a complete hypothesis, skips candidates with
      no coverage or overlapping their hypothesis, and turns every other one
      into an option that is recorded and filed under its new coverage.
     */
    method FileFeature(hyps: seq<Hypothesis>, props: seq<NeuralCandidate>, neuro: NeuroPhraseColl,
                       ghost filed0: seq<Filing>, ghost d0: seq<TranslationOption>)
      returns (neuro': NeuroPhraseColl, ghost filed: seq<Filing>)
      requires Readable(hyps, props, inp.size)
      requires dynamicOptions == d0 + OptionsOf(filed0)
      requires forall b :: Lookup(neuro, b) == FiledUnder(filed0, b)
      modifies this
      ensures filed == filed0 + Kept(hyps, props, inp.size)
      ensures dynamicOptions == d0 + OptionsOf(filed)
      ensures forall b :: Lookup(neuro', b) == FiledUnder(filed, b)
      ensures stacks == old(stacks) && registrations == old(registrations) && transOptionLists == old(transOptionLists)
    {
      neuro' := neuro;
      filed := filed0;
      var i := 0;
      while i < |props|
        invariant 0 <= i <= |props|
        invariant Readable(hyps, props[i..], inp.size)
        invariant filed0 + Kept(hyps, props, inp.size) == filed + Kept(hyps, props[i..], inp.size)
        invariant dynamicOptions == d0 + OptionsOf(filed)
        invariant forall b :: Lookup(neuro', b) == FiledUnder(filed, b)
        invariant stacks == old(stacks) && registrations == old(registrations) && transOptionLists == old(transOptionLists)
      {
        var prop := props[i];
        assert props[i..][0] == prop;
        assert props[i..][1..] == props[i + 1..];
        var prevHyp := hyps[prop.prevIndex];
        if SourceCompleted(prevHyp) {
          break;
        }
        ghost var rest := Kept(hyps, props[i + 1..], inp.size);
        if |prop.coverage| == 0 {
          assert Kept(hyps, props[i..], inp.size) == rest;
          i := i + 1;
          continue;
        }
        var phrase := JoinPhrase(prop.phrase);
        var range := Range(prop.coverage[0], prop.coverage[|prop.coverage| - 1]);
        if Overlap(prevHyp.coverage, range) {
          assert Kept(hyps, props[i..], inp.size) == rest;
          i := i + 1;
          continue;
        }
        var bitMap := Union(prevHyp.coverage, range);
        var tOption := TranslationOption(range, phrase, prop.score);
        ghost var x := Filing(bitMap, tOption);
        assert Kept(hyps, props[i..], inp.size) == [x] + rest;
        AppendAssoc(filed, [x], rest);
        OptionsOfSnoc(filed, x);
        AppendAssoc(d0, OptionsOf(filed), [tOption]);
        dynamicOptions := dynamicOptions + [tOption];
        FileStep(neuro', filed, x);
        neuro' := neuro'[bitMap := Lookup(neuro', bitMap) + [tOption]];
        filed := filed + [x];
        i := i + 1;
      }
      assert filed == filed0 + Kept(hyps, props, inp.size) by {
        if i < |props| {
          assert props[i..][0] == props[i];
          assert Kept(hyps, props[i..], inp.size) == [];
        } else {
          assert Kept(hyps, props[i..], inp.size) == [];
        }
        assert filed + [] == filed;
      }
    }

    /**
      ProcessStackForNeuro: every feature's candidates for the hypotheses of
      stack s are filtered; each kept one becomes an option, recorded in
      m_dynamicOptions and filed under its new coverage.
     */
    method ProcessStackForNeuro(s: nat, features: seq<seq<NeuralCandidate>>) returns (neuro: NeuroPhraseColl)
      requires s < |stacks|
      requires AllReadable(stacks[s], features, inp.size)
      modifies this
      ensures stacks == old(stacks) && registrations == old(registrations) && transOptionLists == old(transOptionLists)
      ensures dynamicOptions == old(dynamicOptions) + OptionsOf(AllKept(stacks[s], features, inp.size))
      ensures forall b :: Lookup(neuro, b) == FiledUnder(AllKept(stacks[s], features, inp.size), b)
    {
      var hyps := stacks[s];
      neuro := map[];
      ghost var filed: seq<Filing> := [];
      ghost var d0 := dynamicOptions;
      assert d0 + [] == d0;
      var f := 0;
      while f < |features|
        invariant 0 <= f <= |features|
        invariant filed == AllKept(hyps, features[..f], inp.size)
        invariant dynamicOptions == d0 + OptionsOf(filed)
        invariant forall b :: Lookup(neuro, b) == FiledUnder(filed, b)
        invariant stacks == old(stacks) && registrations == old(registrations) && transOptionLists == old(transOptionLists)
      {
        assert features[..f + 1][..f] == features[..f];
        assert features[..f + 1][f] == features[f];
        assert AllKept(hyps, features[..f + 1], inp.size) == AllKept(hyps, features[..f], inp.size) + Kept(hyps, features[f], inp.size);
        neuro, filed := FileFeature(hyps, features[f], neuro, filed, d0);
        f := f + 1;
      }
      assert features[..f] == features;
    }

    /**
      One stack's search: the containers are built, popped at most
      PopLimit times best first, topped up for diversity when it is
      positive, and the stack is pruned to stack_size.
     */
    method FillStack(s: nat, compare: (string, string) -> int)
      returns (hyps: seq<Hypothesis>, popped: seq<Cube>, produced: seq<Hypothesis>, pops: nat, left: seq<Cube>, more: seq<Hypothesis>)
      requires forall k :: 0 <= k < |registrations| ==> WellFormedReg(inp.size, registrations[k])
      ensures StackSearch(Containers(stacks, registrations, s), inp.options, popped, produced, pops, left, more, hyps)
      ensures |hyps| <= inp.options.stackSize
      ensures forall h :: h in hyps ==> |h.coverage| == inp.size && NumCovered(h.coverage) == s
    {
      var cubes := Containers(stacks, registrations, s);
      ContainersAt(stacks, registrations, s, inp.size);
      ContainersSorted(stacks, registrations, s);
      popped, produced, pops := PopLoop(cubes, inp.options.popLimit, compare);
      left, more := DiversityPass(popped, inp.options.diversity);
      FromConsumed(more, cubes, popped);
      var all := produced + more;
      assert FromCubes(all, cubes);
      ContainersAt(stacks, registrations, s, inp.size);
      ProducedAt(all, cubes, s, inp.size);
      hyps := Best(all, inp.options.stackSize, HypothesisScore);
      BestKeepsBest(all, inp.options.stackSize, HypothesisScore);
      forall h | h in hyps
        ensures h in all
      {
        assert h in multiset(hyps);
      }
    }

    /**
      Decode: the initial hypothesis seeds stack 0; then stack after stack is
      filled, offered to the neural features, and forwarded, until the last
      stack or until time runs out at a stack boundary. Round i fills stack
      i + 1 from the stacks before it and the edges registered so far.
     */
    method Decode(outOfTime: nat -> bool, compare: (string, string) -> int,
                  rescore: (nat, seq<Hypothesis>) -> seq<seq<NeuralCandidate>>) returns (ghost rounds: seq<Round>)
      requires |stacks| == inp.size + 1 && forall s :: 0 <= s < |stacks| ==> stacks[s] == []
      requires registrations == []
      requires OptionsOnTheirRange(inp)
      requires ListsExist(inp)
      requires forall s, hs :: AllReadable(hs, rescore(s, hs), inp.size)
      modifies this
      ensures DecodeInv(|rounds| + 1, rounds, rescore, old(transOptionLists), old(dynamicOptions))
      ensures InTimeBefore(outOfTime, |rounds| + 1)
      ensures |rounds| < inp.size ==> outOfTime(|rounds| + 1)
      ensures forall s :: 1 <= s < |stacks| && TimedOutBy(outOfTime, s) ==> stacks[s] == []
    {
      ghost var lists0, dyn0 := transOptionLists, dynamicOptions;
      Seed();
      rounds := [];
      var stackNo := 1;
      while stackNo <= inp.size
        invariant DecodeInv(stackNo, rounds, rescore, lists0, dyn0)
        invariant InTimeBefore(outOfTime, stackNo)
        decreases inp.size + 1 - stackNo
      {
        if outOfTime(stackNo) {
          return;
        }
        assert InTimeBefore(outOfTime, stackNo + 1);
        rounds := DecodeRound(stackNo, compare, rescore, rounds, lists0, dyn0);
        stackNo := stackNo + 1;
      }
    }

    /**
      Between the rounds of Decode: stacks 1 .. stackNo - 1 are filled and
      pruned, the later ones empty, every stack sound, every edge well
      formed, and the rounds so far form a trace.
     */
    ghost predicate DecodeInv(stackNo: nat, rounds: seq<Round>, rescore: (nat, seq<Hypothesis>) -> seq<seq<NeuralCandidate>>,
                              lists0: seq<seq<TranslationOption>>, dyn0: seq<TranslationOption>)
      reads this
    {
      && 1 <= stackNo <= inp.size + 1 && |rounds| == stackNo - 1
      && |stacks| == inp.size + 1
      && stacks[0] == [Hypothesis(Initial(inp.size), 0, None)]
      && StacksSound(stacks, inp.size)
      && (forall t :: stackNo <= t < |stacks| ==> stacks[t] == [])
      && (forall t :: 1 <= t < stackNo ==> |stacks[t]| <= inp.options.stackSize)
      && (forall k :: 0 <= k < |registrations| ==> WellFormedReg(inp.size, registrations[k]))
      && Trace(inp, rescore, stacks, rounds, registrations, transOptionLists, dynamicOptions, lists0, dyn0)
    }

    /** One round of Decode's loop, recorded in the trace. */
    method DecodeRound(stackNo: nat, compare: (string, string) -> int,
                       rescore: (nat, seq<Hypothesis>) -> seq<seq<NeuralCandidate>>, ghost rounds: seq<Round>,
                       ghost lists0: seq<seq<TranslationOption>>, ghost dyn0: seq<TranslationOption>)
      returns (ghost rounds': seq<Round>)
      requires stackNo <= inp.size
      requires DecodeInv(stackNo, rounds, rescore, lists0, dyn0)
      requires OptionsOnTheirRange(inp) && ListsExist(inp)
      requires forall s, hs :: AllReadable(hs, rescore(s, hs), inp.size)
      modifies this
      ensures DecodeInv(stackNo + 1, rounds', rescore, lists0, dyn0)
    {
      ghost var stacks0 := stacks;
      ghost var r := DecodeStack(stackNo, compare, rescore);
      RoundsExtend(inp, rescore, rounds, r, stacks0, stacks, lists0, dyn0);
      rounds' := rounds + [r];
    }

    /** The initial hypothesis seeds stack 0, whose single container is forwarded without neural options. */
    method Seed()
      requires |stacks| == inp.size + 1 && forall s :: 0 <= s < |stacks| ==> stacks[s] == []
      requires registrations == []
      requires OptionsOnTheirRange(inp)
      modifies this
      ensures |stacks| == inp.size + 1
      ensures stacks[0] == [Hypothesis(Initial(inp.size), 0, None)]
      ensures forall s :: 1 <= s < |stacks| ==> stacks[s] == []
      ensures StacksSound(stacks, inp.size)
      ensures forall k :: 0 <= k < |registrations| ==> WellFormedReg(inp.size, registrations[k])
      ensures registrations == RegsFrom(inp, Coverages(stacks[0]), None)
      ensures transOptionLists == old(transOptionLists) && dynamicOptions == old(dynamicOptions)
    {
      var init := Hypothesis(Initial(inp.size), 0, None);
      InitialCountsNothing(inp.size);
      stacks := stacks[0 := [init]];
      var none := CreateForwardTodos(0, None);
      ListsFromNone(inp, Coverages(stacks[0]));
      RegistrationsWellFormed(0, None);
    }

    /**
      One round of Decode's loop: stack s is filled and pruned, its
      hypotheses are rescored by the neural features, and its containers are
      forwarded with the options that yields.
     */
    method DecodeStack(s: nat, compare: (string, string) -> int,
                       rescore: (nat, seq<Hypothesis>) -> seq<seq<NeuralCandidate>>) returns (ghost r: Round)
      requires 1 <= s < |stacks| && |stacks| == inp.size + 1
      requires StacksSound(stacks, inp.size)
      requires OptionsOnTheirRange(inp) && ListsExist(inp)
      requires forall hs :: AllReadable(hs, rescore(s, hs), inp.size)
      requires forall k :: 0 <= k < |registrations| ==> WellFormedReg(inp.size, registrations[k])
      modifies this
      ensures r.stacksBefore == old(stacks) && r.regsBefore == old(registrations)
      ensures r.listsBefore == old(transOptionLists) && r.dynBefore == old(dynamicOptions)
      ensures |stacks| == |old(stacks)| && stacks == old(stacks)[s := stacks[s]]
      ensures RoundOf(inp, rescore, r, s, stacks[s])
      ensures r.regsAfter == registrations && r.listsAfter == transOptionLists && r.dynAfter == dynamicOptions
      ensures |stacks[s]| <= inp.options.stackSize
      ensures StacksSound(stacks, inp.size)
      ensures forall k :: 0 <= k < |registrations| ==> WellFormedReg(inp.size, registrations[k])
    {
      var hyps, popped, produced, pops, left, more := FillStack(s, compare);
      r := Round(stacks, registrations, transOptionLists, dynamicOptions, popped, produced, pops, left, more, map[], [], [], []);
      stacks := stacks[s := hyps];
      var neuro := ProcessStackForNeuro(s, rescore(s, hyps));
      ghost var regs0 := registrations;
      var after := CreateForwardTodos(s, Some(neuro));
      r := r.(neuro := neuro, regsAfter := registrations, listsAfter := transOptionLists, dynAfter := dynamicOptions);
      RegistrationsWellFormed(s, Some(neuro));
      forall k | 0 <= k < |registrations|
        ensures WellFormedReg(inp.size, registrations[k])
      {
        if k >= |regs0| {
          assert registrations[k] in RegsFrom(inp, Coverages(stacks[s]), Some(neuro));
        }
      }
    }

    /** The edges forwarded from a sound stack are well formed. */
    lemma RegistrationsWellFormed(s: nat, neuro: Option<NeuroPhraseColl>)
      requires s < |stacks|
      requires forall h :: h in stacks[s] ==> |h.coverage| == inp.size
      requires OptionsOnTheirRange(inp)
      ensures forall reg :: reg in RegsFrom(inp, Coverages(stacks[s]), neuro) ==> WellFormedReg(inp.size, reg)
    {
      var bs := Coverages(stacks[s]);
      forall i | 0 <= i < |bs|
        ensures |bs[i]| == inp.size
      {
        var h :| h in stacks[s] && h.coverage == bs[i];
      }
      RegsFromWellFormed(inp, bs, neuro);
    }
  }

  /** The stacks round i started from: the stacks up to i as they end up, the later ones empty. */
  ghost predicate StacksBefore(before: seq<seq<Hypothesis>>, stacks: seq<seq<Hypothesis>>, i: nat)
  {
    |before| == |stacks| && forall t :: 0 <= t < |stacks| ==> before[t] == if t <= i then stacks[t] else []
  }

  /**
    What Decode has done after the rounds so far, ending with the edges
    regs, the extended lists lists and the dynamic options dyn: the seeding
    forwarded stack 0 without neural options and allocated nothing; round i
    started from the stacks before stack i + 1 and filled that stack; each
    round started from what the previous one left, and the last one left
    the final state.
   */
  ghost predicate Trace(inp: SearchInput, rescore: (nat, seq<Hypothesis>) -> seq<seq<NeuralCandidate>>,
                        stacks: seq<seq<Hypothesis>>, rounds: seq<Round>, regs: seq<Registration>,
                        lists: seq<seq<TranslationOption>>, dyn: seq<TranslationOption>,
                        lists0: seq<seq<TranslationOption>>, dyn0: seq<TranslationOption>)
  {
    && |rounds| < |stacks|
    && (|rounds| == 0 ==> regs == RegsFrom(inp, Coverages(stacks[0]), None) && lists == lists0 && dyn == dyn0)
    && (|rounds| > 0 ==>
          && rounds[0].regsBefore == RegsFrom(inp, Coverages(stacks[0]), None)
          && rounds[0].listsBefore == lists0 && rounds[0].dynBefore == dyn0
          && var last := rounds[|rounds| - 1];
          regs == last.regsAfter && lists == last.listsAfter && dyn == last.dynAfter)
    && forall i :: 0 <= i < |rounds| ==> RoundAt(inp, rescore, stacks, rounds, i)
  }

  /** Round i started from the stacks before stack i + 1 and from what round i - 1 left, and filled stack i + 1. */
  ghost predicate RoundAt(inp: SearchInput, rescore: (nat, seq<Hypothesis>) -> seq<seq<NeuralCandidate>>,
                          stacks: seq<seq<Hypothesis>>, rounds: seq<Round>, i: nat)
  {
    && i < |rounds| && i + 1 < |stacks|
    && StacksBefore(rounds[i].stacksBefore, stacks, i)
    && RoundOf(inp, rescore, rounds[i], i + 1, stacks[i + 1])
    && (i > 0 ==> Chained(rounds[i - 1], rounds[i]))
  }

  /** The seeding allocates no extended list: only the neural overload does. */
  lemma {:induction false} ListsFromNone(inp: SearchInput, bs: seq<Bitmap>)
    ensures ListsFrom(inp, bs, None) == []
  {
    if |bs| > 0 {
      ListsOverNone(inp, bs[0], Tried(bs[0], inp.options.maxPhraseLength));
      ListsFromNone(inp, bs[1..]);
    }
  }

  lemma {:induction false} ListsOverNone(inp: SearchInput, b: Bitmap, rs: seq<Range>)
    ensures ListsOver(inp, b, rs, None) == []
  {
    if |rs| > 0 {
      ListsOverNone(inp, b, rs[1..]);
    }
  }

  /** A round that fills the next stack from what the trace ends with extends the trace. */
  lemma RoundsExtend(inp: SearchInput, rescore: (nat, seq<Hypothesis>) -> seq<seq<NeuralCandidate>>, rounds: seq<Round>, r: Round,
                     stacks0: seq<seq<Hypothesis>>, stacks: seq<seq<Hypothesis>>,
                     lists0: seq<seq<TranslationOption>>, dyn0: seq<TranslationOption>)
    requires |rounds| + 1 < |stacks0| == |stacks| && stacks == stacks0[|rounds| + 1 := stacks[|rounds| + 1]]
    requires forall t :: |rounds| + 1 <= t < |stacks0| ==> stacks0[t] == []
    requires r.stacksBefore == stacks0
    requires Trace(inp, rescore, stacks0, rounds, r.regsBefore, r.listsBefore, r.dynBefore, lists0, dyn0)
    requires RoundOf(inp, rescore, r, |rounds| + 1, stacks[|rounds| + 1])
    ensures Trace(inp, rescore, stacks, rounds + [r], r.regsAfter, r.listsAfter, r.dynAfter, lists0, dyn0)
  {
    var rs := rounds + [r];
    var n := |rounds|;
    assert stacks[0] == stacks0[0];
    assert rs[n] == r;
    if n > 0 {
      assert rs[0] == rounds[0];
    }
    forall i | 0 <= i < n + 1
      ensures RoundAt(inp, rescore, stacks, rs, i)
    {
      if i < n {
        RoundStays(inp, rescore, rounds, r, stacks0, stacks, i);
      } else if n > 0 {
        assert rs[n - 1] == rounds[n - 1];
      }
    }
  }

  /** An earlier round is unaffected by appending a round that fills a later stack. */
  lemma RoundStays(inp: SearchInput, rescore: (nat, seq<Hypothesis>) -> seq<seq<NeuralCandidate>>, rounds: seq<Round>, r: Round,
                   stacks0: seq<seq<Hypothesis>>, stacks: seq<seq<Hypothesis>>, i: nat)
    requires |rounds| + 1 < |stacks0| == |stacks| && stacks == stacks0[|rounds| + 1 := stacks[|rounds| + 1]]
    requires i < |rounds| && RoundAt(inp, rescore, stacks0, rounds, i)
    ensures RoundAt(inp, rescore, stacks, rounds + [r], i)
  {
    var rs := rounds + [r];
    assert rs[i] == rounds[i] && stacks[i + 1] == stacks0[i + 1];
    if i > 0 {
      assert rs[i - 1] == rounds[i - 1];
    }
    assert StacksBefore(rounds[i].stacksBefore, stacks0, i);
  }

  /** Time had not run out at the start of any stack 1 .. n - 1. */
  ghost predicate InTimeBefore(outOfTime: nat -> bool, n: nat)
  {
    forall t :: 1 <= t < n ==> !outOfTime(t)
  }

  /** Time ran out at the start of some stack 1 .. s. */
  ghost predicate TimedOutBy(outOfTime: nat -> bool, s: nat)
  {
    exists t :: 1 <= t <= s && outOfTime(t)
  }

  /** The initial bitmap covers no word. */
  lemma {:induction false} InitialCountsNothing(size: nat)
    ensures NumCovered(Initial(size)) == 0
  {
    if size > 0 {
      InitialCountsNothing(size - 1);
      assert Initial(size)[..size - 1] == Initial(size - 1);
    }
  }
}
