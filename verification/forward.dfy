/**
  The forward-extension side of cube pruning (moses/SearchCubePruning.cpp,
  CheckDistortion and the CreateForwardTodos overloads), as functions of
  what the search reads of the sentence: which spans a container may be
  extended by, which of them pass the distortion gate, and which edge each
  one registers in which stack.
 */
module Forward {
  import opened Coverage
  import opened Sorting
  import opened SearchTypes

  /**
    What the search reads of the sentence and its settings: the source
    length, the search options, the static translation options per span
    (a missing span is a null list), ReorderingConstraint::Check and
    ComputeDistortionDistance.
   */
  datatype SearchInput = SearchInput(
    size: nat,
    options: SearchOptions,
    transOptColl: map<Range, seq<TranslationOption>>,
    constraint: (Bitmap, nat, nat) -> bool,
    distance: (Range, Range) -> int)

  /** Every static option is filed under its own span. */
  ghost predicate OptionsOnTheirRange(inp: SearchInput)
  {
    forall r, o :: r in inp.transOptColl && o in inp.transOptColl[r] ==> o.range == r
  }

  // ---------------------------------------------------------------------------
  // The distortion gate

  /** CheckDistortion: may a hypothesis with coverage b be extended by r under the reordering limit? */
  function CheckDistortion(inp: SearchInput, b: Bitmap, r: Range): (ok: bool)
    ensures inp.options.maxDistortion < 0 ==> ok
    ensures inp.options.maxDistortion >= 0 && !inp.constraint(b, r.start, r.end) ==> !ok
    ensures inp.options.maxDistortion >= 0 && inp.constraint(b, r.start, r.end) && FirstGap(b) == r.start ==> ok
    ensures inp.options.maxDistortion >= 0 && FirstGap(b) != r.start ==>
      (ok <==> inp.constraint(b, r.start, r.end) && inp.distance(r, Range(FirstGap(b), FirstGap(b))) <= inp.options.maxDistortion)
  {
    if inp.options.maxDistortion < 0 then true
    else if !inp.constraint(b, r.start, r.end) then false
    else
      var gap := FirstGap(b);
      if gap == r.start then true
      else inp.distance(r, Range(gap, gap)) <= inp.options.maxDistortion
  }

  /** The same sentence under another reordering limit. */
  function WithLimit(inp: SearchInput, d: int): SearchInput
  {
    inp.(options := inp.options.(maxDistortion := d))
  }

  /** Raising the reordering limit never rejects a span the lower limit accepted. */
  lemma DistortionLimitMonotone(inp: SearchInput, b: Bitmap, r: Range, d: int)
    requires 0 <= inp.options.maxDistortion <= d
    requires CheckDistortion(inp, b, r)
    ensures CheckDistortion(WithLimit(inp, d), b, r)
  {
  }

  /** The first uncovered word is always a legal next step when the reordering constraint allows it. */
  lemma FirstGapAlwaysAllowed(inp: SearchInput, b: Bitmap)
    requires FirstGap(b) < |b|
    requires inp.constraint(b, FirstGap(b), FirstGap(b))
    ensures CheckDistortion(inp, b, Range(FirstGap(b), FirstGap(b)))
  {
  }

  // ---------------------------------------------------------------------------
  // The spans the enumerator tries

  function Max1(n: nat): nat
  {
    if n == 0 then 1 else n
  }

  /** The spans [start, e], [start, e+1], ... below stop, up to the first covered word (the endPos loop). */
  function TriedExt(b: Bitmap, start: nat, e: nat, stop: nat): seq<Range>
    requires stop <= |b|
    decreases stop - e
  {
    if e >= stop || b[e] then [] else [Range(start, e)] + TriedExt(b, start, e + 1, stop)
  }

  /** One more span of the endPos loop moves from what is left to what is done. */
  lemma TriedExtStep(done: seq<Range>, b: Bitmap, start: nat, e: nat, stop: nat)
    requires e < stop <= |b| && !b[e]
    ensures (done + [Range(start, e)]) + TriedExt(b, start, e + 1, stop) == done + TriedExt(b, start, e, stop)
  {
    AppendAssoc(done, [Range(start, e)], TriedExt(b, start, e + 1, stop));
  }

  /** The spans tried from one start position: the single word, then the longer spans. */
  function TriedAt(b: Bitmap, start: nat, mpl: nat): seq<Range>
    requires start < |b|
  {
    if b[start] then []
    else [Range(start, start)] + TriedExt(b, start, start + 1, start + Min(|b| - start, mpl))
  }

  /** The spans tried from start positions at or after start, in order (the startPos loop). */
  function TriedFrom(b: Bitmap, start: nat, mpl: nat): seq<Range>
    decreases |b| - start
  {
    if start >= |b| then [] else TriedAt(b, start, mpl) + TriedFrom(b, start + 1, mpl)
  }

  function Tried(b: Bitmap, mpl: nat): seq<Range>
  {
    TriedFrom(b, 0, mpl)
  }

  /** A span that can still be translated from coverage b: inside the sentence, uncovered, not too long. */
  ghost predicate Triable(b: Bitmap, r: Range, mpl: nat)
  {
    && r.start <= r.end < |b|
    && (forall i :: r.start <= i <= r.end ==> !b[i])
    && r.end - r.start < Max1(mpl)
  }

  /** A longer span tried from e begins at start, ends below stop and covers no covered word from e on. */
  lemma {:induction false} TriedExtSound(b: Bitmap, start: nat, e: nat, stop: nat, r: Range)
    requires stop <= |b|
    requires r in TriedExt(b, start, e, stop)
    ensures r.start == start && e <= r.end < stop
    ensures forall i :: e <= i <= r.end ==> !b[i]
    decreases stop - e
  {
    assert e < stop && !b[e];
    if r != Range(start, e) {
      assert r in TriedExt(b, start, e + 1, stop);
      TriedExtSound(b, start, e + 1, stop, r);
      forall i | e <= i <= r.end
        ensures !b[i]
      {
        if i > e {
          assert e + 1 <= i <= r.end;
        }
      }
    }
  }

  /** Every span from start ending below stop with no covered word from e on is tried from e. */
  lemma {:induction false} TriedExtComplete(b: Bitmap, start: nat, e: nat, stop: nat, r: Range)
    requires stop <= |b|
    requires r.start == start && e <= r.end < stop
    requires forall i :: e <= i <= r.end ==> !b[i]
    ensures r in TriedExt(b, start, e, stop)
    decreases stop - e
  {
    assert !b[e];
    if r.end != e {
      TriedExtComplete(b, start, e + 1, stop, r);
    }
  }

  /** A span tried from start begins there and can be translated. */
  lemma TriedAtSound(b: Bitmap, start: nat, mpl: nat, r: Range)
    requires start < |b|
    requires r in TriedAt(b, start, mpl)
    ensures r.start == start && Triable(b, r, mpl)
  {
    assert !b[start];
    var stop := start + Min(|b| - start, mpl);
    var ext := TriedExt(b, start, start + 1, stop);
    assert TriedAt(b, start, mpl) == [Range(start, start)] + ext;
    if r != Range(start, start) {
      assert r in ext;
      TriedExtSound(b, start, start + 1, stop, r);
      assert r.end - r.start < Max1(mpl);
      assert forall i :: start + 1 <= i <= r.end ==> !b[i];
      forall i | r.start <= i <= r.end
        ensures !b[i]
      {
        if i != start {
          assert start + 1 <= i;
        }
      }
    }
  }

  /** Every translatable span beginning at start is tried from start. */
  lemma TriedAtComplete(b: Bitmap, start: nat, mpl: nat, r: Range)
    requires start < |b|
    requires r.start == start && Triable(b, r, mpl)
    ensures r in TriedAt(b, start, mpl)
  {
    assert !b[start];
    var stop := start + Min(|b| - start, mpl);
    var ext := TriedExt(b, start, start + 1, stop);
    assert TriedAt(b, start, mpl) == [Range(start, start)] + ext;
    if r.end != start {
      assert r.end < stop;
      TriedExtComplete(b, start, start + 1, stop, r);
    }
  }

  lemma TriedAtIff(b: Bitmap, start: nat, mpl: nat, r: Range)
    requires start < |b|
    ensures r in TriedAt(b, start, mpl) <==> r.start == start && Triable(b, r, mpl)
  {
    if r in TriedAt(b, start, mpl) {
      TriedAtSound(b, start, mpl, r);
    }
    if r.start == start && Triable(b, r, mpl) {
      TriedAtComplete(b, start, mpl, r);
    }
  }

  /** A span tried from start positions at or after start begins there or later and can be translated. */
  lemma {:induction false} TriedFromSound(b: Bitmap, start: nat, mpl: nat, r: Range)
    requires r in TriedFrom(b, start, mpl)
    ensures start <= r.start && Triable(b, r, mpl)
    decreases |b| - start
  {
    assert start < |b|;
    assert TriedFrom(b, start, mpl) == TriedAt(b, start, mpl) + TriedFrom(b, start + 1, mpl);
    if r in TriedAt(b, start, mpl) {
      TriedAtSound(b, start, mpl, r);
    } else {
      TriedFromSound(b, start + 1, mpl, r);
    }
  }

  /** Every translatable span beginning at start or later is tried. */
  lemma {:induction false} TriedFromComplete(b: Bitmap, start: nat, mpl: nat, r: Range)
    requires start <= r.start && Triable(b, r, mpl)
    ensures r in TriedFrom(b, start, mpl)
    decreases |b| - start
  {
    assert start < |b|;
    assert TriedFrom(b, start, mpl) == TriedAt(b, start, mpl) + TriedFrom(b, start + 1, mpl);
    if r.start == start {
      TriedAtComplete(b, start, mpl, r);
    } else {
      TriedFromComplete(b, start + 1, mpl, r);
    }
  }

  /**
    The enumerator tries exactly the spans that lie inside the sentence,
    cover no covered word, and are no longer than the maximum phrase length
    (a single word always).
   */
  lemma TriedIff(b: Bitmap, mpl: nat, r: Range)
    ensures r in Tried(b, mpl) <==> Triable(b, r, mpl)
  {
    if r in Tried(b, mpl) {
      TriedFromSound(b, 0, mpl, r);
    }
    if Triable(b, r, mpl) {
      TriedFromComplete(b, 0, mpl, r);
    }
  }

  // ---------------------------------------------------------------------------
  // Merging the neural options into a span's list

  /** The neural options of a list that translate span r. */
  function OnRange(neural: seq<TranslationOption>, r: Range): (f: seq<TranslationOption>)
    ensures forall o :: o in f <==> o in neural && o.range == r
  {
    if |neural| == 0 then []
    else
      var last := neural[|neural| - 1];
      assert forall o :: o in neural <==> o in neural[..|neural| - 1] || o == last by {
        assert neural == neural[..|neural| - 1] + [last];
      }
      OnRange(neural[..|neural| - 1], r) + (if last.range == r then [last] else [])
  }

  /**
    The extended option list of the neural CreateForwardTodos as written:
    static options then every neural option filed under the new coverage,
    sorted by TranslationOption::Better.
   */
  function MergedAsWritten(fixed: seq<TranslationOption>, neural: seq<TranslationOption>): seq<TranslationOption>
  {
    SortByKey(fixed + neural, OptionScore)
  }

  /** The corrected list: the neural options filed under the new coverage are kept only when they translate the edge's span. */
  function Merged(fixed: seq<TranslationOption>, neural: seq<TranslationOption>, r: Range): seq<TranslationOption>
  {
    MergedAsWritten(fixed, OnRange(neural, r))
  }

  /** The extended list is the static options and every filed neural option, reordered best first. */
  lemma MergedPermutes(fixed: seq<TranslationOption>, neural: seq<TranslationOption>)
    ensures multiset(MergedAsWritten(fixed, neural)) == multiset(fixed) + multiset(neural)
    ensures SortedBy(MergedAsWritten(fixed, neural), OptionScore)
    ensures |MergedAsWritten(fixed, neural)| == |fixed| + |neural|
  {
    SortByKeyCorrect(fixed + neural, OptionScore);
  }

  /** Every option of a merged list translates the edge's span when the static ones do. */
  lemma MergedOnRange(fixed: seq<TranslationOption>, neural: seq<TranslationOption>, r: Range)
    requires forall o :: o in fixed ==> o.range == r
    ensures forall o :: o in Merged(fixed, neural, r) ==> o.range == r
  {
    MergedPermutes(fixed, OnRange(neural, r));
    forall o | o in Merged(fixed, neural, r)
      ensures o.range == r
    {
      assert o in multiset(Merged(fixed, neural, r));
      assert o in multiset(fixed + OnRange(neural, r));
    }
  }

  /**
    As written, the neural options are found by the new coverage alone. In a
    three-word sentence, a neural option for span [0, 1] after coverage {2}
    and the edge extending coverage {0} by [1, 2] lead to the same coverage,
    so the option joins that edge's list although it translates a span the
    edge's hypotheses have already covered in part.
   */
  lemma MergedAsWrittenCounterexample()
    ensures Union([false, false, true], Range(0, 1)) == Union([true, false, false], Range(1, 2))
    ensures !Overlap([false, false, true], Range(0, 1))
    ensures Overlap([true, false, false], Range(0, 1))
    ensures MergedAsWritten([], [TranslationOption(Range(0, 1), "a b", 0)])[0].range != Range(1, 2)
  {
    var u := Union([false, false, true], Range(0, 1));
    var v := Union([true, false, false], Range(1, 2));
    assert u == [true, true, true];
    assert v == [true, true, true];
    assert [true, false, false][0];
  }

  // ---------------------------------------------------------------------------
  // Registrations

  /** The static list for a span, empty when there is none. */
  function StaticList(inp: SearchInput, r: Range): seq<TranslationOption>
  {
    if r in inp.transOptColl then inp.transOptColl[r] else []
  }

  /** The options of the edge for span r into coverage nb, with or without neural options. */
  function EdgeOptions(inp: SearchInput, nb: Bitmap, r: Range, neuro: Option<NeuroPhraseColl>): seq<TranslationOption>
  {
    match neuro
    case None => StaticList(inp, r)
    case Some(m) => MergedAsWritten(StaticList(inp, r), Lookup(m, nb))
  }

  /**
    What extending coverage b by span r registers: nothing when the
    distortion gate fails or the static list is missing or empty; otherwise
    one edge into the stack of the new covered count.
   */
  function RegFor(inp: SearchInput, b: Bitmap, r: Range, neuro: Option<NeuroPhraseColl>): seq<Registration>
  {
    if CheckDistortion(inp, b, r) && |StaticList(inp, r)| > 0 then
      var nb := Union(b, r);
      [Registration(NumCovered(nb), nb, r, b, EdgeOptions(inp, nb, r, neuro))]
    else []
  }

  /** The extended lists the neural overload allocates: one per span passing the gate, registered or not. */
  function ListFor(inp: SearchInput, b: Bitmap, r: Range, neuro: Option<NeuroPhraseColl>): seq<seq<TranslationOption>>
  {
    if neuro.Some? && CheckDistortion(inp, b, r) then [MergedAsWritten(StaticList(inp, r), Lookup(neuro.value, Union(b, r)))]
    else []
  }

  function RegsOver(inp: SearchInput, b: Bitmap, rs: seq<Range>, neuro: Option<NeuroPhraseColl>): seq<Registration>
  {
    if |rs| == 0 then [] else RegFor(inp, b, rs[0], neuro) + RegsOver(inp, b, rs[1..], neuro)
  }

  function ListsOver(inp: SearchInput, b: Bitmap, rs: seq<Range>, neuro: Option<NeuroPhraseColl>): seq<seq<TranslationOption>>
  {
    if |rs| == 0 then [] else ListFor(inp, b, rs[0], neuro) + ListsOver(inp, b, rs[1..], neuro)
  }

  lemma {:induction false} RegsOverAppend(inp: SearchInput, b: Bitmap, xs: seq<Range>, ys: seq<Range>, neuro: Option<NeuroPhraseColl>)
    ensures RegsOver(inp, b, xs + ys, neuro) == RegsOver(inp, b, xs, neuro) + RegsOver(inp, b, ys, neuro)
  {
    if |xs| > 0 {
      assert (xs + ys)[1..] == xs[1..] + ys;
      assert (xs + ys)[0] == xs[0];
      RegsOverAppend(inp, b, xs[1..], ys, neuro);
      AppendAssoc(RegFor(inp, b, xs[0], neuro), RegsOver(inp, b, xs[1..], neuro), RegsOver(inp, b, ys, neuro));
    } else {
      assert xs + ys == ys;
    }
  }

  /** Forwarding one more span appends what that span registers and allocates. */
  lemma OverSnoc(inp: SearchInput, b: Bitmap, done: seq<Range>, r: Range, neuro: Option<NeuroPhraseColl>)
    ensures RegsOver(inp, b, done + [r], neuro) == RegsOver(inp, b, done, neuro) + RegFor(inp, b, r, neuro)
    ensures ListsOver(inp, b, done + [r], neuro) == ListsOver(inp, b, done, neuro) + ListFor(inp, b, r, neuro)
  {
    RegsOverAppend(inp, b, done, [r], neuro);
    ListsOverAppend(inp, b, done, [r], neuro);
    assert RegsOver(inp, b, [r], neuro) == RegFor(inp, b, r, neuro) + RegsOver(inp, b, [], neuro);
    assert ListsOver(inp, b, [r], neuro) == ListFor(inp, b, r, neuro) + ListsOver(inp, b, [], neuro);
  }

  lemma {:induction false} ListsOverAppend(inp: SearchInput, b: Bitmap, xs: seq<Range>, ys: seq<Range>, neuro: Option<NeuroPhraseColl>)
    ensures ListsOver(inp, b, xs + ys, neuro) == ListsOver(inp, b, xs, neuro) + ListsOver(inp, b, ys, neuro)
  {
    if |xs| > 0 {
      assert (xs + ys)[1..] == xs[1..] + ys;
      assert (xs + ys)[0] == xs[0];
      ListsOverAppend(inp, b, xs[1..], ys, neuro);
      AppendAssoc(ListFor(inp, b, xs[0], neuro), ListsOver(inp, b, xs[1..], neuro), ListsOver(inp, b, ys, neuro));
    } else {
      assert xs + ys == ys;
    }
  }

  /** Everything the stack enumerator registers from the containers with coverages bs, in order. */
  function RegsFrom(inp: SearchInput, bs: seq<Bitmap>, neuro: Option<NeuroPhraseColl>): seq<Registration>
  {
    if |bs| == 0 then []
    else RegsOver(inp, bs[0], Tried(bs[0], inp.options.maxPhraseLength), neuro) + RegsFrom(inp, bs[1..], neuro)
  }

  function ListsFrom(inp: SearchInput, bs: seq<Bitmap>, neuro: Option<NeuroPhraseColl>): seq<seq<TranslationOption>>
  {
    if |bs| == 0 then []
    else ListsOver(inp, bs[0], Tried(bs[0], inp.options.maxPhraseLength), neuro) + ListsFrom(inp, bs[1..], neuro)
  }

  lemma {:induction false} RegsFromAppend(inp: SearchInput, xs: seq<Bitmap>, ys: seq<Bitmap>, neuro: Option<NeuroPhraseColl>)
    ensures RegsFrom(inp, xs + ys, neuro) == RegsFrom(inp, xs, neuro) + RegsFrom(inp, ys, neuro)
  {
    if |xs| > 0 {
      assert (xs + ys)[1..] == xs[1..] + ys;
      assert (xs + ys)[0] == xs[0];
      RegsFromAppend(inp, xs[1..], ys, neuro);
      AppendAssoc(RegsOver(inp, xs[0], Tried(xs[0], inp.options.maxPhraseLength), neuro), RegsFrom(inp, xs[1..], neuro), RegsFrom(inp, ys, neuro));
    } else {
      assert xs + ys == ys;
    }
  }

  lemma {:induction false} ListsFromAppend(inp: SearchInput, xs: seq<Bitmap>, ys: seq<Bitmap>, neuro: Option<NeuroPhraseColl>)
    ensures ListsFrom(inp, xs + ys, neuro) == ListsFrom(inp, xs, neuro) + ListsFrom(inp, ys, neuro)
  {
    if |xs| > 0 {
      assert (xs + ys)[1..] == xs[1..] + ys;
      assert (xs + ys)[0] == xs[0];
      ListsFromAppend(inp, xs[1..], ys, neuro);
      AppendAssoc(ListsOver(inp, xs[0], Tried(xs[0], inp.options.maxPhraseLength), neuro), ListsFrom(inp, xs[1..], neuro), ListsFrom(inp, ys, neuro));
    } else {
      assert xs + ys == ys;
    }
  }

  /**
    A well-formed edge: the new coverage is the old one and the span, which
    lies inside the sentence and covers no covered word; the edge goes into
    the stack of the new covered count, which grows by the span's length;
    its option list is non-empty.
   */
  ghost predicate WellFormedReg(size: nat, reg: Registration)
  {
    && |reg.prevBitmap| == size
    && reg.range.start <= reg.range.end < size
    && !Overlap(reg.prevBitmap, reg.range)
    && reg.newBitmap == Union(reg.prevBitmap, reg.range)
    && reg.stack == NumCovered(reg.newBitmap) == NumCovered(reg.prevBitmap) + Length(reg.range)
    && |reg.options| > 0
  }

  /**
    The edge for a translatable span is well formed; its options are every
    static option for the span and every neural option filed under the new
    coverage, best first; an option for another span can only have come from
    the neural map.
   */
  lemma RegForWellFormed(inp: SearchInput, b: Bitmap, r: Range, neuro: Option<NeuroPhraseColl>)
    requires OptionsOnTheirRange(inp)
    requires |b| == inp.size
    requires Triable(b, r, inp.options.maxPhraseLength)
    ensures forall reg :: reg in RegFor(inp, b, r, neuro) ==> WellFormedReg(inp.size, reg)
    ensures forall reg :: reg in RegFor(inp, b, r, neuro) && neuro.Some? ==>
      multiset(reg.options) == multiset(StaticList(inp, r)) + multiset(Lookup(neuro.value, reg.newBitmap))
    ensures forall reg, o :: reg in RegFor(inp, b, r, neuro) && o in reg.options && o.range != r ==>
      neuro.Some? && o in Lookup(neuro.value, reg.newBitmap)
  {
    if CheckDistortion(inp, b, r) && |StaticList(inp, r)| > 0 {
      var st := StaticList(inp, r);
      assert !Overlap(b, r);
      NumCoveredUnion(b, r);
      if neuro.Some? {
        var nb := Union(b, r);
        var opts := MergedAsWritten(st, Lookup(neuro.value, nb));
        MergedPermutes(st, Lookup(neuro.value, nb));
        forall o | o in opts && o.range != r
          ensures o in Lookup(neuro.value, nb)
        {
          assert o in multiset(opts);
          assert o !in st;
        }
      }
    }
  }

  lemma {:induction false} RegsOverMember(inp: SearchInput, b: Bitmap, rs: seq<Range>, neuro: Option<NeuroPhraseColl>, reg: Registration)
    ensures reg in RegsOver(inp, b, rs, neuro) <==> exists i :: 0 <= i < |rs| && reg in RegFor(inp, b, rs[i], neuro)
  {
    if |rs| > 0 {
      RegsOverMember(inp, b, rs[1..], neuro, reg);
      if exists i :: 0 <= i < |rs| && reg in RegFor(inp, b, rs[i], neuro) {
        var i :| 0 <= i < |rs| && reg in RegFor(inp, b, rs[i], neuro);
        if i > 0 {
          assert rs[1..][i - 1] == rs[i];
        }
      }
    }
  }

  /** Every edge the enumerator registers from a full-length coverage is well formed. */
  lemma RegsOverWellFormed(inp: SearchInput, b: Bitmap, neuro: Option<NeuroPhraseColl>)
    requires OptionsOnTheirRange(inp)
    requires |b| == inp.size
    ensures forall reg :: reg in RegsOver(inp, b, Tried(b, inp.options.maxPhraseLength), neuro) ==> WellFormedReg(inp.size, reg)
  {
    var rs := Tried(b, inp.options.maxPhraseLength);
    forall reg | reg in RegsOver(inp, b, rs, neuro)
      ensures WellFormedReg(inp.size, reg)
    {
      RegsOverMember(inp, b, rs, neuro, reg);
      var i :| 0 <= i < |rs| && reg in RegFor(inp, b, rs[i], neuro);
      TriedIff(b, inp.options.maxPhraseLength, rs[i]);
      RegForWellFormed(inp, b, rs[i], neuro);
    }
  }

  /**
    From coverage b the enumerator registers an edge for span r exactly when
    r can still be translated, passes the distortion gate and has a
    non-empty static option list; neural options alone never register one.
   */
  lemma RegisteredIff(inp: SearchInput, b: Bitmap, neuro: Option<NeuroPhraseColl>, r: Range)
    ensures (exists reg :: reg in RegsOver(inp, b, Tried(b, inp.options.maxPhraseLength), neuro) && reg.range == r) <==>
      Triable(b, r, inp.options.maxPhraseLength) && CheckDistortion(inp, b, r) && |StaticList(inp, r)| > 0
  {
    if exists reg :: reg in RegsOver(inp, b, Tried(b, inp.options.maxPhraseLength), neuro) && reg.range == r {
      var reg :| reg in RegsOver(inp, b, Tried(b, inp.options.maxPhraseLength), neuro) && reg.range == r;
      RegisteredSound(inp, b, neuro, reg);
    }
    if Triable(b, r, inp.options.maxPhraseLength) && CheckDistortion(inp, b, r) && |StaticList(inp, r)| > 0 {
      RegisteredComplete(inp, b, neuro, r);
    }
  }

  /** An edge registered from coverage b is for a span the enumerator tries that passes the gate and has static options. */
  lemma RegisteredSound(inp: SearchInput, b: Bitmap, neuro: Option<NeuroPhraseColl>, reg: Registration)
    requires reg in RegsOver(inp, b, Tried(b, inp.options.maxPhraseLength), neuro)
    ensures Triable(b, reg.range, inp.options.maxPhraseLength)
    ensures CheckDistortion(inp, b, reg.range) && |StaticList(inp, reg.range)| > 0
  {
    var rs := Tried(b, inp.options.maxPhraseLength);
    RegsOverMember(inp, b, rs, neuro, reg);
    var i :| 0 <= i < |rs| && reg in RegFor(inp, b, rs[i], neuro);
    assert reg.range == rs[i];
    assert rs[i] in rs;
    TriedIff(b, inp.options.maxPhraseLength, rs[i]);
  }

  /** A tried span passing the gate with static options gets an edge. */
  lemma RegisteredComplete(inp: SearchInput, b: Bitmap, neuro: Option<NeuroPhraseColl>, r: Range)
    requires Triable(b, r, inp.options.maxPhraseLength) && CheckDistortion(inp, b, r) && |StaticList(inp, r)| > 0
    ensures exists reg :: reg in RegsOver(inp, b, Tried(b, inp.options.maxPhraseLength), neuro) && reg.range == r
  {
    var rs := Tried(b, inp.options.maxPhraseLength);
    TriedIff(b, inp.options.maxPhraseLength, r);
    var i :| 0 <= i < |rs| && rs[i] == r;
    var reg := RegFor(inp, b, r, neuro)[0];
    RegsOverMember(inp, b, rs, neuro, reg);
    assert reg in RegsOver(inp, b, rs, neuro) && reg.range == r;
  }


  lemma {:induction false} RegsFromMember(inp: SearchInput, bs: seq<Bitmap>, neuro: Option<NeuroPhraseColl>, reg: Registration)
    requires reg in RegsFrom(inp, bs, neuro)
    ensures exists i :: 0 <= i < |bs| && reg in RegsOver(inp, bs[i], Tried(bs[i], inp.options.maxPhraseLength), neuro)
  {
    var mpl := inp.options.maxPhraseLength;
    if reg !in RegsOver(inp, bs[0], Tried(bs[0], mpl), neuro) {
      RegsFromMember(inp, bs[1..], neuro, reg);
      var i :| 0 <= i < |bs[1..]| && reg in RegsOver(inp, bs[1..][i], Tried(bs[1..][i], mpl), neuro);
      assert bs[1..][i] == bs[i + 1];
    }
  }

  /** Every edge the stack enumerator registers from full-length coverages is well formed. */
  lemma RegsFromWellFormed(inp: SearchInput, bs: seq<Bitmap>, neuro: Option<NeuroPhraseColl>)
    requires OptionsOnTheirRange(inp)
    requires forall i :: 0 <= i < |bs| ==> |bs[i]| == inp.size
    ensures forall reg :: reg in RegsFrom(inp, bs, neuro) ==> WellFormedReg(inp.size, reg)
  {
    forall reg | reg in RegsFrom(inp, bs, neuro)
      ensures WellFormedReg(inp.size, reg)
    {
      RegsFromMember(inp, bs, neuro, reg);
      var i :| 0 <= i < |bs| && reg in RegsOver(inp, bs[i], Tried(bs[i], inp.options.maxPhraseLength), neuro);
      RegsOverWellFormed(inp, bs[i], neuro);
    }
  }
}
