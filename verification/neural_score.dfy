/**
  The neural scoring feature (moses/FF/NeuralScoreFeature.cpp): the bounded
  word-context state it attaches to hypotheses, the batching of a stack for
  rescoring, the shape of one rescoring batch, and the successor state built
  when a phrase is applied. The NMT engine itself (vocabulary lookup, batch
  steps) is a parameter.
 */
module NeuralScore {
  import opened Text

  datatype Option<T> = None | Some(value: T)

  /** The state of the feature on one hypothesis: the bounded target-word context. */
  class NeuralScoreState {
    var lastWord: string
    var context: seq<string>

    /** The successor state: the old context followed by lastWords, in order. */
    constructor Extend(context: seq<string>, lastWords: seq<string>)
      requires |lastWords| > 0
      ensures this.context == context + lastWords
      ensures lastWord == lastWords[|lastWords| - 1]
    {
      lastWord := lastWords[|lastWords| - 1];
      this.context := context;
      new;
      var i := 0;
      while i < |lastWords|
        invariant 0 <= i <= |lastWords|
        invariant this.context == context + lastWords[..i]
        invariant lastWord == lastWords[|lastWords| - 1]
      {
        this.context := this.context + [lastWords[i]];
        i := i + 1;
      }
      assert lastWords[..i] == lastWords;
    }

    /** The state with no context and an empty last word. */
    constructor Empty()
      ensures lastWord == "" && context == []
    {
      lastWord := "";
      context := [];
    }

    /** Three-way comparison of the contexts. */
    function Compare(other: NeuralScoreState): (r: int)
      reads this, other
      ensures r == 0 <==> context == other.context
      ensures r == -1 || r == 0 || r == 1
    {
      if |context| == |other.context|
         && (forall i :: 0 <= i < |context| ==> context[i] == other.context[i])
      then 0
      else if ContextLess(context, other.context) then -1
      else 1
    }

    /** operator== as the source writes it: true when Compare is non-zero. */
    predicate EqualsAsWritten(other: NeuralScoreState)
      reads this, other
      ensures EqualsAsWritten(other) <==> context != other.context
    {
      if Compare(other) != 0 then true else false
    }

    /** operator== as evidently intended: true when Compare is zero. */
    predicate Equals(other: NeuralScoreState)
      reads this, other
      ensures Equals(other) <==> context == other.context
    {
      Compare(other) == 0
    }

    /** hash() puts every state in the same bucket. */
    function Hash(): (h: nat)
    {
      0
    }

    /** The context joined with single spaces. */
    method ToString() returns (s: string)
      ensures s == Join(context)
    {
      s := "";
      var i := 0;
      while i < |context|
        invariant 0 <= i <= |context|
        invariant s == Join(context[..i])
      {
        if i != 0 {
          s := s + " ";
        }
        s := s + context[i];
        JoinSnoc(context[..i], context[i]);
        assert context[..i + 1] == context[..i] + [context[i]];
        i := i + 1;
      }
      assert context[..i] == context;
    }

    /** Drops words from the front until at most length remain. */
    method LimitLength(length: nat)
      modifies this
      ensures context == LastN(old(context), length)
      ensures lastWord == old(lastWord)
    {
      ghost var dropped := 0;
      while |context| > length
        invariant dropped <= |old(context)|
        invariant context == old(context)[dropped..]
        invariant |old(context)| > length ==> |context| >= length
        invariant |old(context)| <= length ==> dropped == 0
        invariant lastWord == old(lastWord)
        decreases |context|
      {
        assert context[1..] == old(context)[dropped + 1..];
        context := context[1..];
        dropped := dropped + 1;
      }
      assert |old(context)| <= length ==> context == old(context);
    }
  }

  /** Compare is -1 exactly when this context is lexicographically less. */
  lemma CompareLess(a: NeuralScoreState, b: NeuralScoreState)
    ensures a.Compare(b) == -1 <==> ContextLess(a.context, b.context)
    ensures a.Compare(b) == 1 <==> a.context != b.context && !ContextLess(a.context, b.context)
  {
    ContextTrichotomy(a.context, b.context);
  }

  /** Non-zero comparisons are antisymmetric. */
  lemma CompareAntisymmetric(a: NeuralScoreState, b: NeuralScoreState)
    ensures a.Compare(b) == -b.Compare(a)
  {
    ContextTrichotomy(a.context, b.context);
  }

  /** As written, operator== holds exactly between states whose contexts differ. */
  lemma EqualsAsWrittenMeansDifferent(a: NeuralScoreState, b: NeuralScoreState)
    ensures a.EqualsAsWritten(b) <==> a.context != b.context
  {
  }

  /** As written, no state is equal to itself. */
  lemma EqualsAsWrittenIrreflexive(a: NeuralScoreState)
    ensures !a.EqualsAsWritten(a)
  {
  }

  /** The intended equality is an equivalence that agrees with the context and with hash(). */
  lemma EqualsIsContextEquality(a: NeuralScoreState, b: NeuralScoreState)
    ensures a.Equals(b) <==> a.context == b.context
    ensures a.Equals(a)
    ensures a.Equals(b) ==> b.Equals(a) && a.Hash() == b.Hash()
  {
  }

  // ---------------------------------------------------------------------------
  // Parameters

  function DigitValue(c: char): nat
    requires '0' <= c <= '9'
  {
    c as int - '0' as int
  }

  /** The longest prefix of s made of decimal digits. */
  function DigitPrefix(s: string): (d: string)
    ensures |d| <= |s| && d == s[..|d|]
    ensures forall i :: 0 <= i < |d| ==> '0' <= d[i] <= '9'
  {
    if |s| == 0 || !('0' <= s[0] <= '9') then ""
    else [s[0]] + DigitPrefix(s[1..])
  }

  /** The number a string of decimal digits denotes. */
  function DigitsValue(d: string): nat
    requires forall i :: 0 <= i < |d| ==> '0' <= d[i] <= '9'
  {
    if |d| == 0 then 0
    else DigitsValue(d[..|d| - 1]) * 10 + DigitValue(d[|d| - 1])
  }

  /** Scan<size_t>: the value of the leading decimal digits (0 when there are none). */
  function ScanNat(s: string): nat
  {
    DigitsValue(DigitPrefix(s))
  }

  /** Decimal notation of n, without leading zeros. */
  function Decimal(n: nat): (d: string)
    ensures |d| >= 1
    ensures forall i :: 0 <= i < |d| ==> '0' <= d[i] <= '9'
  {
    var last := ['0' + (n % 10) as char];
    if n < 10 then last else Decimal(n / 10) + last
  }

  lemma {:induction false} DigitPrefixOfDigits(d: string)
    requires forall i :: 0 <= i < |d| ==> '0' <= d[i] <= '9'
    ensures DigitPrefix(d) == d
  {
    if |d| > 0 {
      DigitPrefixOfDigits(d[1..]);
    }
  }

  lemma {:induction false} DigitsValueOfDecimal(n: nat)
    ensures DigitsValue(Decimal(n)) == n
  {
    var d := Decimal(n);
    if n >= 10 {
      DigitsValueOfDecimal(n / 10);
      assert d[..|d| - 1] == Decimal(n / 10);
    }
  }

  /** Scanning the decimal notation of a number gives the number back. */
  lemma ScanNatDecimal(n: nat)
    ensures ScanNat(Decimal(n)) == n
  {
    DigitPrefixOfDigits(Decimal(n));
    DigitsValueOfDecimal(n);
  }

  // ---------------------------------------------------------------------------
  // The feature

  /** What rescoring reads of one hypothesis. */
  datatype HypothesisView = HypothesisView(
    id: nat,
    targetWords: seq<string>,
    sourceCompleted: bool,
    prevContext: seq<string>)

  /** The longest target phrase of the batch, and at least 1. */
  function LongestPhrase(hyps: seq<HypothesisView>): (m: nat)
    ensures m >= 1
    ensures forall i :: 0 <= i < |hyps| ==> |hyps[i].targetWords| <= m
    ensures m == 1 || exists i :: 0 <= i < |hyps| && |hyps[i].targetWords| == m
  {
    if |hyps| == 0 then 1
    else
      var m := LongestPhrase(hyps[..|hyps| - 1]);
      var l := |hyps[|hyps| - 1].targetWords|;
      assert forall i :: 0 <= i < |hyps| - 1 ==> hyps[..|hyps| - 1][i] == hyps[i];
      if l > m then l else m
  }

  predicate AnyCompleted(hyps: seq<HypothesisView>)
  {
    exists i :: 0 <= i < |hyps| && hyps[i].sourceCompleted
  }

  /** maxLength of a rescoring batch: the longest phrase, plus one for "</s>" when any hypothesis is complete. */
  function MaxLength(hyps: seq<HypothesisView>): nat
  {
    LongestPhrase(hyps) + (if AnyCompleted(hyps) then 1 else 0)
  }

  /** The vocabulary id the batch grid holds at row j of column i. */
  function GridCell(hyps: seq<HypothesisView>, vocab: string -> int, i: nat, j: nat): int
    requires i < |hyps|
  {
    var words := hyps[i].targetWords;
    if j < |words| then vocab(words[j])
    else if j == |words| && AnyCompleted(hyps) then vocab("</s>")
    else -1
  }

  /** Every phrase, with its end marker when the batch holds a complete hypothesis, fits above the last grid row. */
  lemma GridHoldsEveryPhrase(hyps: seq<HypothesisView>, vocab: string -> int)
    ensures forall i :: 0 <= i < |hyps| ==>
      |hyps[i].targetWords| + (if AnyCompleted(hyps) then 1 else 0) <= MaxLength(hyps)
    ensures forall i :: 0 <= i < |hyps| ==> GridCell(hyps, vocab, i, MaxLength(hyps)) == -1
  {
  }

  /** The words a hypothesis contributes to the context: its target phrase, then "</s>" if it completes the source. */
  function AppliedPhrase(targetWords: seq<string>, sourceCompleted: bool): seq<string>
  {
    if sourceCompleted then targetWords + ["</s>"] else targetWords
  }

  /** The three settings the feature reads from its configuration line. */
  datatype Settings = Settings(stateLength: nat, mode: string, configFilePath: string)

  /** What SetParameter does to the settings for one key=value pair. */
  function Applied(st: Settings, key: string, value: string): Settings
  {
    if key == "state-length" then st.(stateLength := ScanNat(value))
    else if key == "mode" then st.(mode := value)
    else if key == "config-path" then st.(configFilePath := value)
    else st
  }

  /** ReadParameters: the defaults, then every key=value pair of the line in order. */
  function ReadParameters(params: seq<(string, string)>): Settings
  {
    if |params| == 0 then Settings(5, "rescore", "")
    else
      var last := params[|params| - 1];
      Applied(ReadParameters(params[..|params| - 1]), last.0, last.1)
  }

  /** The last pair that sets a key decides that setting. */
  lemma {:induction false} LastSettingWins(params: seq<(string, string)>, i: nat)
    requires i < |params|
    requires forall j :: i < j < |params| ==> params[j].0 != params[i].0
    ensures params[i].0 == "state-length" ==> ReadParameters(params).stateLength == ScanNat(params[i].1)
    ensures params[i].0 == "mode" ==> ReadParameters(params).mode == params[i].1
    ensures params[i].0 == "config-path" ==> ReadParameters(params).configFilePath == params[i].1
  {
    var front := params[..|params| - 1];
    if i < |params| - 1 {
      assert forall j :: i < j < |front| ==> front[j] == params[j];
      LastSettingWins(front, i);
      assert params[|params| - 1].0 != params[i].0;
    }
  }

  /** A setting no pair names keeps its default. */
  lemma {:induction false} UnsetKeepsDefault(params: seq<(string, string)>)
    ensures (forall j :: 0 <= j < |params| ==> params[j].0 != "state-length") ==> ReadParameters(params).stateLength == 5
    ensures (forall j :: 0 <= j < |params| ==> params[j].0 != "mode") ==> ReadParameters(params).mode == "rescore"
    ensures (forall j :: 0 <= j < |params| ==> params[j].0 != "config-path") ==> ReadParameters(params).configFilePath == ""
  {
    if |params| > 0 {
      var front := params[..|params| - 1];
      UnsetKeepsDefault(front);
      assert forall j :: 0 <= j < |front| ==> front[j] == params[j];
    }
  }

  class NeuralScoreFeature {
    const batchSize: nat := 1000
    const factor: nat := 0
    var stateLength: nat
    var mode: string
    var configFilePath: string

    /** The defaults, then ReadParameters over the key=value pairs of the feature's line. */
    constructor (params: seq<(string, string)>)
      ensures Settings(stateLength, mode, configFilePath) == ReadParameters(params)
    {
      stateLength := 5;
      mode := "rescore";
      configFilePath := "";
      new;
      var i := 0;
      while i < |params|
        invariant 0 <= i <= |params|
        invariant Settings(stateLength, mode, configFilePath) == ReadParameters(params[..i])
      {
        assert params[..i + 1][..i] == params[..i];
        var _ := SetParameter(params[i].0, params[i].1);
        i := i + 1;
      }
      assert params[..i] == params;
    }

    /** Sets one feature parameter; any other key goes to the base feature (forwarded). */
    method SetParameter(key: string, value: string) returns (forwarded: bool)
      modifies this
      ensures forwarded <==> key !in {"state-length", "mode", "config-path"}
      ensures stateLength == if key == "state-length" then ScanNat(value) else old(stateLength)
      ensures mode == if key == "mode" then value else old(mode)
      ensures configFilePath == if key == "config-path" then value else old(configFilePath)
    {
      forwarded := false;
      if key == "state-length" {
        stateLength := ScanNat(value);
      } else if key == "mode" {
        mode := value;
      } else if key == "config-path" {
        configFilePath := value;
      } else {
        forwarded := true;
      }
    }

    /**
      The batches RescoreStack hands to RescoreStackBatch, in call order:
      consecutive slices of hyps, each non-empty and at most batchSize long,
      all but the last full. Nothing is rescored unless the mode is "rescore".
     */
    method RescoreStack<H>(hyps: seq<H>) returns (batches: seq<seq<H>>)
      ensures mode != "rescore" ==> batches == []
      ensures mode == "rescore" ==> Flatten(batches) == hyps
      ensures forall k :: 0 <= k < |batches| ==> 0 < |batches[k]| <= batchSize
      ensures forall k :: 0 <= k < |batches| - 1 ==> |batches[k]| == batchSize
    {
      batches := [];
      if mode != "rescore" {
        return;
      }
      var batch: seq<H> := [];
      var i := 0;
      while i < |hyps|
        invariant 0 <= i <= |hyps|
        invariant Flatten(batches) + batch == hyps[..i]
        invariant forall k :: 0 <= k < |batches| ==> |batches[k]| == batchSize
        invariant |batch| <= batchSize
        invariant i > 0 ==> |batch| > 0
      {
        if |batch| < batchSize {
          batch := batch + [hyps[i]];
        } else {
          FlattenSnoc(batches, batch);
          batches := batches + [batch];
          batch := [hyps[i]];
        }
        assert hyps[..i + 1] == hyps[..i] + [hyps[i]];
        i := i + 1;
      }
      assert hyps[..i] == hyps;
      if |batch| > 0 {
        FlattenSnoc(batches, batch);
        batches := batches + [batch];
      }
    }

    /**
      The shape of one rescoring batch: a (MaxLength + 1) x |hyps| grid of
      vocabulary ids, each column the hypothesis's phrase padded with -1. It
      returns None, before any state change, when it reaches a hypothesis with
      id 0; otherwise each hypothesis gets the context of its predecessor's
      state followed by its target phrase.
     */
    method RescoreStackBatch(hyps: seq<HypothesisView>, vocab: string -> int)
      returns (grid: seq<seq<int>>, newContexts: Option<seq<seq<string>>>)
      requires (forall i :: 0 <= i < |hyps| ==> hyps[i].id != 0) ==> forall i :: 0 <= i < |hyps| ==> |hyps[i].targetWords| > 0
      ensures newContexts.None? <==> exists i :: 0 <= i < |hyps| && hyps[i].id == 0
      ensures newContexts.Some? ==>
        && |grid| == MaxLength(hyps) + 1
        && (forall j :: 0 <= j < |grid| ==> |grid[j]| == |hyps|)
        && (forall j, i :: 0 <= j < |grid| && 0 <= i < |hyps| ==> grid[j][i] == GridCell(hyps, vocab, i, j))
      ensures newContexts.Some? ==>
        && |newContexts.value| == |hyps|
        && forall i :: 0 <= i < |hyps| ==> newContexts.value[i] == hyps[i].prevContext + hyps[i].targetWords
    {
      var maxLength := BatchMaxLength(hyps);
      grid := seq(maxLength + 1, _ => seq(|hyps|, _ => -1));
      var i := 0;
      while i < |hyps|
        invariant 0 <= i <= |hyps|
        invariant |grid| == maxLength + 1
        invariant forall j :: 0 <= j < |grid| ==> |grid[j]| == |hyps|
        invariant forall j, c :: 0 <= j < |grid| && 0 <= c < i ==> grid[j][c] == GridCell(hyps, vocab, c, j)
        invariant forall j, c :: 0 <= j < |grid| && i <= c < |hyps| ==> grid[j][c] == -1
        invariant forall c :: 0 <= c < i ==> hyps[c].id != 0
      {
        grid := FillColumn(grid, hyps, vocab, i);
        if hyps[i].id == 0 {
          newContexts := None;
          return;
        }
        i := i + 1;
      }

      var contexts: seq<seq<string>> := [];
      i := 0;
      while i < |hyps|
        invariant 0 <= i <= |hyps|
        invariant |contexts| == i
        invariant forall c :: 0 <= c < i ==> contexts[c] == hyps[c].prevContext + hyps[c].targetWords
      {
        var state := new NeuralScoreState.Extend(hyps[i].prevContext, hyps[i].targetWords);
        contexts := contexts + [state.context];
        i := i + 1;
      }
      newContexts := Some(contexts);
    }

    /**
      The state a hypothesis gets when its phrase is applied: the previous
      context followed by the phrase (and "</s>" when the source is complete),
      trimmed to the last stateLength words.
     */
    method EvaluateWhenApplied(prev: NeuralScoreState, targetWords: seq<string>, sourceCompleted: bool)
      returns (s: NeuralScoreState)
      requires |targetWords| > 0 || sourceCompleted
      ensures fresh(s)
      ensures s.context == LastN(prev.context + AppliedPhrase(targetWords, sourceCompleted), stateLength)
      ensures s.lastWord == AppliedPhrase(targetWords, sourceCompleted)[|AppliedPhrase(targetWords, sourceCompleted)| - 1]
    {
      var phrase: seq<string> := [];
      var i := 0;
      while i < |targetWords|
        invariant 0 <= i <= |targetWords|
        invariant phrase == targetWords[..i]
      {
        phrase := phrase + [targetWords[i]];
        i := i + 1;
      }
      assert targetWords[..i] == targetWords;
      if sourceCompleted {
        phrase := phrase + ["</s>"];
      }
      s := new NeuralScoreState.Extend(prev.context, phrase);
      s.LimitLength(stateLength);
    }
  }

  /** One more hypothesis: the longest phrase and the completion flag advance by that hypothesis alone. */
  lemma BatchStep(hyps: seq<HypothesisView>, h: nat)
    requires h < |hyps|
    ensures LongestPhrase(hyps[..h + 1]) ==
      if |hyps[h].targetWords| > LongestPhrase(hyps[..h]) then |hyps[h].targetWords| else LongestPhrase(hyps[..h])
    ensures AnyCompleted(hyps[..h + 1]) <==> AnyCompleted(hyps[..h]) || hyps[h].sourceCompleted
  {
    var front := hyps[..h + 1];
    assert front[..h] == hyps[..h];
    assert front[h] == hyps[h];
    if AnyCompleted(hyps[..h]) {
      var k :| 0 <= k < h && hyps[..h][k].sourceCompleted;
      assert front[k] == hyps[..h][k];
    }
    if AnyCompleted(front) && !hyps[h].sourceCompleted {
      var k :| 0 <= k < h + 1 && front[k].sourceCompleted;
      assert hyps[..h][k] == front[k];
    }
  }

  /** The first pass of RescoreStackBatch: the longest phrase, then one more row for "</s>" if any hypothesis is complete. */
  method BatchMaxLength(hyps: seq<HypothesisView>) returns (maxLength: nat)
    ensures maxLength == MaxLength(hyps)
  {
    maxLength := 1;
    var complete := false;
    var h := 0;
    while h < |hyps|
      invariant 0 <= h <= |hyps|
      invariant maxLength == LongestPhrase(hyps[..h])
      invariant complete <==> AnyCompleted(hyps[..h])
    {
      BatchStep(hyps, h);
      if hyps[h].sourceCompleted {
        complete := true;
      }
      if |hyps[h].targetWords| > maxLength {
        maxLength := |hyps[h].targetWords|;
      }
      h := h + 1;
    }
    assert hyps[..h] == hyps;
    if complete {
      maxLength := maxLength + 1;
    }
  }

  /** Writes hypothesis i's vocabulary ids (and "</s>" for a batch with a complete hypothesis) into column i of an all -1 column. */
  method FillColumn(grid: seq<seq<int>>, hyps: seq<HypothesisView>, vocab: string -> int, i: nat)
    returns (g: seq<seq<int>>)
    requires i < |hyps|
    requires |grid| == MaxLength(hyps) + 1
    requires forall r :: 0 <= r < |grid| ==> |grid[r]| == |hyps| && grid[r][i] == -1
    ensures |g| == |grid|
    ensures forall r :: 0 <= r < |g| ==> |g[r]| == |hyps|
    ensures forall r, c :: 0 <= r < |g| && 0 <= c < |hyps| ==>
      g[r][c] == if c == i then GridCell(hyps, vocab, i, r) else grid[r][c]
  {
    GridHoldsEveryPhrase(hyps, vocab);
    var words := hyps[i].targetWords;
    g := grid;
    var j := 0;
    while j < |words|
      invariant 0 <= j <= |words|
      invariant |g| == |grid|
      invariant forall r :: 0 <= r < |g| ==> |g[r]| == |hyps|
      invariant forall r, c :: 0 <= r < |g| && 0 <= c < |hyps| && c != i ==> g[r][c] == grid[r][c]
      invariant forall r :: 0 <= r < j ==> g[r][i] == vocab(words[r])
      invariant forall r :: j <= r < |g| ==> g[r][i] == -1
    {
      g := g[j := g[j][i := vocab(words[j])]];
      j := j + 1;
    }
    if AnyCompleted(hyps) {
      g := g[|words| := g[|words|][i := vocab("</s>")]];
    }
  }

  /** The batches laid end to end. */
  function Flatten<H>(batches: seq<seq<H>>): seq<H>
  {
    if |batches| == 0 then [] else Flatten(batches[..|batches| - 1]) + batches[|batches| - 1]
  }

  lemma FlattenSnoc<H>(batches: seq<seq<H>>, batch: seq<H>)
    ensures Flatten(batches + [batch]) == Flatten(batches) + batch
  {
    assert (batches + [batch])[..|batches|] == batches;
  }

  /** The successor context always ends with the applied phrase (or its last stateLength words). */
  lemma SuccessorContextEndsWithPhrase(prevContext: seq<string>, phrase: seq<string>, n: nat)
    ensures var c := LastN(prevContext + phrase, n);
      |c| == (if |prevContext| + |phrase| <= n then |prevContext| + |phrase| else n)
      && (|phrase| <= n ==> c[|c| - |phrase|..] == phrase)
  {
    var all := prevContext + phrase;
    var c := LastN(all, n);
    if |phrase| <= n && |all| > n {
      assert c[|c| - |phrase|..] == all[|all| - |phrase|..];
      assert all[|all| - |phrase|..] == phrase;
    } else if |phrase| <= n {
      assert all[|all| - |phrase|..] == phrase;
    }
  }
}
