/**
  The values the cube-pruning search passes around: translation options,
  hypotheses (reduced to what the search control reads of them), the
  candidates the neural feature proposes, and the container registrations
  the forward enumerator makes.
 */
module SearchTypes {
  import opened Coverage

  datatype Option<T> = None | Some(value: T)

  /** Concatenation is associative. */
  lemma AppendAssoc<T>(a: seq<T>, b: seq<T>, c: seq<T>)
    ensures (a + b) + c == a + (b + c)
  {
  }

  /** The search options the control code reads. */
  datatype SearchOptions = SearchOptions(
    maxDistortion: int,
    maxPhraseLength: nat,
    popLimit: nat,
    diversity: nat,
    stackSize: nat)

  /** A translation option: the source span it translates, its target phrase and its future score. */
  datatype TranslationOption = TranslationOption(range: Range, target: string, futureScore: int)

  /** TranslationOption::Better ranks by future score, greater first. */
  function OptionScore(o: TranslationOption): int
  {
    o.futureScore
  }

  /**
    A hypothesis as the search control sees it: its source coverage, its
    future score and the target phrase of its last option (none for the
    initial hypothesis).
   */
  datatype Hypothesis = Hypothesis(coverage: Bitmap, futureScore: int, target: Option<string>)

  function HypothesisScore(h: Hypothesis): int
  {
    h.futureScore
  }

  /**
    One candidate the neural feature proposes for a stack: the index of the
    hypothesis it extends, the source positions it covers, its target words
    and its score.
   */
  datatype NeuralCandidate = NeuralCandidate(prevIndex: nat, coverage: seq<nat>, phrase: seq<string>, score: int)

  /** NeuroPhraseColl: extra options filed under the coverage they lead to. */
  type NeuroPhraseColl = map<Bitmap, seq<TranslationOption>>

  /** The options filed under a coverage (operator[] yields an empty list for a missing key). */
  function Lookup(m: NeuroPhraseColl, b: Bitmap): seq<TranslationOption>
  {
    if b in m then m[b] else []
  }

  /**
    One SetBitmapAccessor call: the container for newBitmap in the given
    stack gets an edge from the container for prevBitmap, extending by range
    with the given options.
   */
  datatype Registration = Registration(
    stack: nat,
    newBitmap: Bitmap,
    range: Range,
    prevBitmap: Bitmap,
    options: seq<TranslationOption>)
}
