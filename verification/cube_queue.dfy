/**
  The per-stack pop loop of cube pruning (moses/SearchCubePruning.cpp,
  Decode): bitmap containers in a priority queue ordered by
  BitmapContainerOrderer, popped at most PopLimit times, re-queued while
  they still hold candidates, then topped up by the diversity pass.

  BitmapContainer itself is not part of this model; a container is
  represented by its remaining candidate hypotheses, best first, and the
  number it has already put on the stack.
 */
module CubeQueue {
  import opened Coverage
  import opened SearchTypes
  import opened Sorting

  // ---------------------------------------------------------------------------
  // Container ordering

  /** What BitmapContainerOrderer reads of a container: its address and its top candidate, if any. */
  datatype ContainerTop = ContainerTop(id: nat, top: Option<Hypothesis>)

  /**
    BitmapContainerOrderer: true when a ranks below b, so that the priority
    queue pops b first. cmp stands for TargetPhrase::Compare.
   */
  function OrdererLess(a: ContainerTop, b: ContainerTop, cmp: (string, string) -> int): (below: bool)
    ensures below ==> a.top.None? || (b.top.Some? && a.top.value.futureScore <= b.top.value.futureScore)
    ensures a.top.Some? && b.top.Some? && a.top.value.futureScore < b.top.value.futureScore ==> below
  {
    if b.top.None? then a.top.None? && a.id < b.id
    else if a.top.None? then true
    else
      var sa := a.top.value.futureScore;
      var sb := b.top.value.futureScore;
      if sa < sb then true
      else if sa > sb then false
      else if a.top.value.target.Some? && b.top.value.target.Some? then
        cmp(a.top.value.target.value, b.top.value.target.value) > 0
      else a.id < b.id
  }

  /** An empty container ranks below every non-empty one. */
  lemma EmptyRanksBelow(a: ContainerTop, b: ContainerTop, cmp: (string, string) -> int)
    requires a.top.None? && b.top.Some?
    ensures OrdererLess(a, b, cmp) && !OrdererLess(b, a, cmp)
  {
  }

  /** Between non-empty containers, the greater top future score pops first. */
  lemma HigherScorePopsFirst(a: ContainerTop, b: ContainerTop, cmp: (string, string) -> int)
    requires a.top.Some? && b.top.Some?
    requires a.top.value.futureScore < b.top.value.futureScore
    ensures OrdererLess(a, b, cmp) && !OrdererLess(b, a, cmp)
  {
  }

  /** On equal scores with both top phrases present, a ranks below b exactly when Compare(a, b) > 0. */
  lemma EqualScoresComparePhrases(a: ContainerTop, b: ContainerTop, cmp: (string, string) -> int)
    requires a.top.Some? && b.top.Some?
    requires a.top.value.futureScore == b.top.value.futureScore
    requires a.top.value.target.Some? && b.top.value.target.Some?
    ensures OrdererLess(a, b, cmp) <==> cmp(a.top.value.target.value, b.top.value.target.value) > 0
  {
  }

  /** A container never ranks below itself, given that a phrase does not compare greater than itself. */
  lemma OrdererIrreflexive(a: ContainerTop, cmp: (string, string) -> int)
    requires a.top.Some? && a.top.value.target.Some? ==> cmp(a.top.value.target.value, a.top.value.target.value) <= 0
    ensures !OrdererLess(a, a, cmp)
  {
  }

  /** The order is asymmetric between distinct containers whenever the phrase comparison is antisymmetric in sign. */
  lemma OrdererAsymmetric(a: ContainerTop, b: ContainerTop, cmp: (string, string) -> int)
    requires a.id != b.id
    requires forall x, y :: cmp(x, y) > 0 ==> cmp(y, x) <= 0
    ensures OrdererLess(a, b, cmp) ==> !OrdererLess(b, a, cmp)
  {
  }

  // ---------------------------------------------------------------------------
  // Containers

  /** A bitmap container: its remaining candidates, best first, and how many hypotheses it has put on the stack. */
  datatype Cube = Cube(bitmap: Bitmap, pending: seq<Hypothesis>, added: nat)

  predicate NonEmpty(c: Cube)
  {
    |c.pending| > 0
  }

  function TopScore(c: Cube): int
    requires NonEmpty(c)
  {
    c.pending[0].futureScore
  }

  function TopOf(cubes: seq<Cube>, i: nat): ContainerTop
    requires i < |cubes|
  {
    ContainerTop(i, if NonEmpty(cubes[i]) then Some(cubes[i].pending[0]) else None)
  }

  /** Stand-in for ProcessBestHypothesis: the best candidate goes on the stack. */
  function AfterPop(c: Cube): (r: Cube)
    ensures r.bitmap == c.bitmap
    ensures NonEmpty(c) ==> c.pending == [c.pending[0]] + r.pending && r.added == c.added + 1
    ensures !NonEmpty(c) ==> r == c
  {
    if NonEmpty(c) then Cube(c.bitmap, c.pending[1..], c.added + 1) else c
  }

  /** Candidates not yet on the stack, over all containers. */
  function Remaining(cubes: seq<Cube>): nat
  {
    if |cubes| == 0 then 0 else Remaining(cubes[..|cubes| - 1]) + |cubes[|cubes| - 1].pending|
  }

  /** Changing one container changes the total by the difference of its candidate counts. */
  lemma {:induction false} RemainingUpdate(cubes: seq<Cube>, i: nat, c: Cube)
    requires i < |cubes|
    ensures Remaining(cubes[i := c]) + |cubes[i].pending| == Remaining(cubes) + |c.pending|
  {
    var n := |cubes|;
    var u := cubes[i := c];
    if i < n - 1 {
      assert u[..n - 1] == cubes[..n - 1][i := c];
      RemainingUpdate(cubes[..n - 1], i, c);
    } else {
      assert u[..n - 1] == cubes[..n - 1];
    }
  }

  /** The candidates of c0 not yet taken are those of c, which has put the difference on the stack. */
  predicate Consumed(c0: Cube, c: Cube)
  {
    && c.bitmap == c0.bitmap
    && c0.added <= c.added
    && c.added - c0.added <= |c0.pending|
    && c0.pending == c0.pending[..c.added - c0.added] + c.pending
  }

  lemma ConsumedAfterPop(c0: Cube, c: Cube)
    requires Consumed(c0, c)
    ensures Consumed(c0, AfterPop(c))
    ensures NonEmpty(c) ==> c.pending[0] in c0.pending
  {
    var t := c.added - c0.added;
    if NonEmpty(c) {
      assert c0.pending[..t + 1] == c0.pending[..t] + [c.pending[0]];
      assert c0.pending[t] == c.pending[0];
    }
  }

  /** Every produced hypothesis is a candidate of one of the containers. */
  ghost predicate FromCubes(produced: seq<Hypothesis>, cubes: seq<Cube>)
  {
    forall h :: h in produced ==> exists i :: 0 <= i < |cubes| && h in cubes[i].pending
  }

  // ---------------------------------------------------------------------------
  // The priority queue

  /**
    BCQueue.top(): scanning with the orderer finds a non-empty container
    whenever there is one, and its top score is the greatest among the
    non-empty containers.
   */
  method PopBest(cubes: seq<Cube>, queue: seq<nat>, cmp: (string, string) -> int) returns (k: nat)
    requires |queue| > 0
    requires forall q :: 0 <= q < |queue| ==> queue[q] < |cubes|
    ensures k < |queue|
    ensures (exists q :: 0 <= q < |queue| && NonEmpty(cubes[queue[q]])) ==> NonEmpty(cubes[queue[k]])
    ensures NonEmpty(cubes[queue[k]]) ==>
      forall q :: 0 <= q < |queue| && NonEmpty(cubes[queue[q]]) ==> TopScore(cubes[queue[k]]) >= TopScore(cubes[queue[q]])
  {
    k := 0;
    var j := 1;
    while j < |queue|
      invariant 1 <= j <= |queue| && k < j
      invariant (exists q :: 0 <= q < j && NonEmpty(cubes[queue[q]])) ==> NonEmpty(cubes[queue[k]])
      invariant NonEmpty(cubes[queue[k]]) ==>
        forall q :: 0 <= q < j && NonEmpty(cubes[queue[q]]) ==> TopScore(cubes[queue[k]]) >= TopScore(cubes[queue[q]])
    {
      if OrdererLess(TopOf(cubes, queue[k]), TopOf(cubes, queue[j]), cmp) {
        k := j;
      }
      j := j + 1;
    }
  }

  predicate Distinct(queue: seq<nat>)
  {
    forall a, b :: 0 <= a < b < |queue| ==> queue[a] != queue[b]
  }

  /**
    What holds between pops: the queue holds distinct containers, every
    container outside it is exhausted, and what the containers have given up
    is exactly what was produced.
   */
  ghost predicate QueueInv(cubes: seq<Cube>, result: seq<Cube>, queue: seq<nat>, produced: seq<Hypothesis>)
  {
    && |result| == |cubes|
    && Distinct(queue)
    && (forall q :: 0 <= q < |queue| ==> queue[q] < |cubes|)
    && (forall c :: 0 <= c < |cubes| && c !in queue ==> !NonEmpty(result[c]))
    && (forall c :: 0 <= c < |cubes| ==> Consumed(cubes[c], result[c]))
    && |produced| + Remaining(result) == Remaining(cubes)
    && FromCubes(produced, cubes)
  }

  /** Removing one entry of a queue of distinct containers removes exactly that container. */
  lemma RemoveFromQueue(queue: seq<nat>, k: nat)
    requires Distinct(queue) && k < |queue|
    ensures Distinct(queue[..k] + queue[k + 1..])
    ensures queue[k] !in queue[..k] + queue[k + 1..]
    ensures forall x :: x in queue && x != queue[k] ==> x in queue[..k] + queue[k + 1..]
    ensures forall x :: x in queue[..k] + queue[k + 1..] ==> x in queue
  {
    var r := queue[..k] + queue[k + 1..];
    assert forall a :: 0 <= a < |r| ==> r[a] == if a < k then queue[a] else queue[a + 1];
    forall x | x in queue && x != queue[k]
      ensures x in r
    {
      var a :| 0 <= a < |queue| && queue[a] == x;
      if a < k {
        assert r[a] == x;
      } else {
        assert r[a - 1] == x;
      }
    }
  }

  /**
    One iteration of the main search loop: pop the best container, process
    its best candidate, re-queue it if not exhausted. The container popped
    has the greatest top score of all non-empty containers, and it is empty
    only when all of them are.
   */
  method PopStep(cubes: seq<Cube>, result: seq<Cube>, queue: seq<nat>, produced: seq<Hypothesis>, cmp: (string, string) -> int)
    returns (result': seq<Cube>, queue': seq<nat>, produced': seq<Hypothesis>, bc: nat)
    requires |queue| > 0
    requires QueueInv(cubes, result, queue, produced)
    ensures QueueInv(cubes, result', queue', produced')
    ensures bc in queue && result' == result[bc := AfterPop(result[bc])]
    ensures NonEmpty(result[bc]) ==> produced' == produced + [result[bc].pending[0]]
    ensures NonEmpty(result[bc]) ==>
      forall c :: 0 <= c < |result| && NonEmpty(result[c]) ==> TopScore(result[bc]) >= TopScore(result[c])
    ensures !NonEmpty(result[bc]) ==> produced' == produced && forall c :: 0 <= c < |result| ==> !NonEmpty(result[c])
  {
    var k := PopBest(result, queue, cmp);
    bc := queue[k];
    var c := result[bc];
    produced' := produced;
    if NonEmpty(c) {
      produced' := produced + [c.pending[0]];
    }
    result' := result[bc := AfterPop(c)];
    queue' := queue[..k] + queue[k + 1..];
    if NonEmpty(result'[bc]) {
      queue' := queue' + [bc];
    }
    PopKeepsInv(cubes, result, queue, produced, k, result', queue', produced');
    forall i | 0 <= i < |result| && NonEmpty(result[i])
      ensures exists q :: 0 <= q < |queue| && queue[q] == i
    {
      assert i in queue;
    }
  }

  /** A pop that produces nothing leaves every container exhausted, and they stay so. */
  lemma ExhaustedStep(result: seq<Cube>, produced: seq<Hypothesis>, bc: nat, result': seq<Cube>, produced': seq<Hypothesis>, n: nat)
    requires bc < |result| && result' == result[bc := AfterPop(result[bc])]
    requires NonEmpty(result[bc]) ==> produced' == produced + [result[bc].pending[0]]
    requires !NonEmpty(result[bc]) ==> produced' == produced && forall c :: 0 <= c < |result| ==> !NonEmpty(result[c])
    requires |produced| < n ==> forall c :: 0 <= c < |result| ==> !NonEmpty(result[c])
    ensures |produced'| < n + 1 ==> forall c :: 0 <= c < |result'| ==> !NonEmpty(result'[c])
  {
    if !NonEmpty(result[bc]) {
      assert result' == result;
    }
  }

  /** Every container's candidates are best first. */
  ghost predicate CubesSorted(cubes: seq<Cube>)
  {
    forall c :: 0 <= c < |cubes| ==> SortedBy(cubes[c].pending, HypothesisScore)
  }

  /**
    Best-first production: what was produced is best first, and nothing
    still in a container scores above anything produced.
   */
  ghost predicate BestFirst(produced: seq<Hypothesis>, cubes: seq<Cube>)
  {
    && SortedBy(produced, HypothesisScore)
    && forall h, c, x :: h in produced && 0 <= c < |cubes| && x in cubes[c].pending ==> HypothesisScore(h) >= HypothesisScore(x)
  }

  /** Popping the container with the best top score from sorted containers keeps production best first. */
  lemma PopKeepsBestFirst(result: seq<Cube>, produced: seq<Hypothesis>, bc: nat, result': seq<Cube>, produced': seq<Hypothesis>)
    requires bc < |result|
    requires CubesSorted(result) && BestFirst(produced, result)
    requires result' == result[bc := AfterPop(result[bc])]
    requires NonEmpty(result[bc]) ==> produced' == produced + [result[bc].pending[0]]
    requires NonEmpty(result[bc]) ==>
      forall c :: 0 <= c < |result| && NonEmpty(result[c]) ==> TopScore(result[bc]) >= TopScore(result[c])
    requires !NonEmpty(result[bc]) ==> produced' == produced
    ensures CubesSorted(result') && BestFirst(produced', result')
  {
    var c := result[bc];
    if NonEmpty(c) {
      AfterPopSorted(c);
      forall i | 0 <= i < |result'|
        ensures SortedBy(result'[i].pending, HypothesisScore)
      {
        if i != bc {
          assert result'[i] == result[i];
        }
      }
      BestPopDominates(result, produced, bc, result');
    } else {
      assert result' == result;
    }
  }

  /** What is left of a best-first container after a pop is best first. */
  lemma AfterPopSorted(c: Cube)
    requires SortedBy(c.pending, HypothesisScore)
    ensures SortedBy(AfterPop(c).pending, HypothesisScore)
  {
    if NonEmpty(c) {
      var p := AfterPop(c).pending;
      forall a, b | 0 <= a < b < |p|
        ensures HypothesisScore(p[a]) >= HypothesisScore(p[b])
      {
        assert p[a] == c.pending[a + 1] && p[b] == c.pending[b + 1];
      }
    }
  }

  /** The best top of sorted containers scores no higher than anything produced and at least as high as everything left. */
  lemma BestPopDominates(result: seq<Cube>, produced: seq<Hypothesis>, bc: nat, result': seq<Cube>)
    requires bc < |result| && NonEmpty(result[bc])
    requires CubesSorted(result) && BestFirst(produced, result)
    requires result' == result[bc := AfterPop(result[bc])]
    requires forall c :: 0 <= c < |result| && NonEmpty(result[c]) ==> TopScore(result[bc]) >= TopScore(result[c])
    ensures BestFirst(produced + [result[bc].pending[0]], result')
  {
    var c := result[bc];
    var t := c.pending[0];
    var produced' := produced + [t];
    assert c.pending == [t] + AfterPop(c).pending;
    forall a, b | 0 <= a < b < |produced'|
      ensures HypothesisScore(produced'[a]) >= HypothesisScore(produced'[b])
    {
      if b == |produced| {
        assert produced'[a] in produced && t in c.pending;
      }
    }
    forall h, i, x | h in produced' && 0 <= i < |result'| && x in result'[i].pending
      ensures HypothesisScore(h) >= HypothesisScore(x)
    {
      assert x in result[i].pending by {
        if i == bc {
          assert x in [t] + AfterPop(c).pending;
        }
      }
      if h == t {
        var m :| 0 <= m < |result[i].pending| && result[i].pending[m] == x;
        assert NonEmpty(result[i]);
        assert HypothesisScore(result[i].pending[0]) >= HypothesisScore(x);
      }
    }
  }

  /** Popping entry k, processing its container's best candidate and re-queueing it while non-empty keeps QueueInv. */
  lemma PopKeepsInv(cubes: seq<Cube>, result: seq<Cube>, queue: seq<nat>, produced: seq<Hypothesis>, k: nat,
                    result': seq<Cube>, queue': seq<nat>, produced': seq<Hypothesis>)
    requires k < |queue|
    requires QueueInv(cubes, result, queue, produced)
    requires result' == result[queue[k] := AfterPop(result[queue[k]])]
    requires NonEmpty(result'[queue[k]]) ==> queue' == queue[..k] + queue[k + 1..] + [queue[k]]
    requires !NonEmpty(result'[queue[k]]) ==> queue' == queue[..k] + queue[k + 1..]
    requires NonEmpty(result[queue[k]]) ==> produced' == produced + [result[queue[k]].pending[0]]
    requires !NonEmpty(result[queue[k]]) ==> produced' == produced
    ensures QueueInv(cubes, result', queue', produced')
  {
    QueueAfterPop(cubes, result, queue, k, result', queue');
    CubesAfterPop(cubes, result, queue[k], produced, result', produced');
  }

  /** The queue part of QueueInv after a pop: distinct, in range, and holding every non-empty container. */
  lemma QueueAfterPop(cubes: seq<Cube>, result: seq<Cube>, queue: seq<nat>, k: nat, result': seq<Cube>, queue': seq<nat>)
    requires k < |queue| && |result| == |cubes|
    requires Distinct(queue)
    requires forall q :: 0 <= q < |queue| ==> queue[q] < |cubes|
    requires forall c :: 0 <= c < |cubes| && c !in queue ==> !NonEmpty(result[c])
    requires result' == result[queue[k] := AfterPop(result[queue[k]])]
    requires NonEmpty(result'[queue[k]]) ==> queue' == queue[..k] + queue[k + 1..] + [queue[k]]
    requires !NonEmpty(result'[queue[k]]) ==> queue' == queue[..k] + queue[k + 1..]
    ensures Distinct(queue')
    ensures forall q :: 0 <= q < |queue'| ==> queue'[q] < |cubes|
    ensures forall c :: 0 <= c < |cubes| && c !in queue' ==> !NonEmpty(result'[c])
  {
    var bc := queue[k];
    var rest := queue[..k] + queue[k + 1..];
    RemoveFromQueue(queue, k);
    if NonEmpty(result'[bc]) {
      DistinctSnoc(rest, bc);
    }
    forall q | 0 <= q < |queue'|
      ensures queue'[q] < |cubes|
    {
      if queue'[q] != bc {
        assert queue'[q] in rest;
      }
    }
    forall i | 0 <= i < |cubes| && i !in queue'
      ensures !NonEmpty(result'[i])
    {
      if i != bc {
        assert i !in queue;
      }
    }
  }

  /** The container part of QueueInv after processing container bc: consumption, conservation and provenance. */
  lemma CubesAfterPop(cubes: seq<Cube>, result: seq<Cube>, bc: nat, produced: seq<Hypothesis>,
                      result': seq<Cube>, produced': seq<Hypothesis>)
    requires bc < |result| == |cubes|
    requires forall c :: 0 <= c < |cubes| ==> Consumed(cubes[c], result[c])
    requires |produced| + Remaining(result) == Remaining(cubes)
    requires FromCubes(produced, cubes)
    requires result' == result[bc := AfterPop(result[bc])]
    requires NonEmpty(result[bc]) ==> produced' == produced + [result[bc].pending[0]]
    requires !NonEmpty(result[bc]) ==> produced' == produced
    ensures forall c :: 0 <= c < |cubes| ==> Consumed(cubes[c], result'[c])
    ensures |produced'| + Remaining(result') == Remaining(cubes)
    ensures FromCubes(produced', cubes)
  {
    var c := result[bc];
    ConsumedAfterPop(cubes[bc], c);
    RemainingUpdate(result, bc, AfterPop(c));
    forall i | 0 <= i < |cubes|
      ensures Consumed(cubes[i], result'[i])
    {
      if i != bc {
        assert result'[i] == result[i];
      }
    }
    forall h | h in produced'
      ensures exists i :: 0 <= i < |cubes| && h in cubes[i].pending
    {
      if h !in produced {
        assert h in cubes[bc].pending;
      }
    }
  }

  lemma DistinctSnoc(queue: seq<nat>, x: nat)
    requires Distinct(queue) && x !in queue
    ensures Distinct(queue + [x])
  {
  }

  /** With every container queued and nothing popped, QueueInv holds. */
  lemma AllQueuedInv(cubes: seq<Cube>, queue: seq<nat>)
    requires queue == seq(|cubes|, q => q)
    ensures QueueInv(cubes, cubes, queue, [])
  {
    forall c | 0 <= c < |cubes|
      ensures c in queue
    {
      assert queue[c] == c;
    }
    forall c | 0 <= c < |cubes|
      ensures Consumed(cubes[c], cubes[c])
    {
      assert cubes[c].pending[..0] == [];
    }
  }

  /**
    The main search loop of one stack: every container is queued, then the
    best is popped, processed and re-queued while non-empty, at most
    popLimit times. Stopping before popLimit pops means every container is
    exhausted, and so does a pop that produced nothing, because an empty
    container is only popped once all are. When every container is best
    first, so is production.
   */
  method PopLoop(cubes: seq<Cube>, popLimit: nat, cmp: (string, string) -> int)
    returns (result: seq<Cube>, produced: seq<Hypothesis>, pops: nat)
    ensures |result| == |cubes|
    ensures pops <= popLimit
    ensures pops < popLimit ==> forall i :: 0 <= i < |result| ==> !NonEmpty(result[i])
    ensures forall i :: 0 <= i < |cubes| ==> Consumed(cubes[i], result[i])
    ensures |produced| + Remaining(result) == Remaining(cubes)
    ensures |produced| <= pops
    ensures |produced| < pops ==> forall i :: 0 <= i < |result| ==> !NonEmpty(result[i])
    ensures FromCubes(produced, cubes)
    ensures CubesSorted(cubes) ==> BestFirst(produced, result)
  {
    var queue: seq<nat> := [];
    var i := 0;
    while i < |cubes|
      invariant 0 <= i <= |cubes|
      invariant queue == seq(i, q => q)
    {
      queue := queue + [i];
      i := i + 1;
    }
    result := cubes;
    produced := [];
    AllQueuedInv(cubes, queue);
    var numpops := 1;
    while numpops <= popLimit && |queue| > 0
      invariant 1 <= numpops && (numpops <= popLimit + 1 || numpops == 1)
      invariant Popping(cubes, result, queue, produced, numpops - 1)
      decreases popLimit + 1 - numpops
    {
      result, queue, produced := PopRound(cubes, result, queue, produced, numpops - 1, cmp);
      numpops := numpops + 1;
    }
    pops := numpops - 1;
  }

  /**
    The state of the main search loop after n pops: the queue invariant, at
    most one hypothesis per pop, fewer only once every container is
    exhausted, and best-first production from best-first containers.
   */
  ghost predicate Popping(cubes: seq<Cube>, result: seq<Cube>, queue: seq<nat>, produced: seq<Hypothesis>, n: nat)
  {
    && QueueInv(cubes, result, queue, produced)
    && |produced| <= n
    && (|produced| < n ==> forall c :: 0 <= c < |result| ==> !NonEmpty(result[c]))
    && (CubesSorted(cubes) ==> CubesSorted(result) && BestFirst(produced, result))
  }

  /** One iteration of the main search loop. */
  method PopRound(cubes: seq<Cube>, result: seq<Cube>, queue: seq<nat>, produced: seq<Hypothesis>, n: nat,
                  cmp: (string, string) -> int)
    returns (result': seq<Cube>, queue': seq<nat>, produced': seq<Hypothesis>)
    requires |queue| > 0 && Popping(cubes, result, queue, produced, n)
    ensures Popping(cubes, result', queue', produced', n + 1)
  {
    var bc;
    result', queue', produced', bc := PopStep(cubes, result, queue, produced, cmp);
    if CubesSorted(cubes) {
      PopKeepsBestFirst(result, produced, bc, result', produced');
    }
    ExhaustedStep(result, produced, bc, result', produced', n);
  }

  // ---------------------------------------------------------------------------
  // Diversity

  /** Stand-in for EnsureMinStackHyps: pops until the container has put diversity hypotheses on the stack or is empty. */
  method EnsureMinStackHyps(c: Cube, diversity: nat) returns (r: Cube, produced: seq<Hypothesis>)
    ensures Consumed(c, r)
    ensures r.added >= diversity || !NonEmpty(r)
    ensures c.pending == produced + r.pending
    ensures c.added >= diversity ==> produced == []
  {
    r := c;
    produced := [];
    while r.added < diversity && NonEmpty(r)
      invariant r.bitmap == c.bitmap && r.added == c.added + |produced|
      invariant c.pending == produced + r.pending
      invariant c.added >= diversity ==> produced == []
      decreases |r.pending|
    {
      var top := r.pending[0];
      var rest := r.pending[1..];
      assert r.pending == [top] + rest;
      AppendAssoc(produced, [top], rest);
      produced := produced + [top];
      r := Cube(r.bitmap, rest, r.added + 1);
    }
    assert c.pending[..|produced|] == produced;
  }

  /** The diversity pass: with diversity > 0, every container is topped up; with 0 nothing happens. */
  method DiversityPass(cubes: seq<Cube>, diversity: nat) returns (result: seq<Cube>, produced: seq<Hypothesis>)
    ensures |result| == |cubes|
    ensures diversity == 0 ==> result == cubes && produced == []
    ensures diversity > 0 ==> forall i :: 0 <= i < |result| ==> result[i].added >= diversity || !NonEmpty(result[i])
    ensures forall i :: 0 <= i < |cubes| ==> Consumed(cubes[i], result[i])
    ensures |produced| + Remaining(result) == Remaining(cubes)
    ensures FromCubes(produced, cubes)
  {
    result := cubes;
    produced := [];
    if diversity == 0 {
      forall i | 0 <= i < |cubes| ensures Consumed(cubes[i], result[i]) {
        assert cubes[i].pending[..0] == [];
      }
      return;
    }
    var i := 0;
    while i < |cubes|
      invariant 0 <= i <= |cubes|
      invariant ToppedUp(cubes, result, produced, i, diversity)
    {
      var r, more := EnsureMinStackHyps(result[i], diversity);
      DiversityStep(cubes, result, produced, i, r, more, diversity, result[i := r]);
      result := result[i := r];
      produced := produced + more;
      i := i + 1;
    }
  }

  /**
    The diversity pass after i containers: those reached diversity or
    emptied, the rest are untouched, candidates are conserved, and what
    moved came from the containers.
   */
  ghost predicate ToppedUp(cubes: seq<Cube>, result: seq<Cube>, produced: seq<Hypothesis>, i: nat, diversity: nat)
  {
    && i <= |cubes| == |result|
    && (forall c :: 0 <= c < i ==> result[c].added >= diversity || !NonEmpty(result[c]))
    && (forall c :: i <= c < |cubes| ==> result[c] == cubes[c])
    && (forall c :: 0 <= c < i ==> Consumed(cubes[c], result[c]))
    && |produced| + Remaining(result) == Remaining(cubes)
    && FromCubes(produced, cubes)
  }

  /** Topping up container i keeps what the diversity pass has stated of the containers before it. */
  lemma DiversityStep(cubes: seq<Cube>, result: seq<Cube>, produced: seq<Hypothesis>, i: nat, r: Cube, more: seq<Hypothesis>,
                       diversity: nat, result': seq<Cube>)
    requires i < |cubes| && ToppedUp(cubes, result, produced, i, diversity) && result' == result[i := r]
    requires r.added >= diversity || !NonEmpty(r)
    requires Consumed(result[i], r) && result[i].pending == more + r.pending
    ensures ToppedUp(cubes, result', produced + more, i + 1, diversity)
  {
    RemainingUpdate(result, i, r);
    assert result[i] == cubes[i];
    forall h | h in produced + more
      ensures exists c :: 0 <= c < |cubes| && h in cubes[c].pending
    {
      if h !in produced {
        assert h in cubes[i].pending;
      }
    }
  }
}
