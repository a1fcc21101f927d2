/**
  String and word-sequence helpers shared by the neural scorer and the search:
  joining words with single spaces (and the split that undoes it), the
  lexicographic order of std::lexicographical_compare, and keeping the last
  n words of a bounded context.
 */
module Text {

  /** Words joined with one space between neighbours and none at either end. */
  function Join(words: seq<string>): string
  {
    if |words| == 0 then ""
    else if |words| == 1 then words[0]
    else words[0] + " " + Join(words[1..])
  }

  /** Position of the first space of s. */
  function FirstSpace(s: string): (i: nat)
    requires ' ' in s
    ensures i < |s| && s[i] == ' ' && ' ' !in s[..i]
  {
    if s[0] == ' ' then 0
    else
      var i := FirstSpace(s[1..]);
      assert s[1..][..i] == s[1..i + 1];
      assert s[..i + 1] == [s[0]] + s[1..][..i];
      i + 1
  }

  /** The pieces of s between single spaces. */
  function Split(s: string): (r: seq<string>)
    ensures |r| >= 1
    decreases |s|
  {
    if ' ' !in s then [s]
    else
      var i := FirstSpace(s);
      [s[..i]] + Split(s[i + 1..])
  }

  predicate NoSpaces(words: seq<string>)
  {
    forall i :: 0 <= i < |words| ==> ' ' !in words[i]
  }

  /** Joining one more word at the end adds a single separating space. */
  lemma {:induction false} JoinSnoc(words: seq<string>, w: string)
    ensures Join(words + [w]) == if |words| == 0 then w else Join(words) + " " + w
  {
    if |words| >= 2 {
      assert (words + [w])[1..] == words[1..] + [w];
      JoinSnoc(words[1..], w);
    } else if |words| == 1 {
      assert (words + [w])[1..] == [w];
    }
  }

  /** The first space after a space-free word is the one that follows it. */
  lemma FirstSpaceAfterWord(w: string, rest: string)
    requires ' ' !in w
    ensures ' ' in w + " " + rest && FirstSpace(w + " " + rest) == |w|
  {
    var s := w + " " + rest;
    assert s[|w|] == ' ';
  }

  /** Splitting peels off a leading space-free word. */
  lemma SplitAfterWord(w: string, rest: string)
    requires ' ' !in w
    ensures Split(w + " " + rest) == [w] + Split(rest)
  {
    var s := w + " " + rest;
    FirstSpaceAfterWord(w, rest);
    assert s[..|w|] == w;
    assert s[|w| + 1..] == rest;
  }

  /** Split undoes Join for words that hold no space themselves. */
  lemma {:induction false} SplitJoin(words: seq<string>)
    requires |words| >= 1
    requires NoSpaces(words)
    ensures Split(Join(words)) == words
  {
    if |words| > 1 {
      SplitAfterWord(words[0], Join(words[1..]));
      SplitJoin(words[1..]);
      assert words == [words[0]] + words[1..];
    }
  }

  /** Join introduces spaces only between words: its length is the words' lengths plus the gaps. */
  lemma {:induction false} JoinLength(words: seq<string>)
    requires |words| >= 1
    ensures |Join(words)| == TotalLength(words) + |words| - 1
  {
    if |words| > 1 {
      JoinLength(words[1..]);
    }
  }

  function TotalLength(words: seq<string>): nat
  {
    if |words| == 0 then 0 else |words[0]| + TotalLength(words[1..])
  }

  // ---------------------------------------------------------------------------
  // Lexicographic order

  ghost predicate Irreflexive<T(!new)>(less: (T, T) -> bool)
  {
    forall x :: !less(x, x)
  }

  ghost predicate Transitive<T(!new)>(less: (T, T) -> bool)
  {
    forall x, y, z :: less(x, y) && less(y, z) ==> less(x, z)
  }

  ghost predicate Trichotomous<T(!new)>(less: (T, T) -> bool)
  {
    forall x, y :: x != y ==> less(x, y) || less(y, x)
  }

  ghost predicate StrictTotalOrder<T(!new)>(less: (T, T) -> bool)
  {
    Irreflexive(less) && Transitive(less) && Trichotomous(less)
  }

  /**
    std::lexicographical_compare with operator< on the elements: the first
    position where one element is less than the other decides; a proper
    prefix is less than the longer sequence.
   */
  function LexLess<T>(a: seq<T>, b: seq<T>, less: (T, T) -> bool): bool
  {
    if |a| == 0 then |b| > 0
    else if |b| == 0 then false
    else if less(a[0], b[0]) then true
    else if less(b[0], a[0]) then false
    else LexLess(a[1..], b[1..], less)
  }

  lemma {:induction false} LexIrreflexive<T(!new)>(a: seq<T>, less: (T, T) -> bool)
    requires Irreflexive(less)
    ensures !LexLess(a, a, less)
  {
    if |a| > 0 {
      LexIrreflexive(a[1..], less);
    }
  }

  lemma {:induction false} LexTrichotomous<T(!new)>(a: seq<T>, b: seq<T>, less: (T, T) -> bool)
    requires StrictTotalOrder(less)
    requires a != b
    ensures LexLess(a, b, less) || LexLess(b, a, less)
  {
    if |a| > 0 && |b| > 0 && !less(a[0], b[0]) && !less(b[0], a[0]) {
      assert a[0] == b[0];
      assert a == [a[0]] + a[1..] && b == [b[0]] + b[1..];
      LexTrichotomous(a[1..], b[1..], less);
    }
  }

  lemma {:induction false} LexTransitive<T(!new)>(a: seq<T>, b: seq<T>, c: seq<T>, less: (T, T) -> bool)
    requires StrictTotalOrder(less)
    requires LexLess(a, b, less) && LexLess(b, c, less)
    ensures LexLess(a, c, less)
  {
    if |a| > 0 && |b| > 0 && |c| > 0 {
      if !less(a[0], b[0]) && !less(b[0], c[0]) {
        assert a[0] == b[0] && b[0] == c[0];
        LexTransitive(a[1..], b[1..], c[1..], less);
      }
    }
  }

  lemma LexAsymmetric<T(!new)>(a: seq<T>, b: seq<T>, less: (T, T) -> bool)
    requires StrictTotalOrder(less)
    requires LexLess(a, b, less)
    ensures !LexLess(b, a, less)
  {
    if LexLess(b, a, less) {
      LexTransitive(a, b, a, less);
      LexIrreflexive(a, less);
    }
  }

  function CharLess(x: char, y: char): bool
  {
    x < y
  }

  /** std::string operator<: characters compared by code. */
  function StringLess(a: string, b: string): bool
  {
    LexLess(a, b, CharLess)
  }

  /** std::lexicographical_compare over two word sequences. */
  function ContextLess(a: seq<string>, b: seq<string>): bool
  {
    LexLess(a, b, StringLess)
  }

  /** std::string's operator< is a strict total order. */
  lemma StringLessStrictTotalOrder()
    ensures StrictTotalOrder(StringLess)
  {
    assert StrictTotalOrder(CharLess);
    forall a: string ensures !StringLess(a, a) {
      LexIrreflexive(a, CharLess);
    }
    forall a: string, b: string, c: string | StringLess(a, b) && StringLess(b, c)
      ensures StringLess(a, c)
    {
      LexTransitive(a, b, c, CharLess);
    }
    forall a: string, b: string | a != b ensures StringLess(a, b) || StringLess(b, a) {
      LexTrichotomous(a, b, CharLess);
    }
  }

  /** Exactly one of "less", "greater" and "equal" holds between two contexts. */
  lemma ContextTrichotomy(a: seq<string>, b: seq<string>)
    ensures a == b ==> !ContextLess(a, b) && !ContextLess(b, a)
    ensures a != b ==> (ContextLess(a, b) <==> !ContextLess(b, a))
  {
    StringLessStrictTotalOrder();
    if a == b {
      LexIrreflexive(a, StringLess);
    } else {
      LexTrichotomous(a, b, StringLess);
      if ContextLess(a, b) {
        LexAsymmetric(a, b, StringLess);
      }
    }
  }

  // ---------------------------------------------------------------------------
  // Bounded context

  /** The last min(|s|, n) elements of s. */
  function LastN<T>(s: seq<T>, n: nat): (r: seq<T>)
  {
    if |s| <= n then s else s[|s| - n..]
  }

  lemma LastNProperties<T>(s: seq<T>, n: nat)
    ensures |LastN(s, n)| == if |s| <= n then |s| else n
    ensures LastN(s, n) == s[|s| - |LastN(s, n)|..]
    ensures |s| <= n ==> LastN(s, n) == s
    ensures LastN(LastN(s, n), n) == LastN(s, n)
  {
  }
}
