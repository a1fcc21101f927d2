/**
  Shape and row-copy logic of the row-major matrix of the NMT scorer
  (moses/FF/NMT/mblas/matrix.h). A matrix is a class with rows, cols and a
  resizable buffer; the free functions of the header that reshape, append,
  paste and gather rows become module-level methods on two matrices. The
  element type is generic: none of these operations does arithmetic on
  elements.
 */
module Mblas {

  // ---------------------------------------------------------------------------
  // Buffers

  /** std::vector::resize(n, fill): keep the first n elements, pad with fill. */
  function Resized<T>(s: seq<T>, n: nat, fill: T): (r: seq<T>)
    ensures |r| == n
    ensures forall k :: 0 <= k < n ==> r[k] == if k < |s| then s[k] else fill
  {
    if n <= |s| then s[..n] else s + seq(n - |s|, _ => fill)
  }

  /** std::copy of src into s starting at position at. */
  function Overwrite<T>(s: seq<T>, at: nat, src: seq<T>): (r: seq<T>)
    requires at + |src| <= |s|
    ensures |r| == |s|
    ensures forall k :: 0 <= k < |s| ==> r[k] == if at <= k < at + |src| then src[k - at] else s[k]
  {
    s[..at] + src + s[at + |src|..]
  }

  /** Row i of a row-major buffer with rows of width w (empty when the buffer is too short). */
  function Row<T>(s: seq<T>, w: nat, i: nat): (r: seq<T>)
    ensures i * w + w <= |s| ==> |r| == w && forall j :: 0 <= j < w ==> r[j] == s[i * w + j]
  {
    if i * w + w <= |s| then s[i * w .. i * w + w] else []
  }

  // ---------------------------------------------------------------------------
  // Index arithmetic

  lemma MulLe(a: nat, b: nat, w: nat)
    requires a <= b
    ensures a * w <= b * w
  {
  }

  /** A row that exists fits in the buffer: i < n rows of width w end by n * w. */
  lemma RowInBounds(i: nat, n: nat, w: nat)
    requires i < n
    ensures i * w + w <= n * w
  {
    MulLe(i + 1, n, w);
  }

  /** Position i * w + j, with j < w, is column j of row i. */
  lemma RowOf(i: nat, j: nat, w: nat)
    requires j < w
    ensures (i * w + j) / w == i && (i * w + j) % w == j
  {
    var k := i * w + j;
    var q, m := k / w, k % w;
    assert q * w + m == k;
    if q < i {
      MulLe(q + 1, i, w);
    } else if q > i {
      MulLe(i + 1, q, w);
    }
  }

  /** Different rows of the same width never share a position. */
  lemma RowsDisjoint(a: nat, b: nat, w: nat, j: nat)
    requires a != b && j < w
    ensures !(b * w <= a * w + j < b * w + w)
  {
    if a < b {
      MulLe(a + 1, b, w);
    } else {
      MulLe(b + 1, a, w);
    }
  }

  /** The row layout of two buffers laid end to end, the first holding n full rows. */
  lemma RowOfConcat<T>(a: seq<T>, b: seq<T>, w: nat, n: nat, i: nat)
    requires |a| == n * w
    ensures Row(a + b, w, i) == if i < n then Row(a, w, i) else Row(b, w, i - n)
  {
    var s := a + b;
    if i < n {
      RowInBounds(i, n, w);
      assert s[i * w .. i * w + w] == a[i * w .. i * w + w];
    } else {
      var i' := i - n;
      assert i * w == n * w + i' * w;
      if i * w + w <= |s| {
        assert s[i * w .. i * w + w] == b[i' * w .. i' * w + w];
      }
    }
  }

  // ---------------------------------------------------------------------------
  // The matrix

  class TMatrix<T> {
    var rows: nat
    var cols: nat
    var data: seq<T>
    /** value_type(): what vector::resize pads with. */
    const zero: T

    /** The buffer holds exactly rows * cols elements. */
    predicate Valid()
      reads this
    {
      |data| == rows * cols
    }

    constructor Empty(zero: T)
      ensures rows == 0 && cols == 0 && data == [] && this.zero == zero
    {
      rows, cols, data := 0, 0, [];
      this.zero := zero;
    }

    constructor Sized(rows: nat, cols: nat, zero: T)
      ensures this.rows == rows && this.cols == cols && this.zero == zero
      ensures Valid() && forall k :: 0 <= k < |data| ==> data[k] == zero
    {
      this.rows, this.cols := rows, cols;
      data := seq(rows * cols, _ => zero);
      this.zero := zero;
    }

    constructor Filled(rows: nat, cols: nat, val: T, zero: T)
      ensures this.rows == rows && this.cols == cols && this.zero == zero
      ensures Valid() && forall k :: 0 <= k < |data| ==> data[k] == val
    {
      this.rows, this.cols := rows, cols;
      data := seq(rows * cols, _ => val);
      this.zero := zero;
    }

    /** operator()(i, j): the element at i * cols + j of the buffer. */
    function Get(i: nat, j: nat): T
      reads this
      requires i * cols + j < |data|
    {
      data[i * cols + j]
    }

    method Resize(rows: nat, cols: nat)
      modifies this
      ensures this.rows == rows && this.cols == cols && Valid()
      ensures data == Resized(old(data), rows * cols, zero)
    {
      this.rows, this.cols := rows, cols;
      data := Resized(data, rows * cols, zero);
    }

    method ResizeFill(rows: nat, cols: nat, val: T)
      modifies this
      ensures this.rows == rows && this.cols == cols && Valid()
      ensures data == Resized(old(data), rows * cols, val)
    {
      this.rows, this.cols := rows, cols;
      data := Resized(data, rows * cols, val);
    }

    method Reshape(rows: nat, cols: nat)
      modifies this
      ensures this.rows == rows && this.cols == cols && data == old(data)
    {
      this.rows, this.cols := rows, cols;
    }

    method Clear()
      modifies this
      ensures rows == 0 && cols == 0 && data == [] && Valid()
    {
      data := [];
      rows, cols := 0, 0;
    }

    /** GetVec().resize(n): the buffer alone, dimensions untouched. */
    method ResizeData(n: nat)
      modifies this
      ensures rows == old(rows) && cols == old(cols)
      ensures data == Resized(old(data), n, zero)
    {
      data := Resized(data, n, zero);
    }

    /** GetVec().insert(begin(), src): src in front of the buffer. */
    method InsertFront(src: seq<T>)
      modifies this
      ensures rows == old(rows) && cols == old(cols)
      ensures data == src + old(data)
    {
      data := src + data;
    }

    /** GetVec().swap(other.GetVec()). */
    method SwapData(other: TMatrix<T>)
      modifies this, other
      ensures rows == old(rows) && cols == old(cols)
      ensures other.rows == old(other.rows) && other.cols == old(other.cols)
      ensures data == old(other.data) && other.data == old(data)
    {
      var t := data;
      data := other.data;
      other.data := t;
    }

    /** std::copy of src into the buffer from position at, element by element. */
    method Paste(at: nat, src: seq<T>)
      requires at + |src| <= |data|
      modifies this
      ensures rows == old(rows) && cols == old(cols)
      ensures data == Overwrite(old(data), at, src)
    {
      var k := 0;
      while k < |src|
        invariant 0 <= k <= |src|
        invariant rows == old(rows) && cols == old(cols)
        invariant data == Overwrite(old(data), at, src[..k])
      {
        data := data[at + k := src[k]];
        k := k + 1;
      }
      assert src[..k] == src;
    }
  }

  /** Element (i, j) of a well-formed matrix is element j of row i. */
  lemma GetIsRowElement<T>(m: TMatrix<T>, i: nat, j: nat)
    requires m.Valid() && i < m.rows && j < m.cols
    ensures i * m.cols + m.cols <= |m.data|
    ensures m.Get(i, j) == Row(m.data, m.cols, i)[j]
  {
    var w := m.cols;
    RowInBounds(i, m.rows, w);
    assert i * w + w <= |m.data|;
    assert Row(m.data, w, i)[j] == m.data[i * w + j];
  }

  // ---------------------------------------------------------------------------
  // Whole-matrix operations

  /** Exchanges the dimensions and the buffers of two matrices (the same matrix twice is left as is). */
  method Swap<T>(Out: TMatrix<T>, In: TMatrix<T>)
    modifies Out, In
    ensures Out.rows == old(In.rows) && Out.cols == old(In.cols) && Out.data == old(In.data)
    ensures In.rows == old(Out.rows) && In.cols == old(Out.cols) && In.data == old(Out.data)
  {
    var iRows, iCols := In.rows, In.cols;
    var oRows, oCols := Out.rows, Out.cols;
    Out.Reshape(iRows, iCols);
    In.Reshape(oRows, oCols);
    In.SwapData(Out);
  }

  /** Out takes In's dimensions and In's buffer is copied to its front. */
  method Copy<T>(Out: TMatrix<T>, In: TMatrix<T>)
    requires Out != In
    requires |In.data| <= In.rows * In.cols
    modifies Out
    ensures Out.rows == In.rows && Out.cols == In.cols && Out.Valid()
    ensures Out.data[..|In.data|] == In.data
    ensures forall k :: |In.data| <= k < |Out.data| ==>
      Out.data[k] == if k < |old(Out.data)| then old(Out.data)[k] else Out.zero
    ensures In.Valid() ==> Out.data == In.data
  {
    Out.Resize(In.rows, In.cols);
    Out.Paste(0, In.data);
  }

  /** The buffer after AppendRow's resize to n, grow and paste. */
  lemma AppendedData<T>(d0: seq<T>, n: nat, zero: T, row: seq<T>)
    ensures var d := Overwrite(Resized(Resized(d0, n, zero), |d0| + |row|, zero), |d0|, row);
      && |d| == |d0| + |row|
      && d[|d0|..] == row
      && (forall k :: 0 <= k < |d0| ==> d[k] == if k < n then d0[k] else zero)
      && (n == |d0| + |row| ==> d == d0 + row)
  {
    var d1 := Resized(d0, n, zero);
    var d2 := Resized(d1, |d0| + |row|, zero);
    var d := Overwrite(d2, |d0|, row);
    assert d[|d0|..] == row;
    if n == |d0| + |row| {
      assert d == d0 + row;
    }
  }

  /** Row i of a buffer, with the start written as the source computes it. */
  lemma RowSlice<T>(s: seq<T>, w: nat, i: nat)
    requires i * w + w <= |s|
    ensures w * i + w <= |s| && Row(s, w, i) == s[w * i .. w * i + w]
  {
  }

  lemma MulSucc(a: nat, w: nat)
    ensures (a + 1) * w == a * w + w
  {
  }

  /**
    Appends row i of In to Out. The new buffer is the old one followed by
    the row; when Out's old buffer is longer than the resized matrix, the
    part beyond (rows + 1) * cols is zeroed.
   */
  method AppendRow<T>(Out: TMatrix<T>, In: TMatrix<T>, i: nat)
    requires Out != In
    requires i * In.cols + In.cols <= |In.data|
    modifies Out
    ensures Out.rows == old(Out.rows) + 1 && Out.cols == In.cols
    ensures |Out.data| == |old(Out.data)| + In.cols
    ensures Out.data[|old(Out.data)|..] == Row(In.data, In.cols, i)
    ensures forall k :: 0 <= k < |old(Out.data)| ==>
      Out.data[k] == if k < Out.rows * Out.cols then old(Out.data)[k] else Out.zero
    ensures |old(Out.data)| == old(Out.rows) * In.cols ==>
      Out.Valid() && Out.data == old(Out.data) + Row(In.data, In.cols, i)
  {
    var oldSize := |Out.data|;
    var addSize := In.cols;
    ghost var row := Row(In.data, In.cols, i);
    ghost var d0 := Out.data;
    Out.Resize(Out.rows + 1, In.cols);
    Out.ResizeData(oldSize + addSize);
    var start := In.cols * i;
    RowSlice(In.data, In.cols, i);
    Out.Paste(oldSize, In.data[start .. start + In.cols]);
    MulSucc(old(Out.rows), In.cols);
    AppendedData(d0, Out.rows * Out.cols, Out.zero, row);
  }

  /** Appends all of In's buffer to Out; Out's rows add up and it takes In's width. */
  method AppendRows<T>(Out: TMatrix<T>, In: TMatrix<T>)
    requires Out != In
    modifies Out
    ensures Out.rows == old(Out.rows) + In.rows && Out.cols == In.cols
    ensures |Out.data| == |old(Out.data)| + |In.data|
    ensures Out.data[|old(Out.data)|..] == In.data
    ensures forall k :: 0 <= k < |old(Out.data)| ==>
      Out.data[k] == if k < Out.rows * Out.cols then old(Out.data)[k] else Out.zero
    ensures |old(Out.data)| == old(Out.rows) * In.cols && In.Valid() ==>
      Out.Valid() && Out.data == old(Out.data) + In.data
  {
    var oldSize := |Out.data|;
    var addSize := |In.data|;
    Out.Resize(Out.rows + In.rows, In.cols);
    Out.ResizeData(oldSize + addSize);
    Out.Paste(oldSize, In.data);
  }

  /** The buffer PrependRows leaves as written: In's buffer, then Out's buffer resized to the new dimensions. */
  function PrependedAsWritten<T>(outData: seq<T>, inData: seq<T>, size: nat, fill: T): seq<T>
  {
    inData + Resized(outData, size, fill)
  }

  /** As written, the buffer is longer than rows * cols by In's size. */
  lemma PrependedAsWrittenOverlong<T>(outData: seq<T>, inData: seq<T>, size: nat, fill: T)
    ensures |PrependedAsWritten(outData, inData, size, fill)| == size + |inData|
    ensures |inData| > 0 ==> |PrependedAsWritten(outData, inData, size, fill)| != size
  {
  }

  /** Prepending a 1 x 1 matrix [2] to a 1 x 1 matrix [1] gives a 2 x 1 matrix holding three elements. */
  lemma PrependRowsCounterexample()
    ensures PrependedAsWritten([1], [2], 2 * 1, 0) == [2, 1, 0]
  {
    assert Resized([1], 2, 0) == [1, 0];
  }

  /** PrependRows as written: the dimensions grow, then In's buffer is inserted in front of the resized buffer. */
  method PrependRowsAsWritten<T>(Out: TMatrix<T>, In: TMatrix<T>)
    requires Out != In
    modifies Out
    ensures Out.rows == old(Out.rows) + In.rows && Out.cols == In.cols
    ensures Out.data == PrependedAsWritten(old(Out.data), In.data, Out.rows * Out.cols, Out.zero)
  {
    Out.Resize(Out.rows + In.rows, In.cols);
    Out.InsertFront(In.data);
  }

  /** PrependRows as intended: In's rows on top of Out's rows, with a buffer of exactly rows * cols. */
  method PrependRows<T>(Out: TMatrix<T>, In: TMatrix<T>)
    requires Out != In
    modifies Out
    ensures Out.rows == old(Out.rows) + In.rows && Out.cols == In.cols
    ensures Out.data == In.data + old(Out.data)
    ensures |old(Out.data)| == old(Out.rows) * In.cols && In.Valid() ==> Out.Valid()
  {
    Out.Reshape(Out.rows + In.rows, In.cols);
    Out.InsertFront(In.data);
  }

  /** After the intended PrependRows, row i is In's row i for i < In.rows and Out's old row i - In.rows after. */
  lemma PrependedRows<T>(inData: seq<T>, outData: seq<T>, inRows: nat, w: nat, i: nat)
    requires |inData| == inRows * w
    ensures Row(inData + outData, w, i) == if i < inRows then Row(inData, w, i) else Row(outData, w, i - inRows)
  {
    RowOfConcat(inData, outData, w, inRows, i);
  }

  /** Writes In's buffer into Out from row r, column c; nothing else changes. */
  method PasteRow<T>(Out: TMatrix<T>, In: TMatrix<T>, r: nat, c: nat)
    requires Out != In
    requires r * Out.cols + c + |In.data| <= |Out.data|
    modifies Out
    ensures Out.rows == old(Out.rows) && Out.cols == old(Out.cols)
    ensures Out.data == Overwrite(old(Out.data), r * Out.cols + c, In.data)
  {
    var start := r * Out.cols + c;
    Out.Paste(start, In.data);
  }

  /** Out becomes the 1 x (In.cols - c) matrix holding row r of In from column c. */
  method CopyRow<T>(Out: TMatrix<T>, In: TMatrix<T>, r: nat, c: nat)
    requires Out != In
    requires c <= In.cols
    requires r * In.cols + In.cols <= |In.data|
    modifies Out
    ensures Out.rows == 1 && Out.cols == In.cols - c && Out.Valid()
    ensures Out.data == Row(In.data, In.cols, r)[c..]
  {
    var length := In.cols - c;
    Out.Resize(1, length);
    assert |Out.data| == length;
    var start := r * In.cols + c;
    var end := start + length;
    var slice := In.data[start .. end];
    Out.Paste(0, slice);
    assert Out.data == slice;
    ghost var row := Row(In.data, In.cols, r);
    assert row == In.data[r * In.cols .. r * In.cols + In.cols];
    assert row[c..] == slice;
  }

  // ---------------------------------------------------------------------------
  // Gathering rows

  /** A (destination row, source row) pair. */
  datatype RowPair = RowPair(first: nat, second: nat)

  /** The Functor of CopyRows: flat index k of the copy is column k % L of the (k / L)-th pair's row. */
  function Functor(pairs: seq<RowPair>, first: bool, rowLength: nat, k: nat): nat
    requires rowLength > 0 && k / rowLength < |pairs|
  {
    var i := k / rowLength;
    var j := k % rowLength;
    if first then pairs[i].first * rowLength + j else pairs[i].second * rowLength + j
  }

  /** The copy walks the pairs in order, each row left to right. */
  lemma FunctorRowMajor(pairs: seq<RowPair>, rowLength: nat, p: nat, j: nat, k: nat)
    requires p < |pairs| && j < rowLength && k == p * rowLength + j
    ensures k / rowLength == p
    ensures Functor(pairs, true, rowLength, k) == pairs[p].first * rowLength + j
    ensures Functor(pairs, false, rowLength, k) == pairs[p].second * rowLength + j
  {
    RowOf(p, j, rowLength);
  }

  /** Every pair names a destination row of out and a source row of in. */
  predicate PairsFit(pairs: seq<RowPair>, rowLength: nat, outLen: nat, inLen: nat)
  {
    forall p :: 0 <= p < |pairs| ==>
      pairs[p].first * rowLength + rowLength <= outLen && pairs[p].second * rowLength + rowLength <= inLen
  }

  predicate DistinctTargets(pairs: seq<RowPair>)
  {
    forall p, q :: 0 <= p < q < |pairs| ==> pairs[p].first != pairs[q].first
  }

  /** The buffer after copying, pair by pair, source row second of in over destination row first of out. */
  function CopiedRows<T>(out: seq<T>, source: seq<T>, pairs: seq<RowPair>, rowLength: nat): (r: seq<T>)
    requires PairsFit(pairs, rowLength, |out|, |source|)
    ensures |r| == |out|
  {
    if |pairs| == 0 then out
    else
      var last := pairs[|pairs| - 1];
      Overwrite(CopiedRows(out, source, pairs[..|pairs| - 1], rowLength), last.first * rowLength, Row(source, rowLength, last.second))
  }

  /** A position in no destination row keeps its value. */
  lemma {:induction false} CopiedRowsUntouched<T>(out: seq<T>, source: seq<T>, pairs: seq<RowPair>, rowLength: nat, x: nat)
    requires PairsFit(pairs, rowLength, |out|, |source|)
    requires x < |out|
    requires forall p :: 0 <= p < |pairs| ==> !(pairs[p].first * rowLength <= x < pairs[p].first * rowLength + rowLength)
    ensures CopiedRows(out, source, pairs, rowLength)[x] == out[x]
  {
    if |pairs| > 0 {
      CopiedRowsUntouched(out, source, pairs[..|pairs| - 1], rowLength, x);
    }
  }

  /** The last pair decides its destination row; every other position is as the earlier pairs left it. */
  lemma CopiedRowsLast<T>(out: seq<T>, source: seq<T>, pairs: seq<RowPair>, rowLength: nat, x: nat)
    requires PairsFit(pairs, rowLength, |out|, |source|)
    requires |pairs| > 0 && x < |out|
    ensures var last := pairs[|pairs| - 1];
      var at := last.first * rowLength;
      CopiedRows(out, source, pairs, rowLength)[x] ==
        if at <= x < at + rowLength then source[last.second * rowLength + (x - at)]
        else CopiedRows(out, source, pairs[..|pairs| - 1], rowLength)[x]
  {
    var last := pairs[|pairs| - 1];
    var row := Row(source, rowLength, last.second);
    assert |row| == rowLength;
  }

  /** With distinct destinations, column j of each destination row holds column j of its source row. */
  lemma {:induction false} CopiedRowsWritten<T>(out: seq<T>, source: seq<T>, pairs: seq<RowPair>, rowLength: nat, p: nat, j: nat)
    requires PairsFit(pairs, rowLength, |out|, |source|)
    requires DistinctTargets(pairs)
    requires p < |pairs| && j < rowLength
    ensures pairs[p].first * rowLength + j < |out| && pairs[p].second * rowLength + j < |source|
    ensures CopiedRows(out, source, pairs, rowLength)[pairs[p].first * rowLength + j] == source[pairs[p].second * rowLength + j]
  {
    var n := |pairs|;
    var x := pairs[p].first * rowLength + j;
    CopiedRowsLast(out, source, pairs, rowLength, x);
    if p < n - 1 {
      var prefix := pairs[..n - 1];
      assert prefix[p] == pairs[p];
      CopiedRowsWritten(out, source, prefix, rowLength, p, j);
      RowsDisjoint(pairs[p].first, pairs[n - 1].first, rowLength, j);
    }
  }

  /** With distinct destinations, each destination row equals its source row. */
  lemma CopiedRowEqualsSource<T>(out: seq<T>, source: seq<T>, pairs: seq<RowPair>, rowLength: nat, p: nat)
    requires PairsFit(pairs, rowLength, |out|, |source|)
    requires DistinctTargets(pairs)
    requires p < |pairs|
    ensures Row(CopiedRows(out, source, pairs, rowLength), rowLength, pairs[p].first) == Row(source, rowLength, pairs[p].second)
  {
    var r := CopiedRows(out, source, pairs, rowLength);
    forall j | 0 <= j < rowLength
      ensures Row(r, rowLength, pairs[p].first)[j] == Row(source, rowLength, pairs[p].second)[j]
    {
      CopiedRowsWritten(out, source, pairs, rowLength, p, j);
    }
  }

  /** One step of the element copy: extending the copied prefix of src by one element. */
  lemma OverwriteStep<T>(s: seq<T>, at: nat, src: seq<T>, j: nat)
    requires j < |src| && at + |src| <= |s|
    ensures Overwrite(s, at, src[..j + 1]) == Overwrite(s, at, src[..j])[at + j := src[j]]
  {
  }

  /** The threads of CopyRows that handle pair p: its source row is copied over its destination row. */
  method CopyPairRow<T>(Out: TMatrix<T>, In: TMatrix<T>, pairs: seq<RowPair>, p: nat)
    requires Out != In
    requires p < |pairs| && PairsFit(pairs, In.cols, |Out.data|, |In.data|)
    modifies Out
    ensures Out.rows == old(Out.rows) && Out.cols == old(Out.cols)
    ensures Out.data == Overwrite(old(Out.data), pairs[p].first * In.cols, Row(In.data, In.cols, pairs[p].second))
  {
    var rowLength := In.cols;
    ghost var before := Out.data;
    ghost var row := Row(In.data, rowLength, pairs[p].second);
    assert pairs[p].first * rowLength + rowLength <= |before|;
    assert |row| == rowLength;
    var j := 0;
    while j < rowLength
      invariant 0 <= j <= rowLength
      invariant Out.rows == old(Out.rows) && Out.cols == old(Out.cols)
      invariant Out.data == Overwrite(before, pairs[p].first * rowLength, row[..j])
    {
      var k := p * rowLength + j;
      FunctorRowMajor(pairs, rowLength, p, j, k);
      var dst := Functor(pairs, true, rowLength, k);
      var src := Functor(pairs, false, rowLength, k);
      assert In.data[src] == row[j];
      OverwriteStep(before, pairs[p].first * rowLength, row, j);
      Out.data := Out.data[dst := In.data[src]];
      j := j + 1;
    }
    assert row[..j] == row;
  }

  /**
    CopyRows: for every pair, in order, copies source row second of In over
    destination row first of Out, element by element along the Functor
    mapping; both use In's width as the row length.
   */
  method CopyRows<T>(Out: TMatrix<T>, In: TMatrix<T>, pairs: seq<RowPair>)
    requires Out != In
    requires PairsFit(pairs, In.cols, |Out.data|, |In.data|)
    modifies Out
    ensures Out.rows == old(Out.rows) && Out.cols == old(Out.cols)
    ensures Out.data == CopiedRows(old(Out.data), In.data, pairs, In.cols)
  {
    var rowLength := In.cols;
    var p := 0;
    while p < |pairs|
      invariant 0 <= p <= |pairs|
      invariant Out.rows == old(Out.rows) && Out.cols == old(Out.cols)
      invariant Out.data == CopiedRows(old(Out.data), In.data, pairs[..p], rowLength)
    {
      CopyPairRow(Out, In, pairs, p);
      assert pairs[..p + 1][..p] == pairs[..p];
      p := p + 1;
    }
    assert pairs[..p] == pairs;
  }

  /** Out becomes the |indeces| x In.cols matrix whose row i is In's row indeces[i]. */
  method Assemble<T>(Out: TMatrix<T>, In: TMatrix<T>, indeces: seq<nat>)
    requires Out != In
    requires forall i :: 0 <= i < |indeces| ==> indeces[i] * In.cols + In.cols <= |In.data|
    modifies Out
    ensures Out.rows == |indeces| && Out.cols == In.cols && Out.Valid()
    ensures forall i :: 0 <= i < |indeces| ==> Row(Out.data, Out.cols, i) == Row(In.data, In.cols, indeces[i])
  {
    var rowPairs: seq<RowPair> := [];
    var i := 0;
    while i < |indeces|
      invariant 0 <= i <= |indeces|
      invariant |rowPairs| == i
      invariant forall p :: 0 <= p < i ==> rowPairs[p] == RowPair(p, indeces[p])
    {
      rowPairs := rowPairs + [RowPair(i, indeces[i])];
      i := i + 1;
    }
    Out.Resize(|rowPairs|, In.cols);
    forall p | 0 <= p < |rowPairs|
      ensures rowPairs[p].first * In.cols + In.cols <= |Out.data|
    {
      RowInBounds(p, |rowPairs|, In.cols);
    }
    ghost var before := Out.data;
    CopyRows(Out, In, rowPairs);
    forall i | 0 <= i < |indeces|
      ensures Row(Out.data, Out.cols, i) == Row(In.data, In.cols, indeces[i])
    {
      CopiedRowEqualsSource(before, In.data, rowPairs, In.cols, i);
    }
  }

  // ---------------------------------------------------------------------------
  // Broadcasting

  /** The source row of output row k when r rows are tiled: k mod r. */
  function TileSource(k: nat, r: nat): nat
  {
    if r == 0 then 0 else k % r
  }

  /** The source row of output row k when each row is repeated factor times: k div factor. */
  function RepeatSource(k: nat, factor: nat): nat
  {
    if factor == 0 then 0 else k / factor
  }

  /** Tiling copies input row j to output row i * r + j. */
  lemma TileSourceOf(i: nat, j: nat, r: nat)
    requires j < r
    ensures TileSource(i * r + j, r) == j
  {
    RowOf(i, j, r);
  }

  /** Repeating copies input row i to output row i * factor + j. */
  lemma RepeatSourceOf(i: nat, j: nat, factor: nat)
    requires j < factor
    ensures RepeatSource(i * factor + j, factor) == i
  {
    RowOf(i, j, factor);
  }

  /** Both sources name a row of the r-row input. */
  lemma SourcesInRange(k: nat, r: nat, factor: nat)
    requires k < r * factor
    ensures TileSource(k, r) < r && RepeatSource(k, factor) < r
  {
    if factor > 0 && k / factor >= r {
      MulLe(r, k / factor, factor);
    }
  }

  /** fill1: for i < factor and j < r, pair i * r + j is (i * r + j, j). */
  method Fill1(ptr: array<RowPair>, r: nat, factor: nat)
    requires r * factor <= ptr.Length
    modifies ptr
    ensures forall k :: 0 <= k < r * factor ==> ptr[k] == RowPair(k, TileSource(k, r))
    ensures forall k :: r * factor <= k < ptr.Length ==> ptr[k] == old(ptr[k])
  {
    var at := 0;
    var i := 0;
    while i < factor
      invariant 0 <= i <= factor
      invariant at == i * r
      invariant forall k :: 0 <= k < at ==> ptr[k] == RowPair(k, TileSource(k, r))
      invariant forall k :: at <= k < ptr.Length ==> ptr[k] == old(ptr[k])
    {
      MulLe(i + 1, factor, r);
      assert (i + 1) * r == i * r + r && factor * r == r * factor;
      var j := 0;
      while j < r
        invariant 0 <= j <= r
        invariant at == i * r + j
        invariant forall k :: 0 <= k < at ==> ptr[k] == RowPair(k, TileSource(k, r))
        invariant forall k :: at <= k < ptr.Length ==> ptr[k] == old(ptr[k])
      {
        TileSourceOf(i, j, r);
        ptr[at] := RowPair(i * r + j, j);
        at := at + 1;
        j := j + 1;
      }
      i := i + 1;
    }
  }

  /** fill2: for i < r and j < factor, pair i * factor + j is (i * factor + j, i). */
  method Fill2(ptr: array<RowPair>, r: nat, factor: nat)
    requires r * factor <= ptr.Length
    modifies ptr
    ensures forall k :: 0 <= k < r * factor ==> ptr[k] == RowPair(k, RepeatSource(k, factor))
    ensures forall k :: r * factor <= k < ptr.Length ==> ptr[k] == old(ptr[k])
  {
    var k := 0;
    var i := 0;
    while i < r
      invariant 0 <= i <= r
      invariant k == i * factor
      invariant forall x :: 0 <= x < k ==> ptr[x] == RowPair(x, RepeatSource(x, factor))
      invariant forall x :: k <= x < ptr.Length ==> ptr[x] == old(ptr[x])
    {
      MulLe(i + 1, r, factor);
      var j := 0;
      while j < factor
        invariant 0 <= j <= factor
        invariant k == i * factor + j
        invariant forall x :: 0 <= x < k ==> ptr[x] == RowPair(x, RepeatSource(x, factor))
        invariant forall x :: k <= x < ptr.Length ==> ptr[x] == old(ptr[x])
      {
        RepeatSourceOf(i, j, factor);
        ptr[k] := RowPair(k, i);
        k := k + 1;
        j := j + 1;
      }
      i := i + 1;
    }
  }

  /** Which filler a broadcast uses. */
  datatype Filler = Tile | Repeat

  function Source(filler: Filler, k: nat, r: nat, factor: nat): nat
  {
    match filler
    case Tile => TileSource(k, r)
    case Repeat => RepeatSource(k, factor)
  }

  /**
    Broadcast: Out grows from r to r * factor rows of the same width, output
    row k being input row Source(filler, k): gathered into a fresh matrix,
    which is then swapped in.
   */
  method Broadcast<T>(filler: Filler, Out: TMatrix<T>, factor: nat)
    requires Out.rows * Out.cols <= |Out.data|
    modifies Out
    ensures Out.rows == old(Out.rows) * factor && Out.cols == old(Out.cols) && Out.Valid()
    ensures forall k :: 0 <= k < Out.rows ==>
      Row(Out.data, Out.cols, k) == Row(old(Out.data), Out.cols, Source(filler, k, old(Out.rows), factor))
  {
    var r := Out.rows;
    var c := Out.cols;
    var newRows := r * factor;
    var temp := new TMatrix<T>.Empty(Out.zero);
    temp.Resize(newRows, c);
    var rowPairs := new RowPair[newRows](_ => RowPair(0, 0));
    match filler {
      case Tile => Fill1(rowPairs, r, factor);
      case Repeat => Fill2(rowPairs, r, factor);
    }
    var pairs := rowPairs[..];
    assert forall k :: 0 <= k < newRows ==> pairs[k] == RowPair(k, Source(filler, k, r, factor));
    forall k | 0 <= k < newRows
      ensures pairs[k].first * c + c <= |temp.data| && pairs[k].second * c + c <= |Out.data|
    {
      RowInBounds(k, newRows, c);
      SourcesInRange(k, r, factor);
      RowInBounds(pairs[k].second, r, c);
    }
    ghost var before := temp.data;
    ghost var input := Out.data;
    CopyRows(temp, Out, pairs);
    forall k | 0 <= k < newRows
      ensures Row(temp.data, c, k) == Row(input, c, Source(filler, k, r, factor))
    {
      CopiedRowEqualsSource(before, input, pairs, c, k);
    }
    Swap(Out, temp);
  }

  /** Broadcast1: output row i * r + j is input row j (the input tiled factor times). */
  method Broadcast1<T>(Out: TMatrix<T>, factor: nat)
    requires Out.rows * Out.cols <= |Out.data|
    modifies Out
    ensures Out.rows == old(Out.rows) * factor && Out.cols == old(Out.cols) && Out.Valid()
    ensures forall k :: 0 <= k < Out.rows ==>
      Row(Out.data, Out.cols, k) == Row(old(Out.data), Out.cols, TileSource(k, old(Out.rows)))
  {
    Broadcast(Tile, Out, factor);
  }

  /** Broadcast2: output row i * factor + j is input row i (each row repeated factor times). */
  method Broadcast2<T>(Out: TMatrix<T>, factor: nat)
    requires Out.rows * Out.cols <= |Out.data|
    modifies Out
    ensures Out.rows == old(Out.rows) * factor && Out.cols == old(Out.cols) && Out.Valid()
    ensures forall k :: 0 <= k < Out.rows ==>
      Row(Out.data, Out.cols, k) == Row(old(Out.data), Out.cols, RepeatSource(k, factor))
  {
    Broadcast(Repeat, Out, factor);
  }
}
