/** Block writes to and reads from a circular buffer, with arbitrary strides. */
module CircularBuffer {
  import opened Arithmetic
  import opened Words

  /** The circular update of an offset: a positive wrap only. */
  function Step(offset: int, inc: int, length: int): int {
    if offset + inc >= length then offset + inc - length else offset + inc
  }

  /** The offset after `k` updates. */
  function Offset(start: int, inc: int, length: int, k: nat): int {
    if k == 0 then start else Step(Offset(start, inc, length, k - 1), inc, length)
  }

  /** An update stays inside the buffer from every offset exactly when the stride is neither
      negative nor longer than the buffer, although the source speaks of negative strides too. */
  lemma StepStaysInsideIff(inc: int, length: int)
    requires length > 0
    ensures (forall offset {:trigger Step(offset, inc, length)} ::
               0 <= offset < length ==> 0 <= Step(offset, inc, length) < length)
            <==> 0 <= inc <= length
  {
    if !(0 <= inc <= length) {
      var worst := if inc < 0 then 0 else length - 1;
      assert !(0 <= Step(worst, inc, length) < length);
    }
  }

  /** A stride with which every offset stays inside. */
  predicate Stride(inc: int, length: int) {
    0 <= inc <= length && length > 0
  }

  /** Stepping and taking the remainder commute. */
  lemma StepIsModular(a: int, inc: int, length: int)
    requires Stride(inc, length)
    ensures Step(a % length, inc, length) == (a + inc) % length
  {
    var q, r := a / length, a % length;
    assert a == q * length + r;
    if r + inc >= length {
      assert (q + 1) * length == q * length + length;
      DivModUnique(a + inc, q + 1, r + inc - length, length);
    } else {
      DivModUnique(a + inc, q, r + inc, length);
    }
  }

  /** Closed form: the wrapped offset is the unwrapped one modulo the length. */
  lemma {:induction false} OffsetIsModular(start: int, inc: int, length: int, k: nat)
    requires Stride(inc, length) && 0 <= start < length
    ensures 0 <= Offset(start, inc, length, k) < length
    ensures Offset(start, inc, length, k) == (start + k * inc) % length
  {
    if k > 0 {
      OffsetIsModular(start, inc, length, k - 1);
      StepIsModular(start + (k - 1) * inc, inc, length);
      assert start + k * inc == start + (k - 1) * inc + inc by { assert k * inc == (k - 1) * inc + inc; }
    } else {
      DivModUnique(start, 0, start, length);
    }
  }

  /** Two updates apart meet exactly when the strides between them add up to whole turns. */
  lemma OffsetsMeetIff(start: int, inc: int, length: int, i: nat, j: nat)
    requires Stride(inc, length) && 0 <= start < length && i <= j
    ensures Offset(start, inc, length, i) == Offset(start, inc, length, j) <==> (j - i) * inc % length == 0
  {
    OffsetIsModular(start, inc, length, i);
    OffsetIsModular(start, inc, length, j);
    var a, b := start + i * inc, start + j * inc;
    assert b - a == (j - i) * inc by { assert (j - i) * inc == j * inc - i * inc; }
    SameRemainderIff(a, b, length);
  }

  /** Where an update with any other stride moves every offset. */
  function Drift(inc: int, length: int): int {
    if inc > length then inc - length else inc
  }

  lemma {:induction false} OffsetDrifts(start: int, inc: int, length: int, k: nat)
    requires 0 <= start < length && !Stride(inc, length)
    ensures Offset(start, inc, length, k) == start + k * Drift(inc, length)
    ensures inc < 0 ==> Offset(start, inc, length, k) < length
    ensures inc > length ==> 0 <= Offset(start, inc, length, k)
  {
    if k > 0 {
      OffsetDrifts(start, inc, length, k - 1);
      assert k * Drift(inc, length) == (k - 1) * Drift(inc, length) + Drift(inc, length);
    }
  }

  /** The cells of `n` updates. */
  function Offsets(start: int, inc: int, length: int, n: nat): seq<int> {
    seq(n, k requires 0 <= k < n => Offset(start, inc, length, k))
  }

  predicate Inside(cells: seq<int>, length: int) {
    forall k :: 0 <= k < |cells| ==> 0 <= cells[k] < length
  }

  /** Cells in a straight line are inside when the first and the last are. */
  lemma LineInsideIff(cells: seq<int>, start: int, step: int, length: int)
    requires 0 <= start < length && forall k :: 0 <= k < |cells| ==> cells[k] == start + k * step
    ensures Inside(cells, length) <==> |cells| == 0 || 0 <= start + (|cells| - 1) * step < length
  {
    if |cells| > 0 {
      var last := |cells| - 1;
      assert cells[last] == start + last * step;
      forall k | 0 <= k <= last
        ensures start <= cells[k] <= cells[last] || cells[last] <= cells[k] <= start
      {
        if step >= 0 {
          MulMono(0, k, step, step);
          MulMono(k, last, step, step);
        } else {
          MulMono(0, k, -step, -step);
          MulMono(k, last, -step, -step);
          assert k * -step == -(k * step) && last * -step == -(last * step);
        }
      }
    }
  }

  /** Which blocks stay inside the buffer: all of them when the stride is neither negative nor
      longer than the buffer, and otherwise those that end before the drift leaves it. */
  lemma InsideIff(start: int, inc: int, length: int, n: nat)
    requires 0 <= start < length
    ensures Inside(Offsets(start, inc, length, n), length)
            <==> Stride(inc, length) || n == 0 || 0 <= start + (n - 1) * Drift(inc, length) < length
  {
    hide Offset;
    var cells := Offsets(start, inc, length, n);
    if Stride(inc, length) {
      forall k | 0 <= k < n
        ensures 0 <= cells[k] < length
      {
        OffsetIsModular(start, inc, length, k);
      }
    } else {
      forall k | 0 <= k < n
        ensures cells[k] == start + k * Drift(inc, length)
      {
        OffsetDrifts(start, inc, length, k);
      }
      LineInsideIff(cells, start, Drift(inc, length), length);
    }
  }

  predicate Distinct(start: int, inc: int, length: int, n: nat) {
    forall i, j :: 0 <= i < j < n ==> Offset(start, inc, length, i) != Offset(start, inc, length, j)
  }

  /** `d` strides are whole turns around the buffer. */
  predicate WholeTurns(d: nat, inc: int, length: int)
    requires length > 0
  {
    d * inc % length == 0
  }

  /** A block visits different cells exactly when no shorter run of strides is whole turns; that
      does not depend on where it starts. */
  lemma DistinctIff(start: int, inc: int, length: int, n: nat)
    requires Stride(inc, length) && 0 <= start < length
    ensures Distinct(start, inc, length, n) <==> forall d: nat :: 0 < d < n ==> !WholeTurns(d, inc, length)
  {
    hide Offset;
    forall i: nat, j: nat | i < j < n
      ensures Offset(start, inc, length, i) == Offset(start, inc, length, j) <==> WholeTurns(j - i, inc, length)
    {
      OffsetsMeetIff(start, inc, length, i, j);
    }
    if Distinct(start, inc, length, n) {
      forall d: nat | 0 < d < n
        ensures !WholeTurns(d, inc, length)
      {
        assert Offset(start, inc, length, 0) != Offset(start, inc, length, d);
        OffsetsMeetIff(start, inc, length, 0, d);
      }
    }
  }

  // -------- writing to cells and reading from them --------

  /** The buffer after the first `n` samples have been written to the first `n` cells. */
  function Written<T>(buffer: seq<T>, cells: seq<int>, samples: seq<T>, n: nat): (result: seq<T>)
    requires Inside(cells, |buffer|) && n <= |samples| && n <= |cells|
    ensures |result| == |buffer|
  {
    if n == 0 then buffer else Written(buffer, cells, samples, n - 1)[cells[n - 1] := samples[n - 1]]
  }

  /** The samples in the cells. */
  function Read<T>(buffer: seq<T>, cells: seq<int>): (result: seq<T>)
    requires Inside(cells, |buffer|)
    ensures |result| == |cells|
  {
    seq(|cells|, k requires 0 <= k < |cells| => buffer[cells[k]])
  }

  /** Cells that are not visited are as before. */
  lemma {:induction false} WriteLeavesOthers<T>(buffer: seq<T>, cells: seq<int>, samples: seq<T>, n: nat, cell: nat)
    requires Inside(cells, |buffer|) && n <= |samples| && n <= |cells| && cell < |buffer|
    requires forall k :: 0 <= k < n ==> cells[k] != cell
    ensures Written(buffer, cells, samples, n)[cell] == buffer[cell]
  {
    if n > 0 {
      WriteLeavesOthers(buffer, cells, samples, n - 1, cell);
    }
  }

  /** A visited cell holds the last sample written to it. */
  lemma {:induction false} LastWriteStays<T>(buffer: seq<T>, cells: seq<int>, samples: seq<T>, n: nat, k: nat)
    requires Inside(cells, |buffer|) && k < n <= |samples| && n <= |cells|
    requires forall l :: k < l < n ==> cells[l] != cells[k]
    ensures Written(buffer, cells, samples, n)[cells[k]] == samples[k]
  {
    if k < n - 1 {
      LastWriteStays(buffer, cells, samples, n - 1, k);
    }
  }

  /** The last update that visits the cell of update `k`. */
  lemma LastVisit(cells: seq<int>, k: nat) returns (l: nat)
    requires k < |cells|
    ensures k <= l < |cells| && cells[l] == cells[k]
    ensures forall m :: l < m < |cells| ==> cells[m] != cells[k]
  {
    l := |cells| - 1;
    while cells[l] != cells[k]
      invariant k <= l < |cells|
      invariant forall m :: l < m < |cells| ==> cells[m] != cells[k]
      decreases l
    {
      l := l - 1;
    }
  }

  /** Samples that meet in a cell are equal. */
  predicate Agree<T(==)>(cells: seq<int>, samples: seq<T>)
    requires |cells| == |samples|
  {
    forall i, j :: 0 <= i < j < |samples| && cells[i] == cells[j] ==> samples[i] == samples[j]
  }

  /** Round trip: reading the cells of a written block gives the samples back if and only if no two
      different samples meet in a cell. */
  lemma ReadBack<T>(buffer: seq<T>, cells: seq<int>, samples: seq<T>)
    requires Inside(cells, |buffer|) && |cells| == |samples|
    ensures Read(Written(buffer, cells, samples, |samples|), cells) == samples <==> Agree(cells, samples)
  {
    hide Written;
    var n := |samples|;
    var w := Written(buffer, cells, samples, n);
    if Agree(cells, samples) {
      forall k | 0 <= k < n
        ensures w[cells[k]] == samples[k]
      {
        var l := LastVisit(cells, k);
        LastWriteStays(buffer, cells, samples, n, l);
        assert l == k || samples[k] == samples[l];
      }
    }
    if Read(w, cells) == samples {
      forall i, j | 0 <= i < j < n && cells[i] == cells[j]
        ensures samples[i] == samples[j]
      {
        assert Read(w, cells)[i] == w[cells[i]] && Read(w, cells)[j] == w[cells[j]];
      }
    }
  }

  /** So a block comes back, whatever it is, when no run of strides shorter than it is whole turns. */
  lemma {:induction false} BlockComesBack<T>(buffer: seq<T>, start: int, inc: int, samples: seq<T>)
    requires Stride(inc, |buffer|) && 0 <= start < |buffer|
    requires forall d: nat :: 0 < d < |samples| ==> !WholeTurns(d, inc, |buffer|)
    ensures var cells := Offsets(start, inc, |buffer|, |samples|);
            Inside(cells, |buffer|) && Read(Written(buffer, cells, samples, |samples|), cells) == samples
  {
    hide Offset, Written;
    InsideIff(start, inc, |buffer|, |samples|);
    DistinctIff(start, inc, |buffer|, |samples|);
    ReadBack(buffer, Offsets(start, inc, |buffer|, |samples|), samples);
  }

  /** Every `inc`th element, from `start`. */
  function Strided(src: seq<int>, start: int, inc: int, n: nat): (samples: seq<int>)
    requires forall k :: 0 <= k < n ==> 0 <= start + k * inc < |src|
    ensures |samples| == n && forall k :: 0 <= k < n ==> samples[k] == src[start + k * inc]
  {
    if n == 0 then [] else Strided(src, start, inc, n - 1) + [src[start + (n - 1) * inc]]
  }

  /** `arm_circularWrite_q15`: takes every `srcInc`th source sample, stores it and moves on; the offset
      handed back is cut to 16 bits.  The strides may be anything with which no cell outside the
      buffers is touched. */
  method CircularWrite(circBuffer: array<int>, length: int, writeOffset: Half, bufferInc: int,
                       src: seq<int>, srcStart: int, srcInc: int, blockSize: nat)
    returns (newOffset: Half)
    requires length == circBuffer.Length
    requires Inside(Offsets(writeOffset, bufferInc, length, blockSize), length)
    requires forall k :: 0 <= k < blockSize ==> 0 <= srcStart + k * srcInc < |src|
    modifies circBuffer
    ensures newOffset == Offset(writeOffset, bufferInc, length, blockSize) % 0x1_0000
    ensures Stride(bufferInc, length) && writeOffset < length
            ==> newOffset == (writeOffset + blockSize * bufferInc) % length % 0x1_0000
    ensures circBuffer[..] == Written(old(circBuffer[..]), Offsets(writeOffset, bufferInc, length, blockSize),
                                      Strided(src, srcStart, srcInc, blockSize), blockSize)
  {
    ghost var before := circBuffer[..];
    ghost var cells := Offsets(writeOffset, bufferInc, length, blockSize);
    ghost var samples := Strided(src, srcStart, srcInc, blockSize);
    var wOffset: int := writeOffset;
    var at := srcStart;
    var i := blockSize;
    while i > 0
      invariant 0 <= i <= blockSize
      invariant at == srcStart + (blockSize - i) * srcInc
      invariant wOffset == Offset(writeOffset, bufferInc, length, blockSize - i)
      invariant circBuffer[..] == Written(before, cells, samples, blockSize - i)
    {
      ghost var done := blockSize - i;
      assert wOffset == cells[done];
      circBuffer[wOffset] := src[at];
      assert src[at] == samples[done];
      at := at + srcInc;
      assert at == srcStart + (done + 1) * srcInc by { assert (done + 1) * srcInc == done * srcInc + srcInc; }
      wOffset := wOffset + bufferInc;
      if wOffset >= length {
        wOffset := wOffset - length;
      }
      i := i - 1;
    }
    if Stride(bufferInc, length) && writeOffset < length {
      OffsetIsModular(writeOffset, bufferInc, length, blockSize);
    }
    newOffset := wOffset % 0x1_0000;
  }

  // -------- blocks one after the other --------

  /** One call with unit source stride. */
  function WriteBlock(buffer: seq<int>, start: int, inc: int, samples: seq<int>): (result: seq<int>)
    requires Stride(inc, |buffer|) && 0 <= start < |buffer|
    ensures |result| == |buffer|
  {
    InsideIff(start, inc, |buffer|, |samples|);
    Written(buffer, Offsets(start, inc, |buffer|, |samples|), samples, |samples|)
  }

  /** The offset that the call hands back. */
  function NewOffset(start: int, inc: int, length: int, n: nat): (offset: int)
    requires Stride(inc, length) && 0 <= start < length
    ensures 0 <= offset < length
  {
    OffsetIsModular(start, inc, length, n);
    Offset(start, inc, length, n) % 0x1_0000
  }

  /** Two calls, the second from the offset handed back by the first, do what one call does. */
  predicate Chains(buffer: seq<int>, start: int, inc: int, first: seq<int>, second: seq<int>)
    requires Stride(inc, |buffer|) && 0 <= start < |buffer|
  {
    WriteBlock(WriteBlock(buffer, start, inc, first), NewOffset(start, inc, |buffer|, |first|), inc, second)
    == WriteBlock(buffer, start, inc, first + second)
  }

  lemma {:induction false} OffsetAppend(start: int, inc: int, length: int, n: nat, k: nat)
    ensures Offset(start, inc, length, n + k) == Offset(Offset(start, inc, length, n), inc, length, k)
  {
    if k > 0 {
      OffsetAppend(start, inc, length, n, k - 1);
    }
  }

  lemma {:induction false} WrittenAppend(buffer: seq<int>, c1: seq<int>, c2: seq<int>,
                                         s1: seq<int>, s2: seq<int>, k: nat)
    requires Inside(c1, |buffer|) && Inside(c2, |buffer|)
    requires |c1| == |s1| && |c2| == |s2| && k <= |s2|
    ensures Inside(c1 + c2, |buffer|)
    ensures Written(buffer, c1 + c2, s1 + s2, |s1| + k) == Written(Written(buffer, c1, s1, |s1|), c2, s2, k)
  {
    if k > 0 {
      WrittenAppend(buffer, c1, c2, s1, s2, k - 1);
    } else {
      WrittenExtends(buffer, c1, c2, s1, s2, |s1|);
    }
  }

  lemma {:induction false} WrittenExtends(buffer: seq<int>, c1: seq<int>, c2: seq<int>,
                                          s1: seq<int>, s2: seq<int>, k: nat)
    requires Inside(c1, |buffer|) && Inside(c2, |buffer|) && |c1| == |s1| && k <= |s1|
    ensures Inside(c1 + c2, |buffer|)
    ensures Written(buffer, c1 + c2, s1 + s2, k) == Written(buffer, c1, s1, k)
  {
    assert Inside(c1 + c2, |buffer|);
    if k > 0 {
      WrittenExtends(buffer, c1, c2, s1, s2, k - 1);
    }
  }

  /** A second block that starts where the first one ended continues it. */
  lemma {:induction false} BlocksFollow(buffer: seq<int>, start: int, inc: int, first: seq<int>, second: seq<int>)
    requires Stride(inc, |buffer|) && 0 <= start < |buffer|
    ensures var next := Offset(start, inc, |buffer|, |first|);
            && 0 <= next < |buffer|
            && WriteBlock(WriteBlock(buffer, start, inc, first), next, inc, second)
               == WriteBlock(buffer, start, inc, first + second)
  {
    hide Written, Offsets, Offset, Inside, WriteBlock;
    var m, n := |buffer|, |first|;
    var next := Offset(start, inc, m, n);
    OffsetIsModular(start, inc, m, n);
    OffsetsAppend(start, inc, m, n, |second|);
    BlockIs(buffer, start, inc, first);
    BlockIs(WriteBlock(buffer, start, inc, first), next, inc, second);
    BlockIs(buffer, start, inc, first + second);
    WrittenAppend(buffer, Offsets(start, inc, m, n), Offsets(next, inc, m, |second|), first, second, |second|);
  }

  lemma BlockIs(buffer: seq<int>, start: int, inc: int, samples: seq<int>)
    requires Stride(inc, |buffer|) && 0 <= start < |buffer|
    ensures var cells := Offsets(start, inc, |buffer|, |samples|);
            && Inside(cells, |buffer|) && |cells| == |samples|
            && WriteBlock(buffer, start, inc, samples) == Written(buffer, cells, samples, |samples|)
  {
    InsideIff(start, inc, |buffer|, |samples|);
  }

  lemma OffsetsAppend(start: int, inc: int, length: int, n: nat, k: nat)
    ensures var next := Offset(start, inc, length, n);
            Offsets(start, inc, length, n + k) == Offsets(start, inc, length, n) + Offsets(next, inc, length, k)
    ensures |Offsets(start, inc, length, n)| == n
    ensures |Offsets(Offset(start, inc, length, n), inc, length, k)| == k
  {
    hide Offset;
    var all, next := Offsets(start, inc, length, n + k), Offsets(Offset(start, inc, length, n), inc, length, k);
    forall i | 0 <= i < k
      ensures all[n + i] == next[i]
    {
      OffsetAppend(start, inc, length, n, i);
    }
  }

  /** Blocks can be chained, from every 16-bit offset, if and only if the buffer has at most 2^16
      cells, or the stride never moves the offset. */
  lemma ChainsIff(buffer: seq<int>, inc: int)
    requires Stride(inc, |buffer|)
    ensures (forall start, first, second ::
               0 <= start < |buffer| && start < 0x1_0000 ==> Chains(buffer, start, inc, first, second))
            <==> |buffer| <= 0x1_0000 || inc == 0 || inc == |buffer|
  {
    hide WriteBlock, Offset;
    var m := |buffer|;
    if m <= 0x1_0000 || inc == 0 || inc == m {
      forall start, first, second | 0 <= start < m && start < 0x1_0000
        ensures Chains(buffer, start, inc, first, second)
      {
        StaysLow(start, inc, m, |first|);
        BlocksFollow(buffer, start, inc, first, second);
        assert NewOffset(start, inc, m, |first|) == Offset(start, inc, m, |first|);
      }
    } else {
      var start, second := BrokenChain(buffer, inc);
      assert !Chains(buffer, start, inc, [0], [second]);
    }
  }

  lemma {:induction false} StaysLow(start: int, inc: int, length: int, k: nat)
    requires Stride(inc, length) && 0 <= start < length && start < 0x1_0000
    requires length <= 0x1_0000 || inc == 0 || inc == length
    ensures 0 <= Offset(start, inc, length, k) < 0x1_0000
  {
    OffsetIsModular(start, inc, length, k);
    if k > 0 {
      StaysLow(start, inc, length, k - 1);
    }
  }

  /** One sample that moves the offset to 2^16 or beyond, and one more. */
  lemma BrokenChain(buffer: seq<int>, inc: int) returns (start: int, second: int)
    requires Stride(inc, |buffer|) && |buffer| > 0x1_0000 && inc != 0 && inc != |buffer|
    ensures 0 <= start < 0x1_0000 && !Chains(buffer, start, inc, [0], [second])
  {
    var m := |buffer|;
    start := if inc <= 0x1_0000 then 0x1_0000 - inc else 0;
    var next := start + inc;
    assert Offset(start, inc, m, 0) == start && Offset(start, inc, m, 1) == next;
    second := if buffer[next] == 0 then 1 else 0;
    var w1 := OneSample(buffer, start, inc, 0);
    var w2 := OneSample(w1, next % 0x1_0000, inc, second);
    TwoSamples(buffer, start, inc, 0, second);
    assert w2[next] == buffer[next];
  }

  lemma OneSample(buffer: seq<int>, start: int, inc: int, v: int) returns (result: seq<int>)
    requires Stride(inc, |buffer|) && 0 <= start < |buffer|
    ensures WriteBlock(buffer, start, inc, [v]) == result == buffer[start := v]
  {
    result := buffer[start := v];
    InsideIff(start, inc, |buffer|, 1);
    var cells := Offsets(start, inc, |buffer|, 1);
    assert cells == [start];
    assert Written(buffer, cells, [v], 0) == buffer;
  }

  lemma TwoSamples(buffer: seq<int>, start: int, inc: int, u: int, v: int)
    requires Stride(inc, |buffer|) && 0 <= start && start + inc < |buffer|
    ensures WriteBlock(buffer, start, inc, [u] + [v]) == buffer[start := u][start + inc := v]
  {
    InsideIff(start, inc, |buffer|, 2);
    var cells := Offsets(start, inc, |buffer|, 2);
    assert Offset(start, inc, |buffer|, 0) == start;
    assert cells == [start, start + inc];
    assert Written(buffer, cells, [u] + [v], 0) == buffer;
    assert Written(buffer, cells, [u] + [v], 1) == buffer[start := u];
  }

  // -------- the destination of a read --------

  /** The destination pointer goes back to its base when it meets the end exactly, and only then. */
  function Onward(at: int, inc: int, length: int): int {
    if at + inc == length then 0 else at + inc
  }

  /** The destination position after `k` updates. */
  function Position(start: int, inc: int, length: int, k: nat): int {
    if k == 0 then start else Onward(Position(start, inc, length, k - 1), inc, length)
  }

  function Positions(start: int, inc: int, length: int, n: nat): seq<int> {
    seq(n, k requires 0 <= k < n => Position(start, inc, length, k))
  }

  /** `arm_circularRead_q15`: takes a sample, stores it and moves on. */
  method CircularRead(circBuffer: array<int>, length: int, readOffset: int, bufferInc: int,
                      dst: array<int>, dstStart: int, dstInc: int, blockSize: nat)
    returns (newOffset: int)
    requires length == circBuffer.Length && dst != circBuffer
    requires Inside(Offsets(readOffset, bufferInc, length, blockSize), length)
    requires Inside(Positions(dstStart, dstInc, dst.Length, blockSize), dst.Length)
    modifies dst
    ensures newOffset == Offset(readOffset, bufferInc, length, blockSize)
    ensures Stride(bufferInc, length) && 0 <= readOffset < length
            ==> newOffset == (readOffset + blockSize * bufferInc) % length
    ensures dst[..] == Written(old(dst[..]), Positions(dstStart, dstInc, dst.Length, blockSize),
                               Read(circBuffer[..], Offsets(readOffset, bufferInc, length, blockSize)), blockSize)
  {
    ghost var before := dst[..];
    ghost var cells := Positions(dstStart, dstInc, dst.Length, blockSize);
    ghost var samples := Read(circBuffer[..], Offsets(readOffset, bufferInc, length, blockSize));
    var rOffset := readOffset;
    var at := dstStart;
    var i := blockSize;
    while i > 0
      invariant 0 <= i <= blockSize
      invariant at == Position(dstStart, dstInc, dst.Length, blockSize - i)
      invariant rOffset == Offset(readOffset, bufferInc, length, blockSize - i)
      invariant dst[..] == Written(before, cells, samples, blockSize - i)
    {
      ghost var done := blockSize - i;
      assert at == cells[done] && rOffset == Offsets(readOffset, bufferInc, length, blockSize)[done];
      dst[at] := circBuffer[rOffset];
      at := at + dstInc;
      if at == dst.Length {
        at := 0;
      }
      rOffset := rOffset + bufferInc;
      if rOffset >= length {
        rOffset := rOffset - length;
      }
      i := i - 1;
    }
    if Stride(bufferInc, length) && 0 <= readOffset < length {
      OffsetIsModular(readOffset, bufferInc, length, blockSize);
    }
    newOffset := rOffset;
  }

  /** Multiples of the stride reach a multiple of the stride without passing it. */
  lemma MeetsTheEndExactly(at: int, inc: int, length: int)
    requires 0 < inc && 0 <= at < length && at % inc == 0 && length % inc == 0
    ensures at + inc <= length
    ensures Onward(at, inc, length) % inc == 0
    ensures Onward(at, inc, length) == Step(at, inc, length)
  {
    SameRemainderIff(at, length, inc);
    var d := (length - at) / inc;
    assert length - at == inc * d;
    assert d >= 1;
    assert inc * d >= inc;
    DivModUnique(at + inc, at / inc + 1, 0, inc);
  }

  /** With a stride that divides length and start the equality test wraps like the comparison. */
  lemma {:induction false} PositionIsOffset(start: int, inc: int, length: int, k: nat)
    requires 0 < inc && 0 <= start < length && start % inc == 0 && length % inc == 0
    ensures Position(start, inc, length, k) == Offset(start, inc, length, k)
    ensures 0 <= Position(start, inc, length, k) < length && Position(start, inc, length, k) % inc == 0
  {
    if k > 0 {
      PositionIsOffset(start, inc, length, k - 1);
      MeetsTheEndExactly(Position(start, inc, length, k - 1), inc, length);
    }
  }

  /** How many updates it takes to move on by `d` or more. */
  function Updates(d: int, inc: int): (n: nat)
    requires d > 0 && inc > 0
    ensures (n - 1) * inc < d <= n * inc && n >= 1
    ensures d == n * inc <==> d % inc == 0
  {
    var q := d / inc;
    DivBounds(d, inc);
    assert (q + 1) * inc == inc * q + inc && (q - 1) * inc == inc * q - inc;
    if d % inc == 0 then q else q + 1
  }

  /** Up to the end the position moves straight on. */
  lemma {:induction false} StraightOn(start: int, inc: int, length: int, k: nat)
    requires 0 <= start < length && 0 < inc && k < Updates(length - start, inc)
    ensures Position(start, inc, length, k) == start + k * inc < length
  {
    var last := Updates(length - start, inc) - 1;
    MulMono(k, last, inc, inc);
    hide Updates;
    if k > 0 {
      StraightOn(start, inc, length, k - 1);
      assert k * inc == (k - 1) * inc + inc;
    }
  }

  /** There it meets the end and goes back to the base, or steps over it. */
  lemma AtTheEnd(start: int, inc: int, length: int)
    requires 0 <= start < length && 0 < inc
    ensures var p := Position(start, inc, length, Updates(length - start, inc));
            if (length - start) % inc == 0 then p == 0 else p >= length
  {
    var n := Updates(length - start, inc);
    StraightOn(start, inc, length, n - 1);
    assert n * inc == (n - 1) * inc + inc;
  }

  lemma {:induction false} PositionAppend(start: int, inc: int, length: int, n: nat, k: nat)
    ensures Position(start, inc, length, n + k) == Position(Position(start, inc, length, n), inc, length, k)
  {
    if k > 0 {
      PositionAppend(start, inc, length, n, k - 1);
    }
  }

  /** Which blocks are stored inside the destination: those that end before a pointer that does not
      meet the end steps over it, in the first run to the end or in the second. */
  lemma DestinationInsideIff(start: int, inc: int, length: int, n: nat)
    requires 0 <= start < length && 0 < inc
    ensures var first := Updates(length - start, inc);
            Inside(Positions(start, inc, length, n), length)
            <==> n <= first || ((length - start) % inc == 0
                                && (n <= first + Updates(length, inc) || length % inc == 0))
  {
    hide Position;
    var first, second := Updates(length - start, inc), Updates(length, inc);
    var cells := Positions(start, inc, length, n);
    AtTheEnd(start, inc, length);
    AtTheEnd(0, inc, length);
    PositionAppend(start, inc, length, first, second);
    assert n > first ==> cells[first] == Position(start, inc, length, first);
    assert n > first + second ==> cells[first + second] == Position(start, inc, length, first + second);
    forall k | 0 <= k < n && (k < first || ((length - start) % inc == 0 && (k < first + second || length % inc == 0)))
      ensures 0 <= cells[k] < length
    {
      if k < first {
        StraightOn(start, inc, length, k);
        Scaled(k, 0, inc);
      } else {
        PositionAppend(start, inc, length, first, k - first);
        if length % inc == 0 {
          DivModUnique(0, 0, 0, inc);
          PositionIsOffset(0, inc, length, k - first);
        } else {
          StraightOn(0, inc, length, k - first);
          Scaled(k - first, 0, inc);
        }
      }
    }
  }

  /** Every block is stored inside if and only if the stride divides the length and the start. */
  lemma AlwaysInsideIff(start: int, inc: int, length: int)
    requires 0 <= start < length && 0 < inc
    ensures (forall n: nat :: Inside(Positions(start, inc, length, n), length))
            <==> length % inc == 0 && start % inc == 0
  {
    hide Inside, Positions;
    SameRemainderIff(start, length, inc);
    var limit := Updates(length - start, inc) + Updates(length, inc) + 1;
    DestinationInsideIff(start, inc, length, limit);
    if length % inc == 0 && start % inc == 0 {
      forall n: nat
        ensures Inside(Positions(start, inc, length, n), length)
      {
        DestinationInsideIff(start, inc, length, n);
      }
    }
  }

  /** Without a positive stride the end is never met. */
  lemma BackwardsInsideIff(start: int, inc: int, length: int, n: nat)
    requires 0 <= start < length && inc <= 0
    ensures Inside(Positions(start, inc, length, n), length) <==> n == 0 || start + (n - 1) * inc >= 0
  {
    hide Position;
    var cells := Positions(start, inc, length, n);
    forall k | 0 <= k < n
      ensures cells[k] == start + k * inc
    {
      Backwards(start, inc, length, k);
    }
    LineInsideIff(cells, start, inc, length);
    if n > 0 {
      Backwards(start, inc, length, n - 1);
    }
  }

  lemma {:induction false} Backwards(start: int, inc: int, length: int, k: nat)
    requires 0 <= start < length && inc <= 0
    ensures Position(start, inc, length, k) == start + k * inc <= start
  {
    if k > 0 {
      Backwards(start, inc, length, k - 1);
      assert k * inc == (k - 1) * inc + inc;
    }
  }
}
