/** The log as an atomic bounded queue: what its callers are meant to see. */
module LogFifo {
  import opened Words

  /** Number of slots in the shared log array, and the most records one drain takes. */
  const LOG_BUFFER_SIZE: nat := 0x0E
  const CAPACITY: nat := LOG_BUFFER_SIZE - 1
  const BATCH: nat := 11

  /** The records a drain takes: the oldest ones, at most a batch. */
  function Head(queue: seq<Word>): (batch: seq<Word>)
    ensures batch <= queue && |batch| == if |queue| <= 11 then |queue| else 11
  {
    if |queue| <= BATCH then queue else queue[..BATCH]
  }

  datatype Op = Push(word: Word) | Drain | Probe

  /** `accepted` and `drained` are every record ever taken in and handed out; `verdicts` are the
      answers given to the emptiness probes. */
  datatype Fifo = Fifo(queue: seq<Word>, accepted: seq<Word>, drained: seq<Word>, verdicts: seq<bool>) {
    function Apply(op: Op): Fifo {
      match op
      case Push(w) =>
        if |queue| < CAPACITY then this.(queue := queue + [w], accepted := accepted + [w]) else this
      case Drain => this.(queue := queue[|Head(queue)|..], drained := drained + Head(queue))
      case Probe => this.(verdicts := verdicts + [queue == []])
    }
  }

  const EMPTY: Fifo := Fifo([], [], [], [])

  function Run(ops: seq<Op>): Fifo {
    if ops == [] then EMPTY else Run(ops[..|ops| - 1]).Apply(ops[|ops| - 1])
  }

  lemma RunSnoc(ops: seq<Op>, op: Op)
    ensures Run(ops + [op]) == Run(ops).Apply(op)
  {
    assert (ops + [op])[..|ops|] == ops;
  }

  /** Conservation: every accepted record is either drained or still queued, in order, and the
      queue never exceeds its capacity. */
  lemma {:induction false} Conservation(ops: seq<Op>)
    ensures Run(ops).accepted == Run(ops).drained + Run(ops).queue
    ensures |Run(ops).queue| <= 13
  {
    if ops != [] {
      Conservation(ops[..|ops| - 1]);
    }
  }

  function Pushed(ops: seq<Op>): seq<Word> {
    if ops == [] then []
    else
      var before := Pushed(ops[..|ops| - 1]);
      var last := ops[|ops| - 1];
      if last.Push? then before + [last.word] else before
  }

  /** `a` is obtained from `b` by leaving elements out. */
  predicate Subsequence<T(==)>(a: seq<T>, b: seq<T>)
    decreases |b|
  {
    || a == []
    || (&& b != []
        && (|| (a[|a| - 1] == b[|b| - 1] && Subsequence(a[..|a| - 1], b[..|b| - 1]))
            || Subsequence(a, b[..|b| - 1])))
  }

  lemma SubsequenceSnoc<T>(a: seq<T>, b: seq<T>, x: T)
    requires Subsequence(a, b)
    ensures Subsequence(a, b + [x]) && Subsequence(a + [x], b + [x])
  {
    assert (b + [x])[..|b|] == b && (a + [x])[..|a|] == a;
  }

  /** Only whole records are lost: the accepted records are the pushed ones with some left out. */
  lemma {:induction false} AcceptedFromPushed(ops: seq<Op>)
    ensures Subsequence(Run(ops).accepted, Pushed(ops))
  {
    if ops != [] {
      var before := ops[..|ops| - 1];
      AcceptedFromPushed(before);
      if ops[|ops| - 1].Push? {
        SubsequenceSnoc(Run(before).accepted, Pushed(before), ops[|ops| - 1].word);
      }
    }
  }

  /** No record is lost while the queue has room. */
  lemma {:induction false} AllAcceptedWithRoom(ops: seq<Op>)
    requires forall i :: 0 <= i < |ops| && ops[i].Push? ==> |Run(ops[..i]).queue| < 13
    ensures Run(ops).accepted == Pushed(ops)
  {
    if ops != [] {
      var before := ops[..|ops| - 1];
      forall i | 0 <= i < |before| && before[i].Push?
        ensures |Run(before[..i]).queue| < 13
      {
        assert before[..i] == ops[..i];
      }
      AllAcceptedWithRoom(before);
    }
  }

  function Probes(ops: seq<Op>): nat {
    if ops == [] then 0 else Probes(ops[..|ops| - 1]) + (if ops[|ops| - 1].Probe? then 1 else 0)
  }

  /** A probe answers whether everything accepted before it had been drained. */
  lemma {:induction false} VerdictsTell(ops: seq<Op>, k: nat)
    requires k < |ops| && ops[k].Probe?
    ensures |Run(ops).verdicts| == Probes(ops) > Probes(ops[..k])
    ensures Run(ops).verdicts[Probes(ops[..k])] <==> Run(ops[..k]).accepted == Run(ops[..k]).drained
  {
    hide Head;
    var before := ops[..|ops| - 1];
    VerdictsCount(before);
    if k < |before| {
      VerdictsTell(before, k);
      assert before[..k] == ops[..k];
    } else {
      AllDrainedIff(before);
    }
  }

  lemma AllDrainedIff(ops: seq<Op>)
    ensures Run(ops).queue == [] <==> Run(ops).accepted == Run(ops).drained
  {
    Conservation(ops);
    hide Run;
  }

  lemma {:induction false} VerdictsCount(ops: seq<Op>)
    ensures |Run(ops).verdicts| == Probes(ops)
  {
    if ops != [] {
      VerdictsCount(ops[..|ops| - 1]);
    }
  }

  /** The queue after `k` drains with nothing pushed in between. */
  function AfterDrains(f: Fifo, k: nat): Fifo
    decreases k
  {
    if k == 0 then f else AfterDrains(f.Apply(Drain), k - 1)
  }

  lemma {:induction false} DrainsConserve(f: Fifo, k: nat)
    ensures AfterDrains(f, k).drained + AfterDrains(f, k).queue == f.drained + f.queue
    decreases k
  {
    if k > 0 {
      DrainsConserve(f.Apply(Drain), k - 1);
      assert Head(f.queue) + f.queue[|Head(f.queue)|..] == f.queue;
    }
  }

  /** The number of batches that `n` records take. */
  function Batches(n: nat): nat {
    (n + BATCH - 1) / BATCH
  }

  lemma BatchesLess(n: nat)
    ensures Batches(n) == 0 <==> n == 0
    ensures n > 0 ==> Batches(if n <= BATCH then 0 else n - BATCH) == Batches(n) - 1
  {
  }

  /** ceil(pending / 11) drains, and no fewer, empty the queue. */
  lemma {:induction false} DrainsToEmpty(f: Fifo, k: nat)
    ensures AfterDrains(f, k).queue == [] <==> k >= Batches(|f.queue|)
    decreases k
  {
    BatchesLess(|f.queue|);
    if k > 0 {
      var f' := f.Apply(Drain);
      assert |f'.queue| == if |f.queue| <= BATCH then 0 else |f.queue| - BATCH;
      DrainsToEmpty(f', k - 1);
      hide Batches;
    }
  }
}
