/** The shared ring of log records, as a value: the array and the two indices. */
module LogRing {
  import opened Words
  import opened LogFifo

  function Next(i: nat): (n: nat)
    ensures i < LOG_BUFFER_SIZE ==> n == if i + 1 == LOG_BUFFER_SIZE then 0 else i + 1
  {
    (i + 1) % LOG_BUFFER_SIZE
  }

  /** The slot `i` places after `r` around the ring. */
  function Slot(r: nat, i: nat): nat {
    if r + i < LOG_BUFFER_SIZE then r + i else r + i - LOG_BUFFER_SIZE
  }

  /** Takes the index back by one record. */
  function Previous(i: nat): nat {
    if i == 0 then LOG_BUFFER_SIZE - 1 else i - 1
  }

  /** The write index to publish after storing a record at `w`: it stays put when the ring is
      full, which drops the record just stored. */
  function Published(w: nat, r: nat): nat {
    if Next(w) == r then Previous(Next(w)) else Next(w)
  }

  datatype Ring = Ring(slots: seq<Word>, rd: nat, wr: nat) {
    predicate Valid() {
      |slots| == LOG_BUFFER_SIZE && rd < LOG_BUFFER_SIZE && wr < LOG_BUFFER_SIZE
    }

    function Count(): nat
      requires Valid()
    {
      if rd <= wr then wr - rd else wr + LOG_BUFFER_SIZE - rd
    }

    /** The live records, oldest first. */
    function Pending(): seq<Word>
      requires Valid()
    {
      seq(Count(), i requires 0 <= i < Count() => slots[Slot(rd, i)])
    }
  }

  function EmptyRing(): Ring {
    Ring(seq(LOG_BUFFER_SIZE, i => 0), 0, 0)
  }

  /** A record stored at the write index is not live yet: no live record is disturbed. */
  lemma StoreIsInvisible(m: Ring, w: Word)
    requires m.Valid()
    ensures m.(slots := m.slots[m.wr := w]).Pending() == m.Pending()
  {
    assert forall i :: 0 <= i < m.Count() ==> Slot(m.rd, i) != m.wr;
  }

  /** Publishing the write index takes the stored record in, or drops it when the ring is full. */
  lemma PublishAccepts(m: Ring)
    requires m.Valid()
    ensures var m' := m.(wr := Published(m.wr, m.rd));
            && m'.Valid()
            && m'.Pending() == (if |m.Pending()| < CAPACITY then m.Pending() + [m.slots[m.wr]] else m.Pending())
  {
    var m' := m.(wr := Published(m.wr, m.rd));
    assert Next(m.wr) == m.rd <==> |m.Pending()| == CAPACITY;
    if |m.Pending()| < CAPACITY {
      assert m'.Count() == m.Count() + 1;
      assert Slot(m.rd, m.Count()) == m.wr;
    } else {
      assert m' == m;
    }
  }

  /** Advancing the read index removes the oldest record. */
  lemma AdvanceRemovesOldest(m: Ring)
    requires m.Valid() && m.rd != m.wr
    ensures var m' := m.(rd := Next(m.rd)); m'.Valid() && m'.Pending() == m.Pending()[1..]
    ensures m.Pending()[0] == m.slots[m.rd]
  {
    var m' := m.(rd := Next(m.rd));
    assert m'.Count() == m.Count() - 1;
    assert forall i :: 0 <= i < m'.Count() ==> Slot(m'.rd, i) == Slot(m.rd, i + 1);
  }

  lemma EmptyIffIndicesMeet(m: Ring)
    requires m.Valid()
    ensures m.Pending() == [] <==> m.rd == m.wr
    ensures |m.Pending()| <= CAPACITY
  {
  }
}
