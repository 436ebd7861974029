/** The Cortex-M0 side of the log as sequential code: what `print_log`, `print_log_to_uart` and
    `print_round_buffer` do between getting the lock and handing bytes to the UART. */
module LogDriver {
  import opened Words
  import opened LogFifo
  import opened LogRing
  import opened Frames

  /** The frames one drain sends: none for an empty batch. */
  function BatchFrames(batch: seq<Word>): (fs: seq<Frame>)
    requires |batch| <= BATCH
    ensures forall f :: f in fs ==> Fits(f)
  {
    WordsBytesLength(batch);
    if batch == [] then [] else [Frame(TYPE_LOG, WordsBytes(batch))]
  }

  /** What the receiver reads in the bytes a drain sends: exactly the records of the batch, in one
      frame of type 0; nothing is sent for an empty batch. */
  predicate IsBatch(sent: seq<Byte>, batch: seq<Word>) {
    && LogWords(Decode(sent)) == batch
    && (if batch == [] then sent == [] else |Decode(sent)| == 1 && Decode(sent)[0].kind == 0x00)
  }

  lemma BatchReceived(batch: seq<Word>)
    requires |batch| <= BATCH
    ensures IsBatch(EncodeAll(BatchFrames(batch)), batch)
  {
    DecodeEncodeAll(BatchFrames(batch));
    if batch != [] {
      WordsRoundTrip(batch);
      assert LogWords(BatchFrames(batch)) == LogWords([]) + BytesWords(WordsBytes(batch));
    }
  }

  /** A single record on the wire, byte by byte. */
  lemma OneRecordSent(flag: Half, value: Half)
    ensures EncodeAll(BatchFrames([Record(flag, value)]))
         == [0xAA, 0x00, 0x04, value % 0x100, value / 0x100, flag % 0x100, flag / 0x100, 0xBB]
  {
    var w := Record(flag, value);
    RecordBytes(flag, value);
    hide WordBytes;
    assert WordsBytes([w]) == WordBytes(w) + WordsBytes([]);
    var f := Frame(TYPE_LOG, WordsBytes([w]));
    assert EncodeAll([f]) == Encode(f) + EncodeAll([]);
  }

  /** memcpy of one record behind the payload bytes already in the send buffer; the core is
      little-endian. */
  method CopyRecord(record: Word, sendBuf: array<Byte>, offset: nat)
    requires PAYLOAD_START_OFFSET + offset + 4 <= sendBuf.Length
    modifies sendBuf
    ensures sendBuf[PAYLOAD_START_OFFSET..PAYLOAD_START_OFFSET + offset + 4]
         == old(sendBuf[PAYLOAD_START_OFFSET..PAYLOAD_START_OFFSET + offset]) + WordBytes(record)
  {
    var at := PAYLOAD_START_OFFSET + offset;
    WriteLongValue(sendBuf, at, record);
    assert sendBuf[PAYLOAD_START_OFFSET..at] == sendBuf[..at][PAYLOAD_START_OFFSET..];
    assert old(sendBuf[PAYLOAD_START_OFFSET..at]) == old(sendBuf[..at])[PAYLOAD_START_OFFSET..];
    assert sendBuf[PAYLOAD_START_OFFSET..at + 4] == sendBuf[PAYLOAD_START_OFFSET..at] + sendBuf[at..at + 4];
  }

  lemma DumpBytes(index: Byte, start: Word, end: Word, write: Word, read: Word)
    ensures DumpPayload(index, start, end, write, read)
         == [index] + WordBytes(start) + WordBytes(end) + WordBytes(write) + WordBytes(read)
  {
    FourWords(start, end, write, read);
  }

  lemma DumpReceived(index: Byte, start: Word, end: Word, write: Word, read: Word)
    ensures var f := Frame(TYPE_ROUND_BUFFER, DumpPayload(index, start, end, write, read));
            && Fits(f) && Decode(Encode(f)) == [f] && IsDump(f, Dump(index, start, end, write, read))
  {
    var f := Frame(TYPE_ROUND_BUFFER, DumpPayload(index, start, end, write, read));
    DumpRoundTrip(index, start, end, write, read);
    EncodeThenAnything(f, []);
    assert Encode(f) + [] == Encode(f);
  }

  /** One record moves from what is left of `all` to what has been taken. */
  lemma OneMore(all: seq<Word>, taken: nat)
    requires taken < |all|
    ensures all[taken..] == [all[taken]] + all[taken + 1..]
    ensures WordsBytes(all[..taken + 1]) == WordsBytes(all[..taken]) + WordBytes(all[taken])
  {
    assert all[..taken + 1] == all[..taken] + [all[taken]];
    WordsBytesSnoc(all[..taken], all[taken]);
  }

  lemma BatchTaken(all: seq<Word>, taken: nat)
    requires taken <= |all| && taken <= BATCH && (taken == BATCH || all[taken..] == [])
    ensures Head(all) == all[..taken]
  {
  }

  class LogBuffer {
    const log: array<Word>
    var readIndex: nat
    var writeIndex: nat
    /** Every byte passed to uart_txChar so far. */
    var tx: seq<Byte>

    ghost predicate Valid()
      reads this, log
    {
      log.Length == LOG_BUFFER_SIZE && readIndex < LOG_BUFFER_SIZE && writeIndex < LOG_BUFFER_SIZE
    }

    ghost function Memory(): Ring
      reads this, log
    {
      Ring(log[..], readIndex, writeIndex)
    }

    ghost function Pending(): seq<Word>
      requires Valid()
      reads this, log
    {
      Memory().Pending()
    }

    constructor ()
      ensures Valid() && fresh(log) && Memory() == EmptyRing() && Pending() == [] && tx == []
    {
      log := new Word[LOG_BUFFER_SIZE](i => 0);
      readIndex := 0;
      writeIndex := 0;
      tx := [];
      new;
      assert log[..] == EmptyRing().slots;
    }

    method IsEmpty() returns (empty: bool)
      requires Valid()
      ensures empty <==> Pending() == []
    {
      var write := writeIndex;
      var read := readIndex;
      empty := write == read;
    }

    /** The critical section of `print_log`. */
    method Enqueue(flag: Half, value: Half)
      requires Valid()
      modifies this`writeIndex, log
      ensures Valid()
      ensures Pending() == if |old(Pending())| < CAPACITY then old(Pending()) + [Record(flag, value)]
                           else old(Pending())
    {
      hide Ring.Pending, Record;
      var write := writeIndex;
      log[write] := Record(flag, value);
      ghost var stored := Memory();
      assert stored == old(Memory()).(slots := old(Memory()).slots[write := Record(flag, value)]);
      StoreIsInvisible(old(Memory()), Record(flag, value));
      PublishAccepts(stored);
      write := (write + 1) % LOG_BUFFER_SIZE;
      var read := readIndex;
      if write == read {
        if write == 0 {
          write := LOG_BUFFER_SIZE - 1;
        } else {
          write := write - 1;
        }
      }
      writeIndex := write;
      assert Memory() == stored.(wr := Published(stored.wr, stored.rd));
    }

    /** One round of the drain loop: copies the oldest record and removes it from the ring. */
    method TakeOldest(read: nat, sendBuf: array<Byte>, offset: nat) returns (next: nat)
      requires Valid() && read == readIndex && readIndex != writeIndex
      requires PAYLOAD_START_OFFSET + offset + 4 <= sendBuf.Length
      modifies this`readIndex, sendBuf
      ensures Valid() && next == readIndex
      ensures old(Pending()) != [] && Pending() == old(Pending())[1..]
      ensures sendBuf[PAYLOAD_START_OFFSET..PAYLOAD_START_OFFSET + offset + 4]
           == old(sendBuf[PAYLOAD_START_OFFSET..PAYLOAD_START_OFFSET + offset]) + WordBytes(old(Pending())[0])
    {
      hide Ring.Pending, WordBytes;
      EmptyIffIndicesMeet(Memory());
      AdvanceRemovesOldest(Memory());
      CopyRecord(log[read], sendBuf, offset);
      next := (read + 1) % LOG_BUFFER_SIZE;
      readIndex := next;
    }

    /** The critical section of `print_log_to_uart`: copies the oldest records, at most a batch,
        to the payload part of the send buffer and removes them from the ring. */
    method TakeBatch(sendBuf: array<Byte>) returns (offset: nat)
      requires Valid() && sendBuf.Length == TOTAL_ALLOW_LENGTH
      modifies this`readIndex, sendBuf
      ensures Valid()
      ensures offset == 4 * |Head(old(Pending()))|
      ensures Pending() == old(Pending())[|Head(old(Pending()))|..]
      ensures sendBuf[PAYLOAD_START_OFFSET..PAYLOAD_START_OFFSET + offset] == WordsBytes(Head(old(Pending())))
    {
      ghost var all := Pending();
      assert WordsBytes(all[..0]) == [];
      hide WordsBytes, WordBytes, Ring.Pending, Head;
      var write := writeIndex;
      var read := readIndex;
      offset := 0;
      ghost var taken: nat := 0;
      while write != read && offset + 4 < PAYLOAD_ALLOW_LENGTH
        invariant Valid() && write == writeIndex && read == readIndex
        invariant offset == 4 * taken && taken <= BATCH && taken <= |all|
        invariant Pending() == all[taken..]
        invariant sendBuf[PAYLOAD_START_OFFSET..PAYLOAD_START_OFFSET + offset] == WordsBytes(all[..taken])
        decreases |all| - taken
      {
        read := TakeOldest(read, sendBuf, offset);
        OneMore(all, taken);
        offset := offset + 4;
        taken := taken + 1;
      }
      EmptyIffIndicesMeet(Memory());
      BatchTaken(all, taken);
    }

    /** `uart_txBuffer`: hands the bytes over one by one. */
    method TxBuffer(sendBuf: array<Byte>, length: nat)
      requires length <= sendBuf.Length
      modifies this`tx
      ensures tx == old(tx) + sendBuf[..length]
    {
      for i := 0 to length
        invariant tx == old(tx) + sendBuf[..i]
      {
        tx := tx + [sendBuf[i]];
      }
    }

    /** Sends the oldest pending records, at most a batch, as one frame; nothing when there are none. */
    method PrintLogToUart()
      requires Valid()
      modifies this`readIndex, this`tx
      ensures Valid()
      ensures Pending() == old(Pending())[|Head(old(Pending()))|..]
      ensures tx == old(tx) + EncodeAll(BatchFrames(Head(old(Pending()))))
      ensures IsBatch(tx[|old(tx)|..], Head(old(Pending())))
    {
      BatchReceived(Head(Pending()));
      hide IsBatch;
      var sendBuf := new Byte[TOTAL_ALLOW_LENGTH](i => 0);
      ghost var batch := Head(Pending());
      WordsBytesLength(batch);
      var offset := TakeBatch(sendBuf);
      if offset != 0 {
        var sendLength := BuildFrame(TYPE_LOG, offset, sendBuf);
        TxBuffer(sendBuf, sendLength);
        assert EncodeAll(BatchFrames(batch)) == Encode(Frame(TYPE_LOG, WordsBytes(batch))) + EncodeAll([]);
      }
    }

    /** `print_log`: takes the record in and then tries to send at once. */
    method PrintLog(flag: Half, value: Half)
      requires Valid()
      modifies this`writeIndex, this`readIndex, this`tx, log
      ensures Valid()
      ensures var queue := if |old(Pending())| < CAPACITY then old(Pending()) + [Record(flag, value)]
                           else old(Pending());
              && Pending() == queue[|Head(queue)|..]
              && tx == old(tx) + EncodeAll(BatchFrames(Head(queue)))
              && IsBatch(tx[|old(tx)|..], Head(queue))
    {
      Enqueue(flag, value);
      PrintLogToUart();
    }

    /** Sends a dump of a round buffer's four pointers. */
    method PrintRoundBuffer(index: Byte, start: Word, end: Word, write: Word, read: Word)
      modifies this`tx
      ensures |DumpPayload(index, start, end, write, read)| <= PAYLOAD_ALLOW_LENGTH
      ensures tx == old(tx) + Encode(Frame(TYPE_ROUND_BUFFER, DumpPayload(index, start, end, write, read)))
      ensures var got := Decode(tx[|old(tx)|..]); |got| == 1 && IsDump(got[0], Dump(index, start, end, write, read))
    {
      hide IsDump, Decode, Encode, WordBytes, WordsBytes, DumpPayload, Sent;
      DumpReceived(index, start, end, write, read);
      DumpBytes(index, start, end, write, read);
      var sendBuf := new Byte[TOTAL_ALLOW_LENGTH](i => 0);
      var at := PAYLOAD_START_OFFSET;
      sendBuf[at] := index;
      assert sendBuf[at..at + 1] == [index];
      CopyRecord(start, sendBuf, 1);
      CopyRecord(end, sendBuf, 5);
      CopyRecord(write, sendBuf, 9);
      CopyRecord(read, sendBuf, 13);
      assert sendBuf[at..at + 17] == DumpPayload(index, start, end, write, read);
      var sendLength := BuildFrame(TYPE_ROUND_BUFFER, 17, sendBuf);
      TxBuffer(sendBuf, sendLength);
    }
  }
}
