/** The debug protocol of the UART: 0xAA, type, length, payload, 0xBB. */
module Frames {
  import opened Words

  const TYPE_LOG: Byte := 0x00
  const TYPE_ROUND_BUFFER: Byte := 0x01

  const PAYLOAD_START_OFFSET: nat := 3
  const HEADER_SIZE: nat := 4
  const TOTAL_ALLOW_LENGTH: nat := 50
  const PAYLOAD_ALLOW_LENGTH: nat := TOTAL_ALLOW_LENGTH - HEADER_SIZE

  datatype Frame = Frame(kind: Byte, payload: seq<Byte>)

  predicate Fits(f: Frame) {
    |f.payload| <= PAYLOAD_ALLOW_LENGTH
  }

  function Encode(f: Frame): seq<Byte>
    requires Fits(f)
  {
    [0xAA, f.kind, |f.payload|] + f.payload + [0xBB]
  }

  function EncodeAll(fs: seq<Frame>): seq<Byte>
    requires forall f :: f in fs ==> Fits(f)
  {
    if fs == [] then [] else Encode(fs[0]) + EncodeAll(fs[1..])
  }

  /** A complete, well-formed frame stands at the front of `s`. */
  predicate StartsWithFrame(s: seq<Byte>) {
    |s| >= HEADER_SIZE && |s| >= HEADER_SIZE + s[2] && s[0] == 0xAA && s[3 + s[2]] == 0xBB
  }

  /** The receiver: it goes by the length byte and never looks for delimiters in a payload. */
  function Decode(s: seq<Byte>): seq<Frame> {
    if StartsWithFrame(s)
    then [Frame(s[1], s[3..3 + s[2]])] + Decode(s[4 + s[2]..])
    else []
  }

  lemma {:induction false} EncodeAllSnoc(fs: seq<Frame>, f: Frame)
    requires Fits(f) && forall g :: g in fs ==> Fits(g)
    ensures EncodeAll(fs + [f]) == EncodeAll(fs) + Encode(f)
  {
    if fs == [] {
      assert EncodeAll([f]) == Encode(f) + EncodeAll([]);
    } else {
      assert (fs + [f])[1..] == fs[1..] + [f];
      EncodeAllSnoc(fs[1..], f);
    }
  }

  lemma {:induction false} EncodeAllAppend(a: seq<Frame>, b: seq<Frame>)
    requires (forall f :: f in a ==> Fits(f)) && (forall f :: f in b ==> Fits(f))
    ensures EncodeAll(a + b) == EncodeAll(a) + EncodeAll(b)
  {
    if a == [] {
      assert a + b == b;
    } else {
      assert (a + b)[1..] == a[1..] + b;
      EncodeAllAppend(a[1..], b);
    }
  }

  lemma EncodeThenAnything(f: Frame, rest: seq<Byte>)
    requires Fits(f)
    ensures Decode(Encode(f) + rest) == [f] + Decode(rest)
  {
    var s := Encode(f) + rest;
    assert s[2] == |f.payload| && s[3..3 + |f.payload|] == f.payload && s[4 + |f.payload|..] == rest;
  }

  /** Nothing is decoded from a beginning that is shorter than the first frame. */
  lemma DecodeIncomplete(f: Frame, rest: seq<Byte>, arrived: seq<Byte>)
    requires Fits(f) && arrived <= Encode(f) + rest && |arrived| < |Encode(f)|
    ensures Decode(arrived) == []
  {
    assert forall i :: 0 <= i < |arrived| ==> arrived[i] == Encode(f)[i];
  }

  /** `got` is what a receiver may hold of the frames `fs` once `arrived` has arrived: the first
      frames, as many as have arrived completely. */
  predicate Received(fs: seq<Frame>, arrived: seq<Byte>, got: seq<Frame>)
    requires forall f :: f in fs ==> Fits(f)
  {
    && got <= fs
    && EncodeAll(got) <= arrived
    && (|got| < |fs| ==> |arrived| < |EncodeAll(got)| + |Encode(fs[|got|])|)
  }

  /** Whatever part of the stream has arrived, the receiver has exactly the frames that have
      arrived completely. */
  lemma {:induction false} DecodeArrived(fs: seq<Frame>, arrived: seq<Byte>)
    requires forall f :: f in fs ==> Fits(f)
    requires arrived <= EncodeAll(fs)
    ensures Received(fs, arrived, Decode(arrived))
    decreases |fs|
  {
    if fs != [] {
      var first, rest := Encode(fs[0]), EncodeAll(fs[1..]);
      if |arrived| < |first| {
        DecodeIncomplete(fs[0], rest, arrived);
      } else {
        var later := arrived[|first|..];
        assert arrived == first + later && later <= rest;
        EncodeThenAnything(fs[0], later);
        DecodeArrived(fs[1..], later);
        ReceivedCons(fs, later, Decode(later));
      }
    }
  }

  lemma ReceivedCons(fs: seq<Frame>, later: seq<Byte>, got: seq<Frame>)
    requires fs != [] && forall f :: f in fs ==> Fits(f)
    requires Received(fs[1..], later, got)
    ensures Received(fs, Encode(fs[0]) + later, [fs[0]] + got)
  {
    assert ([fs[0]] + got)[1..] == got;
  }

  /** Round trip, also for payloads that contain 0xAA or 0xBB. */
  lemma {:induction false} DecodeEncodeAll(fs: seq<Frame>)
    requires forall f :: f in fs ==> Fits(f)
    ensures Decode(EncodeAll(fs)) == fs
  {
    DecodeArrived(fs, EncodeAll(fs));
    var n := |Decode(EncodeAll(fs))|;
    assert Decode(EncodeAll(fs)) == fs[..n];
    if n < |fs| {
      assert fs == fs[..n] + fs[n..];
      EncodeAllAppend(fs[..n], fs[n..]);
    } else {
      assert fs[..n] == fs;
    }
  }

  /** The log records carried by a list of frames; dumps carry none. */
  function LogWords(fs: seq<Frame>): seq<Word> {
    if fs == [] then []
    else LogWords(fs[..|fs| - 1]) + (if fs[|fs| - 1].kind == TYPE_LOG then BytesWords(fs[|fs| - 1].payload) else [])
  }

  lemma {:induction false} LogWordsPrefix(a: seq<Frame>, b: seq<Frame>)
    requires a <= b
    ensures LogWords(a) <= LogWords(b)
    decreases |b|
  {
    if |a| < |b| {
      LogWordsPrefix(a, b[..|b| - 1]);
    } else {
      assert a == b;
    }
  }

  /** The bytes `BuildFrame` sends: the length byte is written before the length is clamped. */
  function Sent(kind: Byte, length: Byte, payload: seq<Byte>): seq<Byte>
    requires |payload| == (if length > PAYLOAD_ALLOW_LENGTH then PAYLOAD_ALLOW_LENGTH else length)
  {
    [0xAA, kind, length] + payload + [0xBB]
  }

  /** Puts the frame around a payload that is already in its place in the send buffer. */
  method BuildFrame(kind: Byte, length: Byte, buf: array<Byte>) returns (sendLength: Byte)
    requires buf.Length == TOTAL_ALLOW_LENGTH
    modifies buf
    ensures sendLength == HEADER_SIZE + (if length > PAYLOAD_ALLOW_LENGTH then PAYLOAD_ALLOW_LENGTH else length)
    ensures buf[..sendLength] == Sent(kind, length, old(buf[PAYLOAD_START_OFFSET..sendLength - 1]))
    ensures length <= PAYLOAD_ALLOW_LENGTH
            ==> buf[..sendLength] == Encode(Frame(kind, old(buf[PAYLOAD_START_OFFSET..PAYLOAD_START_OFFSET + length])))
    ensures buf[sendLength..] == old(buf[sendLength..])
    ensures buf[0] == 0xAA && buf[1] == kind && buf[2] == length && buf[sendLength - 1] == 0xBB
    ensures buf[3..sendLength - 1] == old(buf[3..sendLength - 1])
  {
    var offset: nat := 0;
    buf[offset] := 0xAA;
    offset := offset + 1;
    buf[offset] := kind;
    offset := offset + 1;
    buf[offset] := length;
    offset := offset + 1;
    var clamped := if length > PAYLOAD_ALLOW_LENGTH then PAYLOAD_ALLOW_LENGTH else length;
    offset := offset + clamped;
    buf[offset] := 0xBB;
    offset := offset + 1;
    sendLength := offset;
    assert buf[..sendLength] == [0xAA, kind, length] + old(buf[PAYLOAD_START_OFFSET..sendLength - 1]) + [0xBB];
  }

  /** A sent frame can be told from what follows it exactly when the length was not clamped:
      otherwise the receiver takes bytes of the next frames for payload. */
  lemma SelfDelimitingIff(kind: Byte, length: Byte, payload: seq<Byte>)
    requires |payload| == (if length > PAYLOAD_ALLOW_LENGTH then PAYLOAD_ALLOW_LENGTH else length)
    ensures (forall rest {:trigger Decode(Sent(kind, length, payload) + rest)} ::
               Decode(Sent(kind, length, payload) + rest) == [Frame(kind, payload)] + Decode(rest))
            <==> length <= PAYLOAD_ALLOW_LENGTH
  {
    if length <= PAYLOAD_ALLOW_LENGTH {
      forall rest
        ensures Decode(Sent(kind, length, payload) + rest) == [Frame(kind, payload)] + Decode(rest)
      {
        EncodeThenAnything(Frame(kind, payload), rest);
        assert Sent(kind, length, payload) == Encode(Frame(kind, payload));
      }
    } else {
      assert Decode(Sent(kind, length, payload) + []) == [];
    }
  }

  /** The payload of a round-buffer dump. */
  function DumpPayload(index: Byte, start: Word, end: Word, write: Word, read: Word): (payload: seq<Byte>)
    ensures |payload| == 17
  {
    WordsBytesLength([start, end, write, read]);
    [index] + WordsBytes([start, end, write, read])
  }

  /** A round buffer's number and its four pointers. */
  datatype Dump = Dump(index: Byte, start: Word, end: Word, write: Word, read: Word)

  /** What the receiver reads in a frame that is a dump. */
  predicate IsDump(f: Frame, d: Dump) {
    && f.kind == 0x01 && |f.payload| == 17
    && f.payload[0] == d.index
    && BytesWords(f.payload[1..]) == [d.start, d.end, d.write, d.read]
  }

  /** The receiver reads the number and the four pointers back from a dump. */
  lemma DumpRoundTrip(index: Byte, start: Word, end: Word, write: Word, read: Word)
    ensures IsDump(Frame(TYPE_ROUND_BUFFER, DumpPayload(index, start, end, write, read)),
                   Dump(index, start, end, write, read))
  {
    WordsRoundTrip([start, end, write, read]);
    WordsBytesLength([start, end, write, read]);
    assert DumpPayload(index, start, end, write, read)[1..] == WordsBytes([start, end, write, read]);
  }
}
