/** Machine words, log records and their little-endian byte images. */
module Words {

  type Byte = x: int | 0 <= x < 0x100
  type Half = x: int | 0 <= x < 0x1_0000
  type Word = x: int | 0 <= x < 0x1_0000_0000

  /** The range of a signed 32-bit word. */
  predicate FitsWord(x: int) {
    -0x8000_0000 <= x < 0x8000_0000
  }

  /** The 32-bit log record `(flag << 16) | value`. */
  function Record(flag: Half, value: Half): Word {
    flag * 0x1_0000 + value
  }

  function FlagOf(w: Word): Half { w / 0x1_0000 }

  function ValueOf(w: Word): Half { w % 0x1_0000 }

  /** Records and (flag, value) pairs correspond one to one. */
  lemma RecordRoundTrip(flag: Half, value: Half, w: Word)
    ensures FlagOf(Record(flag, value)) == flag && ValueOf(Record(flag, value)) == value
    ensures Record(FlagOf(w), ValueOf(w)) == w
  {
  }

  /** A log record with the flag and the value it was made from. */
  datatype Entry = Entry(flag: Half, value: Half)

  /** What a receiver reads in a list of records. */
  function Entries(ws: seq<Word>): seq<Entry> {
    if ws == [] then [] else Entries(ws[..|ws| - 1]) + [Entry(FlagOf(ws[|ws| - 1]), ValueOf(ws[|ws| - 1]))]
  }

  /** Byte `k` of a word in memory, lowest address first. */
  function ByteOf(w: Word, k: nat): Byte
    requires k < 4
  {
    if k == 0 then w % 0x100
    else if k == 1 then w / 0x100 % 0x100
    else if k == 2 then w / 0x1_0000 % 0x100
    else w / 0x100_0000
  }

  function WordBytes(w: Word): seq<Byte> {
    [ByteOf(w, 0), ByteOf(w, 1), ByteOf(w, 2), ByteOf(w, 3)]
  }

  function BytesWord(b: seq<Byte>): Word
    requires |b| == 4
  {
    (b[0] as int) + 0x100 * (b[1] as int) + 0x1_0000 * (b[2] as int) + 0x100_0000 * (b[3] as int)
  }

  lemma WordRoundTrip(w: Word)
    ensures BytesWord(WordBytes(w)) == w
  {
    assert w == 0x100 * (w / 0x100) + w % 0x100;
    assert w / 0x100 == 0x100 * (w / 0x1_0000) + w / 0x100 % 0x100;
    assert w / 0x1_0000 == 0x100 * (w / 0x100_0000) + w / 0x1_0000 % 0x100;
  }

  lemma Digits(w: Word, b0: Byte, b1: Byte, b2: Byte, b3: Byte)
    requires w == b0 + 0x100 * b1 + 0x1_0000 * b2 + 0x100_0000 * b3
    ensures WordBytes(w) == [b0, b1, b2, b3]
  {
    assert w / 0x100 == b1 + 0x100 * b2 + 0x1_0000 * b3;
    assert w / 0x1_0000 == b2 + 0x100 * b3;
  }

  /** A record in memory: the value and then the flag, each with its lower byte first. */
  lemma RecordBytes(flag: Half, value: Half)
    ensures WordBytes(Record(flag, value)) == [value % 0x100, value / 0x100, flag % 0x100, flag / 0x100]
  {
    Digits(Record(flag, value), value % 0x100, value / 0x100, flag % 0x100, flag / 0x100);
    hide WordBytes;
  }

  /** The memory image of an array of words. */
  function WordsBytes(ws: seq<Word>): seq<Byte> {
    if ws == [] then [] else WordBytes(ws[0]) + WordsBytes(ws[1..])
  }

  /** The words in a byte image; an incomplete last word is dropped. */
  function BytesWords(bs: seq<Byte>): seq<Word> {
    if |bs| < 4 then [] else [BytesWord(bs[..4])] + BytesWords(bs[4..])
  }

  lemma {:induction false} WordsBytesLength(ws: seq<Word>)
    ensures |WordsBytes(ws)| == 4 * |ws|
  {
    if ws != [] {
      WordsBytesLength(ws[1..]);
    }
  }

  lemma {:induction false} WordsRoundTrip(ws: seq<Word>)
    ensures BytesWords(WordsBytes(ws)) == ws
  {
    if ws != [] {
      var bs := WordsBytes(ws);
      WordRoundTrip(ws[0]);
      assert bs[..4] == WordBytes(ws[0]) && bs[4..] == WordsBytes(ws[1..]);
      WordsRoundTrip(ws[1..]);
    }
  }

  lemma {:induction false} WordsBytesSnoc(ws: seq<Word>, w: Word)
    ensures WordsBytes(ws + [w]) == WordsBytes(ws) + WordBytes(w)
  {
    if ws == [] {
      assert ws + [w] == [w] && WordsBytes([w]) == WordBytes(w) + WordsBytes([]);
    } else {
      assert (ws + [w])[1..] == ws[1..] + [w];
      WordsBytesSnoc(ws[1..], w);
    }
  }

  lemma FourWords(a: Word, b: Word, c: Word, d: Word)
    ensures WordsBytes([a, b, c, d]) == WordBytes(a) + WordBytes(b) + WordBytes(c) + WordBytes(d)
  {
    WordsBytesSnoc([a, b, c], d);
    WordsBytesSnoc([a, b], c);
    WordsBytesSnoc([a], b);
    assert WordsBytes([a]) == WordBytes(a) + WordsBytes([]);
    assert [a, b, c] + [d] == [a, b, c, d] && [a, b] + [c] == [a, b, c] && [a] + [b] == [a, b];
  }

  /** Stores a value at `at`, lowest byte first. */
  method WriteLongValue(buf: array<Byte>, at: nat, value: Word)
    requires at + 4 <= buf.Length
    modifies buf
    ensures buf[at..at + 4] == WordBytes(value)
    ensures BytesWord(buf[at..at + 4]) == value
    ensures buf[..at] == old(buf[..at]) && buf[at + 4..] == old(buf[at + 4..])
  {
    buf[at] := value % 0x100;
    buf[at + 1] := value / 0x100 % 0x100;
    buf[at + 2] := value / 0x1_0000 % 0x100;
    buf[at + 3] := value / 0x100_0000 % 0x100;
    WordRoundTrip(value);
    assert buf[at..at + 4] == WordBytes(value);
  }
}
