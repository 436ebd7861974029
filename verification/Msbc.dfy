/** The mSBC driver: 240-byte blocks of samples are handed to the encoder, and 57-byte encoded
    frames are taken from its output ring, whole or in pieces of 20, 20 and 17 bytes. */
module Msbc {
  import opened Arithmetic
  import opened Words
  import C = CircularBuffer

  const ENCODED_LEN: nat := 57
  const PACKET_LEN: nat := 240

  /** The driver's variables and the two encoder registers it compares.  `rd` is the read pointer
      as an offset into the output ring, `phase` the variable lengthSBC. */
  datatype Driver = Driver(srcLen: nat, dstLen: nat, swp: nat, srp: nat, rd: nat, coding: bool, phase: nat) {
    /** `Drv_mSBC_enable`; the encoder starts from the beginning of its buffers. */
    function Enabled(): Driver {
      this.(rd := 0, swp := 0, srp := 0)
    }

    /** `Drv_mSBC_RefreshWptr`. */
    function Refreshed(len: nat): Driver {
      var s := swp + len;
      this.(swp := if s >= srcLen then s - srcLen else s, coding := true)
    }

    predicate EncodeCompleted() {
      swp == srp
    }

    /** A frame is waiting, as the driver sees it. */
    predicate Available() {
      coding && EncodeCompleted()
    }

    /** The read pointer after `n` bytes. */
    function ReadOn(n: nat): nat {
      if rd + n >= dstLen then 0 else rd + n
    }

    /** `Drv_CheckMsbcCoding`. */
    function FrameTaken(): Driver {
      if !Available() then this else this.(coding := false, rd := ReadOn(ENCODED_LEN))
    }

    function PieceLength(): nat {
      if phase == 40 then 17 else 20
    }

    /** `Drv_CheckMsbcCoding_packet`; lengthSBC is a byte. */
    function PieceTaken(): Driver {
      if !Available() then this
      else if phase == 40 then this.(coding := false, phase := 0, rd := ReadOn(17))
      else this.(phase := (phase + 20) % 0x100, rd := ReadOn(20))
    }
  }

  // -------- the driver in place --------

  class Msbc {
    var srcLen: nat
    var dstBuf: array<Byte>
    var rd: nat
    var coding: bool
    var lengthSBC: nat
    /** The encoder's source write and read pointers. */
    var swp: nat
    var srp: nat

    ghost function View(): Driver
      reads this
    {
      Driver(srcLen, dstBuf.Length, swp, srp, rd, coding, lengthSBC)
    }

    constructor (srcLen: nat, dstBuf: array<Byte>)
      ensures View() == Driver(srcLen, dstBuf.Length, 0, 0, 0, false, 0) && this.dstBuf == dstBuf
    {
      this.srcLen := srcLen;
      this.dstBuf := dstBuf;
      rd, coding, lengthSBC, swp, srp := 0, false, 0, 0, 0;
    }

    /** `Drv_mSBC_init` goes on only with whole blocks and whole frames; otherwise it hangs. */
    method Init() returns (started: bool)
      modifies this`swp
      ensures started <==> srcLen % 240 == 0 && dstBuf.Length % 57 == 0
      ensures View() == if started then old(View()).(swp := 0) else old(View())
    {
      if srcLen % PACKET_LEN != 0 {
        return false;
      }
      if dstBuf.Length % ENCODED_LEN != 0 {
        return false;
      }
      swp := 0;
      return true;
    }

    method Enable()
      modifies this`rd, this`swp, this`srp
      ensures View() == old(View()).Enabled()
    {
      rd := 0;
      swp := 0;
      srp := 0;
    }

    /** Moves the write pointer on around the ring.  The driver takes what it pushed for encoded
        already exactly when the registers are whole rings apart. */
    method RefreshWptr(len: nat)
      modifies this`swp, this`coding
      ensures View() == old(View()).Refreshed(len)
      ensures 0 < len <= srcLen && old(swp) < srcLen ==> swp == (old(swp) + len) % srcLen
      ensures 0 < len <= srcLen && old(swp) < srcLen && srp < srcLen
              ==> (View().Available() <==> (old(swp) + len - srp) % srcLen == 0)
    {
      var s := swp + len;
      if s >= srcLen {
        s := s - srcLen;
      }
      if 0 < len <= srcLen && swp < srcLen {
        StepsAround(swp, len, srp, srcLen);
      }
      swp := s;
      coding := true;
    }

    method CheckEncodeCmp() returns (completed: bool)
      ensures completed <==> View().EncodeCompleted()
    {
      completed := swp == srp;
    }

    /** Copies `n` bytes from the read pointer to the caller's buffer. */
    method CopyOut(target: array<Byte>, n: nat)
      requires rd + n <= dstBuf.Length && n <= target.Length && target != dstBuf
      modifies target
      ensures target[..n] == dstBuf[rd..rd + n] && target[n..] == old(target[n..])
    {
      for i := 0 to n
        invariant target[..i] == dstBuf[rd..rd + i]
        invariant target[n..] == old(target[n..])
      {
        target[i] := dstBuf[rd + i];
      }
    }

    method CheckMsbcCoding(target: array<Byte>) returns (taken: bool)
      requires target.Length >= ENCODED_LEN && target != dstBuf
      requires View().Available() ==> rd + ENCODED_LEN <= dstBuf.Length
      modifies this`coding, this`rd, target
      ensures taken <==> old(View()).Available()
      ensures View() == old(View()).FrameTaken()
      ensures taken ==> target[..ENCODED_LEN] == old(dstBuf[rd..rd + ENCODED_LEN])
      ensures !taken ==> target[..] == old(target[..])
    {
      if coding {
        var completed := CheckEncodeCmp();
        if completed {
          coding := false;
          CopyOut(target, ENCODED_LEN);
          rd := rd + ENCODED_LEN;
          if rd >= dstBuf.Length {
            rd := 0;
          }
          return true;
        }
      }
      return false;
    }

    method CheckMsbcCodingPacket(target: array<Byte>) returns (taken: bool)
      requires target.Length >= View().PieceLength() && target != dstBuf
      requires View().Available() ==> rd + View().PieceLength() <= dstBuf.Length
      modifies this`coding, this`rd, this`lengthSBC, target
      ensures taken <==> old(View()).Available()
      ensures View() == old(View()).PieceTaken()
      ensures taken ==> target[..old(View()).PieceLength()] == old(dstBuf[rd..rd + View().PieceLength()])
      ensures !taken ==> target[..] == old(target[..])
    {
      if coding {
        var completed := CheckEncodeCmp();
        if completed {
          if lengthSBC == 40 {
            coding := false;
            CopyOut(target, 17);
            lengthSBC := 0;
            rd := rd + 17;
            if rd >= dstBuf.Length {
              rd := 0;
            }
          } else {
            CopyOut(target, 20);
            rd := rd + 20;
            lengthSBC := (lengthSBC + 20) % 0x100;
            if rd >= dstBuf.Length {
              rd := 0;
            }
          }
          return true;
        }
      }
      return false;
    }
  }

  /** One wrap is enough to stay inside a ring of length `m`, and the new position is `srp` exactly
      when whole rings lie between them. */
  lemma StepsAround(swp: nat, len: nat, srp: nat, m: nat)
    requires 0 < len <= m && swp < m
    ensures C.Step(swp, len, m) == (swp + len) % m
    ensures srp < m ==> (C.Step(swp, len, m) == srp <==> (swp + len - srp) % m == 0)
  {
    DivModUnique(swp, 0, swp, m);
    C.StepIsModular(swp, len, m);
    if srp < m {
      DivModUnique(srp, 0, srp, m);
      SameRemainderIff(srp, swp + len, m);
    }
  }

  // -------- fragmentation --------

  /** What can happen to the driver between two looks at it: blocks of any length are pushed, the
      encoder reads on to anywhere, and pieces are taken. */
  datatype Call = Refresh(len: nat) | EncoderReads(srp: nat) | Piece

  function After(d: Driver, c: Call): Driver {
    match c
    case Refresh(len) => d.Refreshed(len)
    case EncoderReads(srp) => d.(srp := srp)
    case Piece => d.PieceTaken()
  }

  function Later(d: Driver, calls: seq<Call>): Driver {
    if calls == [] then d else After(Later(d, calls[..|calls| - 1]), calls[|calls| - 1])
  }

  predicate IsPhase(phase: nat) {
    phase == 0 || phase == 20 || phase == 40
  }

  /** The phase runs `skew` bytes ahead of the read offset within its frame. */
  predicate Framed(d: Driver, skew: nat) {
    && d.dstLen > 0 && d.dstLen % ENCODED_LEN == 0 && d.rd < d.dstLen
    && IsPhase(d.phase) && IsPhase(skew)
    && (d.rd + skew) % ENCODED_LEN == d.phase
  }

  /** The next piece lies inside the output ring, and ends at its end or before a piece more. */
  lemma PieceFits(d: Driver, skew: nat)
    requires Framed(d, skew)
    ensures d.rd + d.PieceLength() <= d.dstLen
  {
  }

  lemma AfterKeepsFramed(d: Driver, skew: nat, c: Call)
    requires Framed(d, skew)
    ensures Framed(After(d, c), skew)
  {
    if c.Piece? {
      PieceKeepsFramed(d, skew);
      hide Framed;
    }
  }

  lemma PieceKeepsFramed(d: Driver, skew: nat)
    requires Framed(d, skew)
    ensures Framed(d.PieceTaken(), skew)
  {
    PieceFits(d, skew);
  }

  lemma {:induction false} LaterKeepsFramed(d: Driver, skew: nat, calls: seq<Call>)
    requires Framed(d, skew)
    ensures Framed(Later(d, calls), skew)
  {
    if calls != [] {
      LaterKeepsFramed(d, skew, calls[..|calls| - 1]);
      AfterKeepsFramed(Later(d, calls[..|calls| - 1]), skew, calls[|calls| - 1]);
    }
  }

  /** Enabling moves the read pointer to the start of the ring but leaves lengthSBC alone.  In every
      state of every later run of packet calls, whatever is pushed and encoded, the pieces stay
      inside the ring, but phase and read offset agree if and only if no frame was half taken when
      the driver was enabled: nothing lines them up again. */
  lemma EnableAlignsIff(d: Driver, skew: nat, calls: seq<Call>)
    requires Framed(d, skew)
    ensures var e := Later(d.Enabled(), calls);
            && e.rd + e.PieceLength() <= e.dstLen
            && (e.rd % ENCODED_LEN == e.phase <==> d.phase == 0)
  {
    LaterKeepsFramed(d.Enabled(), d.phase, calls);
    var e := Later(d.Enabled(), calls);
    PieceFits(e, d.phase);
    SameRemainderIff(e.rd, e.rd + d.phase, ENCODED_LEN);
  }

  /** A whole-frame call in any such state: it begins as far into a frame as the phase is ahead of
      the skew, stays inside the ring exactly when it begins with a frame or not in the last one, and
      only then keeps phase and read offset as they are to each other. */
  lemma WholeFrameIff(d: Driver, skew: nat)
    requires Framed(d, skew) && d.Available()
    ensures d.rd % ENCODED_LEN == (if d.phase >= skew then d.phase - skew else d.phase + ENCODED_LEN - skew)
    ensures d.rd + ENCODED_LEN <= d.dstLen <==> d.phase == skew || d.rd / ENCODED_LEN + 1 < d.dstLen / ENCODED_LEN
    ensures Framed(d.FrameTaken(), skew) <==> d.rd + ENCODED_LEN <= d.dstLen
  {
    FrameOn(d.rd, skew);
    FrameFitsIff(d.rd, d.dstLen);
  }

  lemma FrameOn(at: nat, skew: nat)
    requires IsPhase(skew)
    ensures (at + ENCODED_LEN + skew) % ENCODED_LEN == (at + skew) % ENCODED_LEN
    ensures (at + skew) % ENCODED_LEN
            == at % ENCODED_LEN + skew - (if at % ENCODED_LEN + skew < ENCODED_LEN then 0 else ENCODED_LEN)
  {
  }

  lemma FrameFitsIff(at: nat, m: nat)
    requires m % ENCODED_LEN == 0 && at < m
    ensures at + ENCODED_LEN <= m <==> at % ENCODED_LEN == 0 || at / ENCODED_LEN + 1 < m / ENCODED_LEN
  {
  }

  // -------- runs with the encoder --------

  /** The driver, the output ring with the encoder's write pointer, and what has happened:
      blocks pushed, blocks pushed while an earlier one was still outstanding, all bytes encoded
      and all bytes delivered. */
  datatype World = World(d: Driver, dst: seq<Byte>, dwp: nat, pushes: nat, eager: nat,
                         frames: nat, encoded: seq<Byte>, delivered: seq<Byte>)

  datatype Action =
    | Push
    | Encode(frame: seq<Byte>)
    | TakeFrame
    | TakePiece

  /** A push always acts, as in the driver.  An encoder that sees no work changes nothing, and a
      whole frame is only asked for between two frames. */
  function Apply(w: World, a: Action): World {
    match a
    case Push =>
      w.(d := w.d.Refreshed(PACKET_LEN), pushes := w.pushes + 1, eager := w.eager + if w.d.coding then 1 else 0)
    case Encode(frame) =>
      if w.d.swp == w.d.srp || |frame| != ENCODED_LEN || w.dwp + ENCODED_LEN > |w.dst| then w
      else
        var s, p := w.d.srp + PACKET_LEN, w.dwp + ENCODED_LEN;
        w.(d := w.d.(srp := if s >= w.d.srcLen then s - w.d.srcLen else s),
           dst := w.dst[..w.dwp] + frame + w.dst[p..],
           dwp := if p >= w.d.dstLen then p - w.d.dstLen else p,
           frames := w.frames + 1, encoded := w.encoded + frame)
    case TakeFrame =>
      if !w.d.Available() || w.d.phase != 0 || w.d.rd + ENCODED_LEN > |w.dst| then w
      else w.(d := w.d.FrameTaken(), delivered := w.delivered + w.dst[w.d.rd..w.d.rd + ENCODED_LEN])
    case TakePiece =>
      var n := w.d.PieceLength();
      if !w.d.Available() || w.d.rd + n > |w.dst| then w
      else w.(d := w.d.PieceTaken(), delivered := w.delivered + w.dst[w.d.rd..w.d.rd + n])
  }

  function Exec(w: World, run: seq<Action>): World {
    if run == [] then w else Apply(Exec(w, run[..|run| - 1]), run[|run| - 1])
  }

  function Start(srcBlocks: nat, dstFrames: nat): World {
    World(Driver(PACKET_LEN * srcBlocks, ENCODED_LEN * dstFrames, 0, 0, 0, false, 0),
          seq(ENCODED_LEN * dstFrames, i => 0), 0, 0, 0, 0, [], [])
  }

  /** The sizes are those `Drv_mSBC_init` accepts, but not empty. */
  predicate Sized(w: World) {
    && w.d.srcLen >= PACKET_LEN && w.d.srcLen % PACKET_LEN == 0
    && w.d.dstLen >= ENCODED_LEN && w.d.dstLen % ENCODED_LEN == 0
    && |w.dst| == w.d.dstLen && |w.encoded| == ENCODED_LEN * w.frames
  }

  /** All pointers are the totals modulo their buffers, and the phase is the total modulo a frame. */
  predicate PointersOk(w: World)
    requires Sized(w)
  {
    && w.d.swp == PACKET_LEN * w.pushes % w.d.srcLen
    && w.d.srp == PACKET_LEN * w.frames % w.d.srcLen
    && w.dwp == |w.encoded| % w.d.dstLen
    && w.d.rd == |w.delivered| % w.d.dstLen
    && w.d.phase == |w.delivered| % ENCODED_LEN
    && IsPhase(w.d.phase)
  }

  /** Blocks pushed and not encoded. */
  function Outstanding(w: World): int {
    w.pushes - w.frames
  }

  /** Bytes pushed, as encoded, and not delivered. */
  function Owed(w: World): int {
    ENCODED_LEN * w.pushes - |w.delivered|
  }

  /** What every action keeps, however much is pushed. */
  predicate Sound(w: World) {
    && Sized(w) && PointersOk(w) && Outstanding(w) >= 0
    && Owed(w) == ENCODED_LEN * w.eager + (if w.d.coding then ENCODED_LEN - w.d.phase else 0)
  }

  /** Neither ring is lapped. */
  predicate WindowsOk(w: World) {
    && 0 <= PACKET_LEN * Outstanding(w) < w.d.srcLen
    && Owed(w) <= w.d.dstLen
    && (!w.d.coding ==> Outstanding(w) == 0)
  }

  /** The delivered bytes are the first encoded ones, and the rest is still in the ring. */
  predicate DataOk(w: World)
    requires Sized(w)
  {
    && |w.delivered| <= |w.encoded|
    && w.delivered == w.encoded[..|w.delivered|]
    && (forall i :: |w.delivered| <= i < |w.encoded| ==> w.dst[i % w.d.dstLen] == w.encoded[i])
  }

  predicate Good(w: World) {
    Sound(w) && WindowsOk(w) && DataOk(w)
  }

  // -------- arithmetic of the two rings --------

  /** In a ring of whole frames an offset is as far into its frame as the total is, and the rest of
      the frame lies inside the ring. */
  lemma FrameOffset(a: nat, m: nat)
    requires m > 0 && m % ENCODED_LEN == 0
    ensures a % m % ENCODED_LEN == a % ENCODED_LEN
    ensures a % m + ENCODED_LEN - a % ENCODED_LEN <= m
  {
    ModOfMod(a, ENCODED_LEN, m / ENCODED_LEN);
    UpToTheBoundary(a % m, m);
  }

  /** An offset inside a ring of whole frames has the rest of its frame in front of it. */
  lemma UpToTheBoundary(at: nat, m: nat)
    requires m % ENCODED_LEN == 0 && at < m
    ensures at + ENCODED_LEN - at % ENCODED_LEN <= m
  {
  }

  /** Positions in a window no longer than the ring, that does not wrap, are consecutive. */
  lemma NoWrap(a: nat, k: nat, m: nat)
    requires m > 0 && a % m + k < m
    ensures (a + k) % m == a % m + k
  {
    DivModUnique(a + k, a / m, a % m + k, m);
  }

  lemma WindowDistinct(i: nat, j: nat, m: nat)
    requires m > 0 && i < j < i + m
    ensures i % m != j % m
  {
    SameRemainderIff(i, j, m);
    DivModUnique(j - i, 0, j - i, m);
  }

  /** Moving a ring pointer on by `n` without passing the end. */
  lemma PointerMoves(a: nat, n: nat, m: nat)
    requires 0 < n <= m && a % m + n <= m
    ensures (a + n) % m == if a % m + n >= m then 0 else a % m + n
  {
    C.StepIsModular(a, n, m);
  }

  /** The registers meet exactly when whole rings of blocks are outstanding. */
  lemma HandOff(w: World)
    requires Sized(w) && PointersOk(w) && Outstanding(w) >= 0
    ensures w.d.EncodeCompleted() <==> PACKET_LEN * Outstanding(w) % w.d.srcLen == 0
  {
    SameRemainderIff(PACKET_LEN * w.frames, PACKET_LEN * w.pushes, w.d.srcLen);
    assert PACKET_LEN * w.pushes - PACKET_LEN * w.frames == PACKET_LEN * Outstanding(w);
  }

  /** So as long as the source ring is not lapped they meet exactly when the encoder has consumed
      every block pushed. */
  lemma HandOffWithRoom(w: World)
    requires Sized(w) && PointersOk(w) && WindowsOk(w)
    ensures w.d.EncodeCompleted() <==> Outstanding(w) == 0
  {
    HandOff(w);
    DivModUnique(PACKET_LEN * Outstanding(w), 0, PACKET_LEN * Outstanding(w), w.d.srcLen);
  }

  // -------- what the actions keep --------

  /** A push moves the write pointer to the new total. */
  lemma PushMovesPointers(w: World)
    requires Sized(w) && PointersOk(w)
    ensures w.d.Refreshed(PACKET_LEN).swp == PACKET_LEN * (w.pushes + 1) % w.d.srcLen
  {
    C.StepIsModular(PACKET_LEN * w.pushes, PACKET_LEN, w.d.srcLen);
    assert PACKET_LEN * w.pushes + PACKET_LEN == PACKET_LEN * (w.pushes + 1);
  }

  /** Between frames the phase is zero. */
  lemma IdleAtBoundary(w: World)
    requires Sound(w) && !w.d.coding
    ensures w.d.phase == 0
  {
    assert |w.delivered| == (w.pushes - w.eager) * ENCODED_LEN + 0;
    DivModUnique(|w.delivered|, w.pushes - w.eager, 0, ENCODED_LEN);
  }

  lemma PushKeepsSound(w: World)
    requires Sound(w)
    ensures Sound(Apply(w, Push))
  {
    PushMovesPointers(w);
    if !w.d.coding {
      IdleAtBoundary(w);
    }
  }

  /** An encode moves the read register and the output pointer to the new totals. */
  lemma EncodeMovesPointers(w: World)
    requires Sized(w) && PointersOk(w)
    ensures w.dwp + ENCODED_LEN <= |w.dst|
    ensures C.Step(w.d.srp, PACKET_LEN, w.d.srcLen) == PACKET_LEN * (w.frames + 1) % w.d.srcLen
    ensures C.Step(w.dwp, ENCODED_LEN, w.d.dstLen) == (|w.encoded| + ENCODED_LEN) % w.d.dstLen
  {
    InsideTheRing(w);
    C.StepIsModular(PACKET_LEN * w.frames, PACKET_LEN, w.d.srcLen);
    assert PACKET_LEN * w.frames + PACKET_LEN == PACKET_LEN * (w.frames + 1);
    C.StepIsModular(|w.encoded|, ENCODED_LEN, w.d.dstLen);
  }

  lemma EncodeKeepsSound(w: World, frame: seq<Byte>)
    requires Sound(w)
    ensures Sound(Apply(w, Encode(frame)))
  {
    HandOff(w);
    EncodeMovesPointers(w);
  }

  /** The state after `n` bytes have been taken. */
  function Taken(w: World, n: nat): World
    requires w.d.rd + n <= |w.dst|
  {
    var last := w.d.phase + n == ENCODED_LEN;
    w.(d := w.d.(rd := w.d.ReadOn(n), phase := if last then 0 else w.d.phase + n, coding := !last),
       delivered := w.delivered + w.dst[w.d.rd..w.d.rd + n])
  }

  /** The rest of the current frame and the slot of the next one lie inside the output ring. */
  lemma InsideTheRing(w: World)
    requires Sized(w) && PointersOk(w)
    ensures w.d.rd % ENCODED_LEN == w.d.phase
    ensures w.d.rd + ENCODED_LEN - w.d.phase <= |w.dst| && w.dwp + ENCODED_LEN <= |w.dst|
  {
    FrameOffset(|w.delivered|, w.d.dstLen);
    FrameOffset(|w.encoded|, w.d.dstLen);
    DivModUnique(|w.encoded|, w.frames, 0, ENCODED_LEN);
  }

  /** Takes that end at 20, 40 or 57 bytes of the current frame. */
  predicate Takes(w: World, n: nat) {
    w.d.Available() && 0 < n && (w.d.phase + n == ENCODED_LEN || (n == 20 && IsPhase(w.d.phase + n)))
  }

  lemma TakeKeepsSound(w: World, n: nat)
    requires Sound(w) && Takes(w, n)
    ensures w.d.rd + n <= |w.dst| && Sound(Taken(w, n))
  {
    InsideTheRing(w);
    PointerMoves(|w.delivered|, n, w.d.dstLen);
    PointerMoves(|w.delivered|, n, ENCODED_LEN);
  }

  /** Every action keeps the pointers, also those of a driver that pushes too much. */
  lemma ApplyKeepsSound(w: World, a: Action)
    requires Sound(w)
    ensures Sound(Apply(w, a))
  {
    match a
    case Push => PushKeepsSound(w);
    case Encode(frame) => EncodeKeepsSound(w, frame);
    case TakeFrame =>
      if w.d.Available() && w.d.phase == 0 { TakeKeepsSound(w, ENCODED_LEN); }
    case TakePiece =>
      if w.d.Available() { TakeKeepsSound(w, w.d.PieceLength()); }
  }

  lemma {:induction false} ExecKeepsSound(w: World, run: seq<Action>)
    requires Sound(w)
    ensures Sound(Exec(w, run))
  {
    if run != [] {
      ExecKeepsSound(w, run[..|run| - 1]);
      ApplyKeepsSound(Exec(w, run[..|run| - 1]), run[|run| - 1]);
    }
  }

  lemma StartIsGood(blocks: nat, frames: nat)
    requires blocks >= 1 && frames >= 1
    ensures Good(Start(blocks, frames))
  {
    DivModUnique(0, 0, 0, PACKET_LEN * blocks);
    DivModUnique(0, 0, 0, ENCODED_LEN * frames);
    DivModUnique(PACKET_LEN * blocks, blocks, 0, PACKET_LEN);
    DivModUnique(ENCODED_LEN * frames, frames, 0, ENCODED_LEN);
  }

  /** The state after a run from the start. */
  function Reached(blocks: nat, frames: nat, run: seq<Action>): World {
    Exec(Start(blocks, frames), run)
  }

  lemma ReachedIsSound(blocks: nat, frames: nat, run: seq<Action>)
    requires blocks >= 1 && frames >= 1
    ensures Sound(Reached(blocks, frames, run))
  {
    StartIsGood(blocks, frames);
    ExecKeepsSound(Start(blocks, frames), run);
  }

  /** In every reachable state, however much has been pushed: the phase is 0, 20 or 40 and is the
      read offset within its frame; the rest of the current frame, and the slot of the next one to
      be encoded, lie inside the output ring; and the registers are the blocks pushed and consumed
      modulo the source ring, and meet exactly when whole rings of blocks are outstanding. */
  lemma PointersOnEveryRun(blocks: nat, frames: nat, run: seq<Action>)
    requires blocks >= 1 && frames >= 1
    ensures var w := Reached(blocks, frames, run);
            && Sized(w)
            && w.d.phase in {0, 20, 40} && w.d.rd % ENCODED_LEN == w.d.phase
            && w.d.rd + ENCODED_LEN - w.d.phase <= |w.dst| && w.dwp + ENCODED_LEN <= |w.dst|
            && w.d.swp == PACKET_LEN * w.pushes % w.d.srcLen
            && w.frames <= w.pushes
            && (w.d.EncodeCompleted() <==> PACKET_LEN * Outstanding(w) % w.d.srcLen == 0)
  {
    ReachedIsSound(blocks, frames, run);
    var w := Reached(blocks, frames, run);
    HandOff(w);
    InsideTheRing(w);
  }

  /** A push is seen, from any state, if and only if it does not make the outstanding blocks whole
      rings: otherwise the driver takes a frame for ready although none has been encoded. */
  lemma PushIsVisibleIff(w: World)
    requires Sound(w)
    ensures !Apply(w, Push).d.Available() <==> PACKET_LEN * (Outstanding(w) + 1) % w.d.srcLen != 0
  {
    PushKeepsSound(w);
    HandOff(Apply(w, Push));
  }

  /** A single block in a ring of one, and the second of two in a ring of two, are not seen. */
  lemma InvisiblePushes()
    ensures var w := Exec(Start(1, 1), [Push]); w.d.Available() && Outstanding(w) == 1
    ensures var w := Exec(Start(2, 1), [Push, Push]); w.d.Available() && Outstanding(w) == 2
  {
    var w := Start(2, 1);
    assert [Push, Push][..1] == [Push] && [Push][..0] == [];
    assert Exec(w, [Push]) == Apply(w, Push);
    assert Exec(w, [Push, Push]) == Apply(Apply(w, Push), Push);
  }

  // -------- the data, while neither ring is lapped --------

  /** Room for one more block: the source ring does not fill up completely, and the output ring can
      hold all that is not delivered yet. */
  predicate Room(w: World) {
    && PACKET_LEN * (Outstanding(w) + 1) < w.d.srcLen
    && Owed(w) + ENCODED_LEN <= w.d.dstLen
  }

  lemma PushKeepsGood(w: World)
    requires Good(w) && Room(w)
    ensures Good(Apply(w, Push))
  {
    PushKeepsSound(w);
  }

  lemma NoWrapFrame(e: nat, k: nat, m: nat)
    requires m > 0 && e % m + ENCODED_LEN <= m && k < ENCODED_LEN
    ensures (e + k) % m == e % m + k
  {
    NoWrap(e, k, m);
  }

  lemma EncodeKeepsData(w: World, frame: seq<Byte>)
    requires Good(w) && w.frames < w.pushes && |frame| == ENCODED_LEN
    requires w.dwp + ENCODED_LEN <= |w.dst|
    ensures var dst', encoded' := w.dst[..w.dwp] + frame + w.dst[w.dwp + ENCODED_LEN..], w.encoded + frame;
            forall i :: |w.delivered| <= i < |encoded'| ==> dst'[i % w.d.dstLen] == encoded'[i]
  {
    var m, e := w.d.dstLen, |w.encoded|;
    var dst', encoded' := w.dst[..w.dwp] + frame + w.dst[w.dwp + ENCODED_LEN..], w.encoded + frame;
    forall i | |w.delivered| <= i < |encoded'|
      ensures dst'[i % m] == encoded'[i]
    {
      if i >= e {
        NoWrapFrame(e, i - e, m);
      } else {
        assert !(w.dwp <= i % m < w.dwp + ENCODED_LEN) by {
          if w.dwp <= i % m < w.dwp + ENCODED_LEN {
            var k := i % m - w.dwp;
            NoWrapFrame(e, k, m);
            WindowDistinct(i, e + k, m);
          }
        }
        assert w.dst[i % m] == w.encoded[i];
      }
    }
  }

  lemma EncodeKeepsGood(w: World, frame: seq<Byte>)
    requires Good(w)
    ensures Good(Apply(w, Encode(frame)))
  {
    EncodeKeepsSound(w, frame);
    if w.d.swp != w.d.srp && |frame| == ENCODED_LEN && w.dwp + ENCODED_LEN <= |w.dst| {
      HandOffWithRoom(w);
      EncodeKeepsData(w, frame);
      hide PointersOk;
    }
  }

  /** A frame or a piece that is available has been encoded, and is the next part of the encoded
      bytes. */
  lemma NextBytes(w: World, n: nat)
    requires Good(w) && Takes(w, n)
    ensures w.d.rd + n <= |w.dst| && |w.delivered| + n <= |w.encoded|
    ensures w.dst[w.d.rd..w.d.rd + n] == w.encoded[|w.delivered|..|w.delivered| + n]
  {
    var m, a := w.d.dstLen, |w.delivered|;
    HandOffWithRoom(w);
    InsideTheRing(w);
    assert a + n <= |w.encoded|;
    RingSlice(w.dst, w.encoded, a, n, m);
  }

  /** A part of a stream that is in the ring without wrapping. */
  lemma RingSlice(dst: seq<Byte>, encoded: seq<Byte>, a: nat, n: nat, m: nat)
    requires |dst| == m > 0 && a % m + n <= m && a + n <= |encoded|
    requires forall i :: a <= i < |encoded| ==> dst[i % m] == encoded[i]
    ensures dst[a % m..a % m + n] == encoded[a..a + n]
  {
    var got, next := dst[a % m..a % m + n], encoded[a..a + n];
    forall k | 0 <= k < n
      ensures got[k] == next[k]
    {
      NoWrap(a, k, m);
      assert dst[(a + k) % m] == encoded[a + k];
    }
  }

  lemma TakeKeepsGood(w: World, n: nat)
    requires Good(w) && Takes(w, n)
    ensures w.d.rd + n <= |w.dst| && Good(Taken(w, n))
  {
    var a := |w.delivered|;
    TakeKeepsSound(w, n);
    NextBytes(w, n);
    HandOffWithRoom(w);
    hide PointersOk;
    assert w.encoded[..a + n] == w.encoded[..a] + w.encoded[a..a + n];
  }

  lemma ApplyKeepsGood(w: World, a: Action)
    requires Good(w) && (a.Push? ==> Room(w))
    ensures Good(Apply(w, a))
  {
    hide Good;
    match a
    case Push => PushKeepsGood(w);
    case Encode(frame) => EncodeKeepsGood(w, frame);
    case TakeFrame => DeliveryKeepsGood(w, a, ENCODED_LEN);
    case TakePiece => DeliveryKeepsGood(w, a, w.d.PieceLength());
  }

  lemma DeliveryKeepsGood(w: World, a: Action, n: nat)
    requires Good(w) && ((a.TakeFrame? && n == ENCODED_LEN) || (a.TakePiece? && n == w.d.PieceLength()))
    ensures Good(Apply(w, a))
  {
    if w.d.Available() && (a.TakeFrame? ==> w.d.phase == 0) {
      GoodPhase(w);
      TakeKeepsGood(w, n);
      hide Good;
    }
  }

  lemma GoodPhase(w: World)
    requires Good(w)
    ensures IsPhase(w.d.phase)
  {
  }

  /** Every push of the run finds room. */
  predicate Roomy(w: World, run: seq<Action>) {
    || run == []
    || (&& Roomy(w, run[..|run| - 1])
        && (run[|run| - 1].Push? ==> Room(Exec(w, run[..|run| - 1]))))
  }

  lemma {:induction false} ExecKeepsGood(w: World, run: seq<Action>)
    requires Good(w) && Roomy(w, run)
    ensures Good(Exec(w, run))
  {
    if run != [] {
      ExecKeepsGood(w, run[..|run| - 1]);
      ApplyKeepsGood(Exec(w, run[..|run| - 1]), run[|run| - 1]);
    }
  }

  /** On every run whose pushes find room the registers are equal exactly when the encoder has
      consumed everything pushed, and the delivered bytes are the first encoded bytes, in order. */
  lemma DeliveredInOrder(blocks: nat, frames: nat, run: seq<Action>)
    requires blocks >= 1 && frames >= 1 && Roomy(Start(blocks, frames), run)
    ensures var w := Reached(blocks, frames, run);
            && (w.d.EncodeCompleted() <==> w.frames == w.pushes)
            && w.delivered <= w.encoded
  {
    StartIsGood(blocks, frames);
    ExecKeepsGood(Start(blocks, frames), run);
    HandOffWithRoom(Reached(blocks, frames, run));
  }

  // -------- room is exactly what a push needs --------

  /** The registers tell whether all is encoded, and whatever the encoder does before the next push,
      the driver can still deliver what was encoded. */
  ghost predicate Safe(w: World) {
    && (w.d.EncodeCompleted() <==> Outstanding(w) == 0)
    && forall run :: OnlyEncodes(run) ==> Intact(Exec(w, run))
  }

  predicate OnlyEncodes(run: seq<Action>) {
    forall i :: 0 <= i < |run| ==> run[i].Encode?
  }

  predicate Intact(w: World) {
    Sized(w) && DataOk(w)
  }

  lemma {:induction false} EncodesAreRoomy(w: World, run: seq<Action>)
    requires OnlyEncodes(run)
    ensures Roomy(w, run)
  {
    if run != [] {
      EncodesAreRoomy(w, run[..|run| - 1]);
    }
  }

  lemma GoodIsSafe(w: World)
    requires Good(w)
    ensures Safe(w)
  {
    HandOffWithRoom(w);
    forall run | OnlyEncodes(run)
      ensures Intact(Exec(w, run))
    {
      EncodesAreRoomy(w, run);
      ExecKeepsGood(w, run);
    }
  }

  /** A frame whose bytes are all `b`. */
  function Plain(b: Byte): Action {
    Encode(seq(ENCODED_LEN, i => b))
  }

  function Plains(n: nat): (run: seq<Action>)
    ensures |run| == n && OnlyEncodes(run)
  {
    if n == 0 then [] else Plains(n - 1) + [Plain(0)]
  }

  lemma EncodeActs(w: World, b: Byte)
    requires Sound(w) && 0 < PACKET_LEN * Outstanding(w) < w.d.srcLen
    ensures var w' := Apply(w, Plain(b));
            && Sound(w') && w'.frames == w.frames + 1 && w'.pushes == w.pushes && w'.d.srcLen == w.d.srcLen
            && w'.encoded[..|w.encoded|] == w.encoded && w'.delivered == w.delivered && w'.d.dstLen == w.d.dstLen
            && w.dwp + ENCODED_LEN <= |w.dst| && w'.dst[w.dwp + 56] == b
  {
    HandOff(w);
    DivModUnique(PACKET_LEN * Outstanding(w), 0, PACKET_LEN * Outstanding(w), w.d.srcLen);
    InsideTheRing(w);
    EncodeKeepsSound(w, seq(ENCODED_LEN, i => b));
    hide Sound;
  }

  lemma {:induction false} EncodersCatchUp(w: World, n: nat)
    requires Sound(w) && n <= Outstanding(w) && PACKET_LEN * Outstanding(w) < w.d.srcLen
    ensures var w' := Exec(w, Plains(n));
            && Sound(w') && w'.frames == w.frames + n && w'.pushes == w.pushes
            && w'.d.srcLen == w.d.srcLen && w'.d.dstLen == w.d.dstLen && w'.delivered == w.delivered
  {
    hide Sound, Exec, Apply, Plain;
    if n > 0 {
      EncodersCatchUp(w, n - 1);
      EncodeActs(Exec(w, Plains(n - 1)), 0);
      ExecSnoc(w, Plains(n - 1), Plain(0));
    } else {
      ExecNothing(w);
    }
  }

  /** A push that laps the output ring: the encoder, once it gets there, overwrites a byte that has
      not been delivered. */
  lemma LappedOutputIsNotSafe(w: World)
    requires Sound(w) && 0 < PACKET_LEN * Outstanding(w) < w.d.srcLen
    requires Owed(w) > w.d.dstLen
    ensures !Safe(w)
  {
    hide Intact, Exec, Plain, Apply, Plains, Sound;
    var n := Outstanding(w) - 1;
    EncodersCatchUp(w, n);
    var v := Exec(w, Plains(n));
    var b := OverwrittenIsNotIntact(v);
    ExecSnoc(w, Plains(n), Plain(b));
    assert !Intact(Exec(w, Plains(n) + [Plain(b)]));
  }

  lemma OverwrittenIsNotIntact(v: World) returns (b: Byte)
    requires Sound(v) && Outstanding(v) == 1 && PACKET_LEN < v.d.srcLen && Owed(v) > v.d.dstLen
    ensures Plain(b).Encode? && !Intact(Apply(v, Plain(b)))
  {
    hide Plain, Apply, PointersOk;
    var i := |v.encoded| + 56 - v.d.dstLen;
    b := if v.encoded[i] == 0 then 1 else 0;
    EncodeActs(v, b);
    SameSlot(v);
    var w := Apply(v, Plain(b));
    assert w.encoded[i] == w.encoded[..|v.encoded|][i];
    assert Plain(b).Encode? by { PlainEncodes(b); }
  }

  lemma PlainEncodes(b: Byte)
    ensures Plain(b).Encode?
  {
  }

  /** The last byte of the next frame goes where the byte a whole ring before it was. */
  lemma SameSlot(v: World)
    requires Sized(v) && PointersOk(v) && |v.encoded| + 56 >= v.d.dstLen
    ensures (|v.encoded| + 56 - v.d.dstLen) % v.d.dstLen == v.dwp + 56
  {
    var m, e := v.d.dstLen, |v.encoded|;
    InsideTheRing(v);
    NoWrapFrame(e, 56, m);
    DivModUnique(e + 56 - m - (e + 56), -1, 0, m);
    SameRemainderIff(e + 56, e + 56 - m, m);
  }

  /** A push keeps the hand-off and all that is not delivered yet if and only if there is room. */
  lemma PushIsSafeIff(w: World)
    requires Good(w)
    ensures Safe(Apply(w, Push)) <==> Room(w)
  {
    var w' := Apply(w, Push);
    PushKeepsSound(w);
    if Room(w) {
      PushKeepsGood(w);
      GoodIsSafe(w');
    } else if PACKET_LEN * Outstanding(w') < w.d.srcLen {
      LappedOutputIsNotSafe(w');
    } else {
      RingIsFull(w);
      HandOff(w');
    }
  }

  lemma RingIsFull(w: World)
    requires Sized(w) && PACKET_LEN * Outstanding(w) < w.d.srcLen <= PACKET_LEN * (Outstanding(w) + 1)
    ensures PACKET_LEN * (Outstanding(w) + 1) % w.d.srcLen == 0
  {
    assert w.d.srcLen == PACKET_LEN * (w.d.srcLen / PACKET_LEN);
  }

  // -------- enabling again --------

  /** The world after an enable, with all counts started again. */
  function Restarted(w: World): World {
    World(w.d.Enabled(), w.dst, 0, 0, 0, 0, [], [])
  }

  /** After an enable a frame looks available exactly when one was still expected before it, although
      nothing has been encoded since: `Drv_mSBC_enable` does not clear mMsbcCoding either.  Everything
      that holds of runs from the start holds of the runs after an enable, with pushes counted from
      zero, if and only if no frame was expected and none half taken. */
  lemma EnableRestartsIff(w: World)
    requires Sized(w)
    ensures Restarted(w).d.EncodeCompleted()
    ensures Restarted(w).d.Available() <==> w.d.coding
    ensures Good(Restarted(w)) <==> !w.d.coding && w.d.phase == 0
  {
    DivModUnique(0, 0, 0, w.d.srcLen);
    DivModUnique(0, 0, 0, w.d.dstLen);
    DivModUnique(0, 0, 0, ENCODED_LEN);
  }

  // -------- what stays behind --------

  /** What is pushed and not delivered is exactly one frame for every block that was pushed while
      another one was outstanding, and what is left of the current frame: each completed encode
      releases one frame only, however many blocks it completed. */
  lemma Backlog(blocks: nat, frames: nat, run: seq<Action>)
    requires blocks >= 1 && frames >= 1
    ensures var w := Reached(blocks, frames, run);
            Owed(w) == ENCODED_LEN * w.eager + (if w.d.coding then ENCODED_LEN - w.d.phase else 0)
  {
    ReachedIsSound(blocks, frames, run);
  }

  /** So when nothing more can be taken, all that was encoded has been delivered if and only if no
      block was ever pushed while another one was outstanding. */
  lemma AllDeliveredIff(blocks: nat, frames: nat, run: seq<Action>)
    requires blocks >= 1 && frames >= 1 && Roomy(Start(blocks, frames), run)
    requires !Reached(blocks, frames, run).d.coding
    ensures var w := Reached(blocks, frames, run);
            && |w.encoded| - |w.delivered| == ENCODED_LEN * w.eager
            && (w.delivered == w.encoded <==> w.eager == 0)
  {
    StartIsGood(blocks, frames);
    ExecKeepsGood(Start(blocks, frames), run);
    var w := Reached(blocks, frames, run);
    assert WindowsOk(w) && DataOk(w);
    assert w.encoded[..|w.encoded|] == w.encoded;
  }

  lemma {:induction false} BacklogGrows(w: World, run: seq<Action>)
    requires Sound(w)
    ensures Sound(Exec(w, run)) && Exec(w, run).eager >= w.eager
  {
    ExecKeepsSound(w, run);
    if run != [] {
      BacklogGrows(w, run[..|run| - 1]);
    }
  }

  /** Such a block stays behind for ever: whatever is done afterwards, a frame for each of them is
      pushed and not delivered. */
  lemma BacklogStays(blocks: nat, frames: nat, run: seq<Action>, future: seq<Action>)
    requires blocks >= 1 && frames >= 1
    ensures var w := Reached(blocks, frames, run); Owed(Exec(w, future)) >= ENCODED_LEN * w.eager
  {
    ReachedIsSound(blocks, frames, run);
    BacklogGrows(Reached(blocks, frames, run), future);
  }

  lemma ExecSnoc(w: World, run: seq<Action>, a: Action)
    ensures Exec(w, run + [a]) == Apply(Exec(w, run), a)
    ensures Roomy(w, run + [a]) <==> Roomy(w, run) && (a.Push? ==> Room(Exec(w, run)))
  {
    assert (run + [a])[..|run|] == run;
  }

  /** The state after a block has been pushed and encoded while nothing was outstanding. */
  function Encoded(w: World, frame: seq<Byte>): World
    requires w.dwp + ENCODED_LEN <= |w.dst|
  {
    var s := C.Step(w.d.swp, PACKET_LEN, w.d.srcLen);
    w.(d := w.d.(swp := s, srp := s, coding := true),
       dst := w.dst[..w.dwp] + frame + w.dst[w.dwp + ENCODED_LEN..],
       dwp := C.Step(w.dwp, ENCODED_LEN, w.d.dstLen),
       pushes := w.pushes + 1, eager := w.eager + (if w.d.coding then 1 else 0),
       frames := w.frames + 1, encoded := w.encoded + frame)
  }

  lemma PushAndEncode(v: World, frame: seq<Byte>)
    requires v.d.swp == v.d.srp < v.d.srcLen && PACKET_LEN < v.d.srcLen
    requires v.dwp + ENCODED_LEN <= |v.dst| && |frame| == ENCODED_LEN
    ensures Apply(Apply(v, Push), Encode(frame)) == Encoded(v, frame)
  {
  }

  lemma PushThenEncode(w: World, run: seq<Action>, frame: seq<Byte>)
    requires var v := Exec(w, run);
             && v.d.swp == v.d.srp < v.d.srcLen && PACKET_LEN < v.d.srcLen
             && v.dwp + ENCODED_LEN <= |v.dst| && |frame| == ENCODED_LEN
    ensures Exec(w, run + [Push, Encode(frame)]) == Encoded(Exec(w, run), frame)
    ensures Roomy(w, run + [Push, Encode(frame)]) <==> Roomy(w, run) && Room(Exec(w, run))
  {
    hide Exec, Roomy, Room, Apply;
    ExecSnoc(w, run, Push);
    ExecSnoc(w, run + [Push], Encode(frame));
    assert run + [Push, Encode(frame)] == run + [Push] + [Encode(frame)];
    PushAndEncode(Exec(w, run), frame);
  }

  /** Two blocks pushed and encoded before the first frame is taken: the second frame stays. */
  lemma SecondFrameStays(f: seq<Byte>, g: seq<Byte>)
    requires |f| == |g| == ENCODED_LEN
    ensures var run := [Push, Encode(f), Push, Encode(g), TakeFrame];
            var w := Exec(Start(2, 2), run);
            Roomy(Start(2, 2), run) && w.encoded == f + g && w.delivered == f && !w.d.coding
  {
    hide Exec, Roomy, Apply;
    var w, run := Start(2, 2), [Push, Encode(f)];
    ExecNothing(w);
    PushThenEncode(w, [], f);
    assert [] + run == run;
    PushThenEncode(w, run, g);
    assert run + [Push, Encode(g)] == [Push, Encode(f), Push, Encode(g)];
    ExecSnoc(w, run + [Push, Encode(g)], TakeFrame);
    assert run + [Push, Encode(g)] + [TakeFrame] == [Push, Encode(f), Push, Encode(g), TakeFrame];
    TakesFirst(Encoded(Encoded(w, f), g), f, g);
  }

  lemma ExecNothing(w: World)
    ensures Exec(w, []) == w && Roomy(w, [])
  {
  }

  lemma TakesFirst(w: World, f: seq<Byte>, g: seq<Byte>)
    requires |f| == |g| == 57 && w.dst == f + g && w.d.Available() && w.d.rd == 0 && w.d.phase == 0
    ensures Apply(w, TakeFrame) == w.(d := w.d.FrameTaken(), delivered := w.delivered + f)
  {
    assert (f + g)[0..57] == f;
  }

  /** Blocks are pushed only when none is outstanding. */
  predicate Patient(w: World, run: seq<Action>) {
    || run == []
    || (&& Patient(w, run[..|run| - 1])
        && (run[|run| - 1].Push? ==> !Exec(w, run[..|run| - 1]).d.coding))
  }

  lemma {:induction false} PatientIsRoomy(w: World, run: seq<Action>)
    requires Good(w) && w.d.srcLen >= 2 * PACKET_LEN && w.eager == 0 && Patient(w, run)
    ensures Roomy(w, run) && Good(Exec(w, run)) && Exec(w, run).eager == 0
    ensures Exec(w, run).d.srcLen == w.d.srcLen
  {
    if run != [] {
      PatientIsRoomy(w, run[..|run| - 1]);
      var v := Exec(w, run[..|run| - 1]);
      assert !v.d.coding ==> Outstanding(v) == 0 && Owed(v) == 0;
      ApplyKeepsGood(v, run[|run| - 1]);
      hide Good;
    }
  }

  /** A driver that pushes only when no block is outstanding always finds room, and whenever nothing
      is left to take everything encoded has been delivered: the k-th delivered frame is the k-th
      encoded one. */
  lemma PatientDriver(blocks: nat, frames: nat, run: seq<Action>)
    requires blocks >= 2 && frames >= 1 && Patient(Start(blocks, frames), run)
    ensures Roomy(Start(blocks, frames), run)
    ensures var w := Reached(blocks, frames, run);
            !w.d.coding ==> Room(w) && w.frames == w.pushes && w.delivered == w.encoded
  {
    StartIsGood(blocks, frames);
    PatientIsRoomy(Start(blocks, frames), run);
    if !Reached(blocks, frames, run).d.coding {
      AllDeliveredIff(blocks, frames, run);
    }
  }

  // -------- pieces and frames --------

  /** Three pieces leave the driver in the state that one whole frame leaves it in. */
  lemma ThreePiecesMoveLikeOneFrame(d: Driver)
    requires d.Available() && d.phase == 0 && d.rd + ENCODED_LEN <= d.dstLen
    ensures d.PieceTaken().PieceTaken().PieceTaken() == d.FrameTaken()
    ensures d.PieceTaken() == d.(rd := d.rd + 20, phase := 20)
    ensures d.PieceTaken().PieceTaken() == d.(rd := d.rd + 40, phase := 40)
  {
  }

  /** Three pieces are one frame: the same 57 bytes, and the same state of everything. */
  lemma ThreePiecesAreOneFrame(w: World)
    requires Sound(w) && w.d.Available() && w.d.phase == 0
    ensures Apply(Apply(Apply(w, TakePiece), TakePiece), TakePiece) == Apply(w, TakeFrame)
    ensures |Apply(w, TakeFrame).delivered| == |w.delivered| + ENCODED_LEN
  {
    InsideTheRing(w);
    hide Sound;
    PiecesAddUp(w);
  }

  lemma InThree(s: seq<Byte>, r: nat)
    requires r + 57 <= |s|
    ensures s[r..r + 20] + s[r + 20..r + 40] + s[r + 40..r + 57] == s[r..r + 57]
  {
  }

  lemma PiecesAddUp(w: World)
    requires w.d.Available() && w.d.phase == 0 && w.d.rd + ENCODED_LEN <= |w.dst| == w.d.dstLen
    ensures Apply(Apply(Apply(w, TakePiece), TakePiece), TakePiece) == Apply(w, TakeFrame)
    ensures |Apply(w, TakeFrame).delivered| == |w.delivered| + ENCODED_LEN
  {
    var d, r := w.d, w.d.rd;
    ThreePiecesMoveLikeOneFrame(d);
    var w1 := w.(d := d.PieceTaken(), delivered := w.delivered + w.dst[r..r + 20]);
    assert Apply(w, TakePiece) == w1;
    var w2 := w1.(d := w1.d.PieceTaken(), delivered := w1.delivered + w.dst[r + 20..r + 40]);
    assert Apply(w1, TakePiece) == w2;
    var w3 := w2.(d := w2.d.PieceTaken(), delivered := w2.delivered + w.dst[r + 40..r + 57]);
    assert Apply(w2, TakePiece) == w3;
    InThree(w.dst, r);
    assert w3.delivered == w.delivered + (w.dst[r..r + 20] + w.dst[r + 20..r + 40] + w.dst[r + 40..r + 57]);
  }

  /** The driver enabled when one piece of an older frame had been taken. */
  function Resumed(): World {
    Start(2, 2).(d := Start(2, 2).d.(phase := 20).Enabled())
  }

  /** After that it delivers 37 bytes of the first frame, and a whole-frame call then gives the other
      20 and 37 of the second. */
  lemma EnabledMidFrame(f: seq<Byte>, g: seq<Byte>)
    requires |f| == |g| == ENCODED_LEN
    ensures var w1 := Exec(Resumed(), [Push, Encode(f), TakePiece, TakePiece]);
            var w2 := Apply(Apply(Apply(w1, Push), Encode(g)), TakeFrame);
            && w1.delivered == f[..37] && !w1.d.coding && w1.d.phase == 0
            && w2.delivered == f[..37] + (f[37..] + g[..37])
  {
    FirstTwoPieces(f);
    hide Exec, Apply;
    var w1 := Exec(Resumed(), [Push, Encode(f), TakePiece, TakePiece]);
    PushAndEncode(w1, g);
    LastFrame(Encoded(w1, g), f, g);
  }

  lemma FirstTwoPieces(f: seq<Byte>)
    requires |f| == ENCODED_LEN
    ensures var w := Encoded(Resumed(), f);
            Exec(Resumed(), [Push, Encode(f), TakePiece, TakePiece])
            == w.(d := w.d.(rd := 37, phase := 0, coding := false), delivered := f[..37])
  {
    hide Exec, Apply, Roomy, Room;
    var w, run := Resumed(), [Push, Encode(f)];
    ExecNothing(w);
    PushThenEncode(w, [], f);
    assert [] + run == run;
    ExecSnoc(w, run, TakePiece);
    ExecSnoc(w, run + [TakePiece], TakePiece);
    assert run + [TakePiece] + [TakePiece] == [Push, Encode(f), TakePiece, TakePiece];
    FirstPieces(Encoded(w, f), f);
  }

  /** Two pieces from phase 20 at the start of the ring. */
  lemma FirstPieces(w: World, f: seq<Byte>)
    requires |w.dst| == w.d.dstLen == 114 && w.dst[..57] == f && w.d.Available() && w.d.rd == 0 && w.d.phase == 20
    requires w.delivered == []
    ensures var w' := w.(d := w.d.(rd := 37, phase := 0, coding := false), delivered := f[..37]);
            Apply(Apply(w, TakePiece), TakePiece) == w'
  {
    assert Apply(w, TakePiece) == w.(d := w.d.(rd := 20, phase := 40), delivered := f[..20]);
  }

  lemma LastFrame(w: World, f: seq<Byte>, g: seq<Byte>)
    requires |f| == |g| == 57 && w.d.dstLen == 114 && w.dst == f + g
    requires w.d.Available() && w.d.rd == 37 && w.d.phase == 0
    ensures Apply(w, TakeFrame).delivered == w.delivered + (f[37..] + g[..37])
  {
    assert (f + g)[37..94] == f[37..] + g[..37];
  }
}
