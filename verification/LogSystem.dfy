/** The whole log pipeline as one concurrent system: two cores that take turns at single memory
    accesses, and the UART hardware.

    Each core runs its log calls; the lock, the ring and the transmit buffer are the shared
    memory.  A schedule is any sequence of calls, accesses and hardware steps; a step that is
    not possible when it is scheduled changes nothing. */
module LogSystem {
  import opened Words
  import opened LogFifo
  import opened LogRing
  import opened Frames
  import opened LogDriver
  import P = Peterson
  import U = UartRing

  /** What a core does next: every value but `Idle` names one access. */
  datatype Activity =
    | Idle
    | Enter(op: Op)                                // in print_log_get_lock
    | PushLoad(word: Word)                         // read the write index
    | PushStore(word: Word, w: nat)                // store the record
    | PushCheck(word: Word, w: nat)                // read the read index
    | PushPublish(word: Word, w: nat)              // write the write index
    | DrainLoadWrite                               // read the write index
    | DrainLoadRead(w: nat)                        // read the read index
    | DrainCopy(w: nat, r: nat, out: seq<Byte>, part: seq<Byte>) // read the next byte of a record
    | DrainAdvance(w: nat, r: nat, out: seq<Byte>) // write the read index
    | ProbeLoadWrite                               // read the write index
    | ProbeLoadRead(w: nat)                        // read the read index
    | Leave(op: Op, out: seq<Byte>)                // print_log_free_lock
    | Send(rest: seq<Byte>)                        // in uart_txBuffer

  predicate InSection(t: Activity) {
    !t.Idle? && !t.Enter? && !t.Send?
  }

  /** The first access after get_lock. */
  function First(op: Op): Activity {
    match op
    case Push(w) => PushLoad(w)
    case Drain => DrainLoadWrite
    case Probe => ProbeLoadWrite
  }

  /** The test of the drain loop; `out` holds the records copied so far. */
  function Continue(w: nat, r: nat, out: seq<Byte>): Activity {
    if w != r && |out| + 4 < PAYLOAD_ALLOW_LENGTH then DrainCopy(w, r, out, []) else Leave(Drain, out)
  }

  /** One access inside the critical section. */
  function Access(t: Activity, m: Ring): (Activity, Ring)
    requires m.Valid()
  {
    match t
    case PushLoad(word) => (PushStore(word, m.wr), m)
    case PushStore(word, w) =>
      if w < LOG_BUFFER_SIZE then (PushCheck(word, Next(w)), m.(slots := m.slots[w := word])) else (t, m)
    case PushCheck(word, w) => (PushPublish(word, if w == m.rd then Previous(w) else w), m)
    case PushPublish(word, w) => (Leave(Push(word), []), m.(wr := w))
    case DrainLoadWrite => (DrainLoadRead(m.wr), m)
    case DrainLoadRead(w) => (Continue(w, m.rd, []), m)
    case DrainCopy(w, r, out, part) =>
      if r < LOG_BUFFER_SIZE && |part| < 4 then
        var part' := part + [ByteOf(m.slots[r], |part|)];
        (if |part'| == 4 then DrainAdvance(w, r, out + part') else DrainCopy(w, r, out, part'), m)
      else (t, m)
    case DrainAdvance(w, r, out) => (Continue(w, Next(r), out), m.(rd := Next(r)))
    case ProbeLoadWrite => (ProbeLoadRead(m.wr), m)
    case ProbeLoadRead(w) => (Leave(Probe, []), m)
    case _ => (t, m)
  }

  /** An operation together with the core that performed it. */
  datatype Event = Event(core: P.Core, op: Op)

  function Ops(history: seq<Event>): seq<Op> {
    if history == [] then [] else Ops(history[..|history| - 1]) + [history[|history| - 1].op]
  }

  function OpsBy(history: seq<Event>, c: P.Core): seq<Op> {
    if history == [] then []
    else
      var before := OpsBy(history[..|history| - 1], c);
      var last := history[|history| - 1];
      if last.core == c then before + [last.op] else before
  }

  /** The first five fields are the program's state, the others record what has happened.
      `history` has the operations in the order in which the lock was acquired for them, `before`
      and `now` the atomic queue before and after the last of them; `frames` are the frames given
      to the UART, `verdicts` the answers of the emptiness probes, `asked...` the operations each
      core has been asked for. */
  datatype Sys = Sys(lock: P.Lock, ring: Ring, cm0: Activity, respin: Activity, uart: U.Uart,
                     history: seq<Event>, before: Fifo, now: Fifo,
                     frames: seq<Frame>, verdicts: seq<bool>,
                     askedCm0: seq<Op>, askedRespin: seq<Op>) {
    function ActivityOf(c: P.Core): Activity {
      match c
      case Cm0 => cm0
      case Respin => respin
    }

    function WithActivity(c: P.Core, t: Activity): Sys {
      match c
      case Cm0 => this.(cm0 := t)
      case Respin => this.(respin := t)
    }

    /** A call on an idle core: its first operation, and all it asks for. */
    function Call(c: P.Core, op: Op, asks: seq<Op>): Sys {
      if !ActivityOf(c).Idle? then this
      else
        match c
        case Cm0 => this.(cm0 := Enter(op), askedCm0 := askedCm0 + asks)
        case Respin => this.(respin := Enter(op), askedRespin := askedRespin + asks)
    }

    /** uart_txBuffer is called for a new frame. */
    function WithFrame(f: Frame): Sys
      requires Fits(f)
    {
      this.(frames := frames + [f], cm0 := Send(Encode(f)))
    }

    function Asked(c: P.Core): seq<Op> {
      match c
      case Cm0 => askedCm0
      case Respin => askedRespin
    }
  }

  function Start(victim: int): Sys {
    Sys(P.Initial(victim), EmptyRing(), Idle, Idle, U.Initial(), [], EMPTY, EMPTY, [], [], [], [])
  }

  datatype Action =
    | CallPrintLog(flag: Half, value: Half)
    | CallPrintLogToUart
    | CallBufferIsEmpty
    | CallPrintRoundBuffer(index: Byte, start: Word, end: Word, write: Word, read: Word)
    | CallRespinLog(flag: Half, value: Half)
    | Cm0Access
    | RespinAccess
    | UartHardware

  /** An access of get_lock; the access that gets the lock records the operation. */
  function EnterStep(s: Sys, c: P.Core, op: Op): Sys {
    var l := s.lock.Step(c);
    if l.PcOf(c) == P.Inside
    then
      s.(lock := l, history := s.history + [Event(c, op)], before := s.now, now := s.now.Apply(op))
       .WithActivity(c, First(op))
    else s.(lock := l)
  }

  /** An access inside the critical section; a probe compares the two indices it has read. */
  function SectionStep(s: Sys, c: P.Core): Sys
    requires s.ring.Valid()
  {
    var t := s.ActivityOf(c);
    var next := Access(t, s.ring);
    var verdicts := if t.ProbeLoadRead? then s.verdicts + [t.w == s.ring.rd] else s.verdicts;
    s.(ring := next.1, verdicts := verdicts).WithActivity(c, next.0)
  }

  /** free_lock, and what the core does after it: on the Cortex-M0 `print_log` goes on to drain,
      and a drain that copied something sends it. */
  function LeaveStep(s: Sys, c: P.Core, op: Op, out: seq<Byte>): Sys {
    var s1 := s.(lock := s.lock.Step(c));
    if c.Cm0? && op.Push? then s1.WithActivity(c, Enter(Drain))
    else if c.Cm0? && op.Drain? && 0 < |out| <= PAYLOAD_ALLOW_LENGTH then s1.WithFrame(Frame(TYPE_LOG, out))
    else s1.WithActivity(c, Idle)
  }

  /** An access of uart_txChar, or the call of it for the next byte. */
  function SendStep(s: Sys, c: P.Core, rest: seq<Byte>): Sys
    requires s.uart.InBounds()
  {
    if !s.uart.producer.Ready? then s.(uart := s.uart.Produce())
    else if rest == [] then s.WithActivity(c, Idle)
    else s.(uart := s.uart.Offer(rest[0])).WithActivity(c, Send(rest[1..]))
  }

  /** The next access of a core. */
  function CoreStep(s: Sys, c: P.Core): Sys
    requires s.ring.Valid() && s.uart.InBounds()
  {
    match s.ActivityOf(c)
    case Idle => s
    case Enter(op) => EnterStep(s, c, op)
    case Leave(op, out) => LeaveStep(s, c, op, out)
    case Send(rest) => SendStep(s, c, rest)
    case _ => SectionStep(s, c)
  }

  function Apply(s: Sys, a: Action): Sys
    requires s.ring.Valid() && s.uart.InBounds()
  {
    match a
    case CallPrintLog(flag, value) =>
      var push := Push(Record(flag, value));
      s.Call(P.Cm0, push, [push, Drain])
    case CallPrintLogToUart => s.Call(P.Cm0, Drain, [Drain])
    case CallBufferIsEmpty => s.Call(P.Cm0, Probe, [Probe])
    case CallPrintRoundBuffer(index, start, end, write, read) =>
      if !s.cm0.Idle? then s
      else s.WithFrame(Frame(TYPE_ROUND_BUFFER, DumpPayload(index, start, end, write, read)))
    case CallRespinLog(flag, value) =>
      var push := Push(Record(flag, value));
      s.Call(P.Respin, push, [push])
    case Cm0Access => CoreStep(s, P.Cm0)
    case RespinAccess => CoreStep(s, P.Respin)
    case UartHardware => s.(uart := s.uart.Transmit())
  }

  // -------- the invariant --------

  /** The activity of the core that holds the lock, seen against the atomic queue: `before` is the
      queue when the lock was acquired, and the ring shows how far the operation has got. */
  predicate Holds(t: Activity, m: Ring, before: seq<Word>, op: Op)
    requires m.Valid()
  {
    var batch := Head(before);
    match t
    case PushLoad(word) => op == Push(word) && m.Pending() == before
    case PushStore(word, w) => op == Push(word) && m.Pending() == before && w == m.wr
    case PushCheck(word, w) =>
      op == Push(word) && m.Pending() == before && m.slots[m.wr] == word && w == Next(m.wr)
    case PushPublish(word, w) =>
      op == Push(word) && m.Pending() == before && m.slots[m.wr] == word && w == Published(m.wr, m.rd)
    case DrainLoadWrite => op == Drain && m.Pending() == before
    case DrainLoadRead(w) => op == Drain && m.Pending() == before && w == m.wr
    case DrainCopy(w, r, out, part) =>
      var k := |before| - |m.Pending()|;
      && op == Drain && w == m.wr && r == m.rd
      && 0 <= k < |batch| && m.Pending() == before[k..]
      && out == WordsBytes(before[..k])
      && |part| < 4 && part == WordBytes(before[k])[..|part|]
    case DrainAdvance(w, r, out) =>
      var k := |before| - |m.Pending()|;
      && op == Drain && w == m.wr && r == m.rd
      && 0 <= k < |batch| && m.Pending() == before[k..]
      && out == WordsBytes(before[..k + 1])
    case ProbeLoadWrite => op == Probe && m.Pending() == before
    case ProbeLoadRead(w) => op == Probe && m.Pending() == before && w == m.wr
    case Leave(o, out) =>
      && op == o
      && m.Pending() == Fifo(before, [], [], []).Apply(op).queue
      && out == (if op == Drain then WordsBytes(batch) else [])
    case _ => false
  }

  lemma PushAccess(t: Activity, m: Ring, before: seq<Word>, op: Op)
    requires m.Valid() && Holds(t, m, before, op) && op.Push? && !t.Leave?
    ensures var (t', m') := Access(t, m); m'.Valid() && Holds(t', m', before, op)
  {
    match t
    case PushStore(word, w) => StoreIsInvisible(m, word);
    case PushPublish(word, w) => PublishAccepts(m);
    case _ =>
  }

  /** The loop test after `k` whole records: the loop goes on exactly while the batch does. */
  lemma ContinueHolds(m: Ring, before: seq<Word>, k: nat, out: seq<Byte>)
    requires m.Valid() && k <= |Head(before)| && |before| <= CAPACITY && m.Pending() == before[k..]
    requires out == WordsBytes(before[..k])
    ensures Holds(Continue(m.wr, m.rd, out), m, before, Drain)
  {
    WordsBytesLength(before[..k]);
    EmptyIffIndicesMeet(m);
    if m.wr != m.rd && k < BATCH {
      assert WordBytes(before[k])[..0] == [];
    } else {
      assert k == |Head(before)| && before[..k] == Head(before);
    }
  }

  lemma DrainAccess(t: Activity, m: Ring, before: seq<Word>)
    requires m.Valid() && |before| <= CAPACITY && Holds(t, m, before, Drain) && !t.Leave?
    ensures var (t', m') := Access(t, m); m'.Valid() && Holds(t', m', before, Drain)
  {
    match t
    case DrainLoadRead(w) =>
      assert before[0..] == before;
      ContinueHolds(m, before, 0, []);
    case DrainCopy(w, r, out, part) =>
      DrainCopyAccess(m, before, out, part);
    case DrainAdvance(w, r, out) =>
      var k := |before| - |m.Pending()|;
      EmptyIffIndicesMeet(m);
      AdvanceRemovesOldest(m);
      assert before[k..][1..] == before[k + 1..];
      ContinueHolds(m.(rd := Next(m.rd)), before, k + 1, out);
    case _ =>
  }

  lemma DrainCopyAccess(m: Ring, before: seq<Word>, out: seq<Byte>, part: seq<Byte>)
    requires m.Valid() && |before| <= CAPACITY && Holds(DrainCopy(m.wr, m.rd, out, part), m, before, Drain)
    ensures Holds(Access(DrainCopy(m.wr, m.rd, out, part), m).0, m, before, Drain)
  {
    var k := |before| - |m.Pending()|;
    var record := before[k];
    EmptyIffIndicesMeet(m);
    AdvanceRemovesOldest(m);
    assert m.slots[m.rd] == before[k..][0] == record;
    assert part + [ByteOf(record, |part|)] == WordBytes(record)[..|part| + 1];
    if |part| == 3 {
      assert before[..k + 1] == before[..k] + [record];
      WordsBytesSnoc(before[..k], record);
    }
  }

  /** Every access inside the critical section moves the holder's operation along. */
  lemma AccessHolds(t: Activity, m: Ring, before: seq<Word>, op: Op)
    requires m.Valid() && |before| <= CAPACITY && Holds(t, m, before, op) && !t.Leave?
    ensures var (t', m') := Access(t, m); m'.Valid() && Holds(t', m', before, op)
  {
    match op
    case Push(_) => PushAccess(t, m, before, op);
    case Drain => DrainAccess(t, m, before);
    case Probe => assert Fifo(before, [], [], []).Apply(Probe).queue == before;
  }

  predicate PlaceOk(t: Activity, pc: P.Pc) {
    match t
    case Idle => pc == P.Outside
    case Send(_) => pc == P.Outside
    case Enter(_) => pc != P.Inside
    case _ => pc == P.Inside
  }

  /** The activities of a core that only logs. */
  predicate Logs(t: Activity) {
    match t
    case Idle => true
    case Enter(op) => op.Push?
    case PushLoad(_) => true
    case PushStore(_, _) => true
    case PushCheck(_, _) => true
    case PushPublish(_, _) => true
    case Leave(op, _) => op.Push?
    case _ => false
  }

  /** The lock is sound, each core is where its activity says, and the respin core only logs. */
  predicate LockSound(lock: P.Lock, cm0: Activity, respin: Activity) {
    && P.Good(lock)
    && PlaceOk(cm0, lock.pcCm0) && PlaceOk(respin, lock.pcRespin)
    && Logs(respin)
  }

  predicate LockOk(s: Sys) {
    LockSound(s.lock, s.cm0, s.respin)
  }

  /** The operation being performed in the critical section. */
  function Performing(t: Activity): Op
    requires InSection(t)
  {
    match t
    case PushLoad(word) => Push(word)
    case PushStore(word, _) => Push(word)
    case PushCheck(word, _) => Push(word)
    case PushPublish(word, _) => Push(word)
    case ProbeLoadWrite => Probe
    case ProbeLoadRead(_) => Probe
    case Leave(op, _) => op
    case _ => Drain
  }

  predicate HolderAgrees(t: Activity, m: Ring, before: Fifo, now: Fifo)
    requires m.Valid()
  {
    InSection(t) ==> now == before.Apply(Performing(t)) && Holds(t, m, before.queue, Performing(t))
  }

  /** The ring and the atomic queue agree while the lock is free, and as far as the holder has got
      otherwise. */
  predicate RingAgrees(m: Ring, before: Fifo, now: Fifo, cm0: Activity, respin: Activity) {
    && m.Valid()
    && |before.queue| <= CAPACITY && |now.queue| <= CAPACITY
    && HolderAgrees(cm0, m, before, now) && HolderAgrees(respin, m, before, now)
    && (!InSection(cm0) && !InSection(respin) ==> m.Pending() == now.queue)
  }

  predicate RingOk(s: Sys) {
    RingAgrees(s.ring, s.before, s.now, s.cm0, s.respin)
  }

  predicate Draining(t: Activity) {
    t.DrainLoadWrite? || t.DrainLoadRead? || t.DrainCopy? || t.DrainAdvance? || (t.Leave? && t.op == Drain)
  }

  predicate Probing(t: Activity) {
    t.ProbeLoadWrite? || t.ProbeLoadRead?
  }

  /** Every drained record is in a frame, but for those of a drain whose frame is not made yet. */
  predicate DrainedOk(s: Sys) {
    LogWords(s.frames) + (if Draining(s.cm0) then Head(s.before.queue) else []) == s.now.drained
  }

  predicate VerdictsOk(s: Sys) {
    s.verdicts == if Probing(s.cm0) then s.before.verdicts else s.now.verdicts
  }

  function Rest(t: Activity): seq<Byte> {
    if t.Send? then t.rest else []
  }

  /** The frames are the bytes offered to the UART and those still to be offered. */
  predicate StreamAgrees(uart: U.Uart, frames: seq<Frame>, rest: seq<Byte>) {
    && U.Good(uart)
    && (forall f :: f in frames ==> Fits(f))
    && EncodeAll(frames) == uart.offered + rest
  }

  predicate StreamOk(s: Sys) {
    StreamAgrees(s.uart, s.frames, Rest(s.cm0))
  }

  /** What a core still has to do of what it was asked for. */
  function Outstanding(t: Activity, c: P.Core): seq<Op> {
    match t
    case Enter(op) => if c.Cm0? && op.Push? then [op, Drain] else [op]
    case PushLoad(_) => if c.Cm0? then [Drain] else []
    case PushStore(_, _) => if c.Cm0? then [Drain] else []
    case PushCheck(_, _) => if c.Cm0? then [Drain] else []
    case PushPublish(_, _) => if c.Cm0? then [Drain] else []
    case Leave(op, _) => if c.Cm0? && op.Push? then [Drain] else []
    case _ => []
  }

  /** Each core has performed, in order, all it was asked for but what is still outstanding. */
  predicate OrderOk(s: Sys, c: P.Core) {
    OpsBy(s.history, c) + Outstanding(s.ActivityOf(c), c) == s.Asked(c)
  }

  predicate Good(s: Sys) {
    && LockOk(s) && RingOk(s) && DrainedOk(s) && VerdictsOk(s) && StreamOk(s)
    && OrderOk(s, P.Cm0) && OrderOk(s, P.Respin)
    && s.now == Run(Ops(s.history))
  }

  /** Only one core is inside: the other core's step cannot disturb the holder. */
  lemma Exclusive(s: Sys)
    requires LockOk(s)
    ensures !(InSection(s.cm0) && InSection(s.respin))
  {
    assert P.GoodFor(s.lock, P.Cm0) && P.GoodFor(s.lock, P.Respin);
    assert P.Other(P.Cm0) == P.Respin && P.Other(P.Respin) == P.Cm0;
  }

  // -------- what the steps keep, kind by kind and part by part --------

  lemma EnterKeepsLock(s: Sys, c: P.Core, op: Op)
    requires LockOk(s) && s.ActivityOf(c) == Enter(op)
    ensures LockOk(EnterStep(s, c, op))
  {
    P.StepKeepsGood(s.lock, c);
  }

  lemma EnterKeepsRing(s: Sys, c: P.Core, op: Op)
    requires LockOk(s) && RingOk(s) && s.ActivityOf(c) == Enter(op)
    ensures RingOk(EnterStep(s, c, op))
  {
    EnterKeepsLock(s, c, op);
    Exclusive(EnterStep(s, c, op));
  }

  lemma EnterKeepsResults(s: Sys, c: P.Core, op: Op)
    requires LockOk(s) && s.ActivityOf(c) == Enter(op)
    requires DrainedOk(s) && VerdictsOk(s)
    ensures DrainedOk(EnterStep(s, c, op)) && VerdictsOk(EnterStep(s, c, op))
  {
    EnterKeepsLock(s, c, op);
    Exclusive(EnterStep(s, c, op));
  }

  lemma OpsSnoc(history: seq<Event>, e: Event, d: P.Core)
    ensures Ops(history + [e]) == Ops(history) + [e.op]
    ensures OpsBy(history + [e], d) == if e.core == d then OpsBy(history, d) + [e.op] else OpsBy(history, d)
  {
    assert (history + [e])[..|history|] == history;
  }

  lemma EnterKeepsHistory(s: Sys, c: P.Core, op: Op)
    requires s.ActivityOf(c) == Enter(op) && (c.Respin? ==> op.Push?)
    requires OrderOk(s, P.Cm0) && OrderOk(s, P.Respin) && s.now == Run(Ops(s.history))
    ensures var s' := EnterStep(s, c, op);
            OrderOk(s', P.Cm0) && OrderOk(s', P.Respin) && s'.now == Run(Ops(s'.history))
  {
    hide Run, Ops, OpsBy;
    OpsSnoc(s.history, Event(c, op), P.Cm0);
    OpsSnoc(s.history, Event(c, op), P.Respin);
    RunSnoc(Ops(s.history), op);
  }

  lemma EnterKeepsGood(s: Sys, c: P.Core, op: Op)
    requires Good(s) && s.ActivityOf(c) == Enter(op)
    ensures Good(EnterStep(s, c, op))
  {
    hide RingAgrees, DrainedOk, VerdictsOk, OrderOk, Run, Ops, StreamAgrees, P.Good;
    EnterKeepsLock(s, c, op);
    EnterKeepsRing(s, c, op);
    EnterKeepsResults(s, c, op);
    EnterKeepsHistory(s, c, op);
  }

  /** An access stays with its operation. */
  lemma AccessKeepsKind(t: Activity, m: Ring, c: P.Core)
    requires m.Valid() && InSection(t) && !t.Leave?
    ensures var t' := Access(t, m).0;
            && InSection(t') && Performing(t') == Performing(t)
            && Outstanding(t', c) == Outstanding(t, c)
            && Draining(t') == Draining(t)
            && (Logs(t) ==> Logs(t'))
  {
  }

  lemma SectionKeepsLock(s: Sys, c: P.Core)
    requires LockOk(s) && s.ring.Valid() && InSection(s.ActivityOf(c)) && !s.ActivityOf(c).Leave?
    ensures LockOk(SectionStep(s, c))
  {
    AccessKeepsKind(s.ActivityOf(c), s.ring, c);
  }

  lemma SectionKeepsRing(s: Sys, c: P.Core)
    requires LockOk(s) && RingOk(s) && InSection(s.ActivityOf(c)) && !s.ActivityOf(c).Leave?
    ensures RingOk(SectionStep(s, c))
  {
    Exclusive(s);
    AccessKeepsKind(s.ActivityOf(c), s.ring, c);
    AccessHolds(s.ActivityOf(c), s.ring, s.before.queue, Performing(s.ActivityOf(c)));
  }

  /** A probe answers what the atomic queue answers. */
  lemma SectionKeepsResults(s: Sys, c: P.Core)
    requires LockOk(s) && RingOk(s) && InSection(s.ActivityOf(c)) && !s.ActivityOf(c).Leave?
    requires DrainedOk(s) && VerdictsOk(s)
    ensures DrainedOk(SectionStep(s, c)) && VerdictsOk(SectionStep(s, c))
  {
    AccessKeepsKind(s.ActivityOf(c), s.ring, c);
    EmptyIffIndicesMeet(s.ring);
  }

  lemma SectionKeepsStream(s: Sys, c: P.Core)
    requires s.ring.Valid() && InSection(s.ActivityOf(c)) && !s.ActivityOf(c).Leave? && StreamOk(s)
    ensures StreamOk(SectionStep(s, c))
  {
    hide U.Good;
    AccessKeepsKind(s.ActivityOf(c), s.ring, c);
  }

  lemma SectionKeepsGood(s: Sys, c: P.Core)
    requires Good(s) && InSection(s.ActivityOf(c)) && !s.ActivityOf(c).Leave?
    ensures Good(SectionStep(s, c))
  {
    GoodIsInBounds(s);
    hide LockSound, RingAgrees, StreamAgrees, Run, Ops, OpsBy, Access;
    SectionKeepsLock(s, c);
    SectionKeepsRing(s, c);
    SectionKeepsResults(s, c);
    AccessKeepsKind(s.ActivityOf(c), s.ring, c);
    SectionKeepsStream(s, c);
  }

  lemma LeaveKeepsLock(s: Sys, c: P.Core, op: Op, out: seq<Byte>)
    requires LockOk(s) && s.ActivityOf(c) == Leave(op, out)
    ensures LockOk(LeaveStep(s, c, op, out))
  {
    P.StepKeepsGood(s.lock, c);
  }

  lemma LeaveKeepsRing(s: Sys, c: P.Core, op: Op, out: seq<Byte>)
    requires LockOk(s) && RingOk(s) && s.ActivityOf(c) == Leave(op, out)
    ensures RingOk(LeaveStep(s, c, op, out))
  {
    Exclusive(s);
  }

  /** A frame goes to the UART: it extends the stream, and the records when it is a log frame. */
  lemma FrameKeepsStream(s: Sys, l: P.Lock, f: Frame)
    requires StreamOk(s) && Rest(s.cm0) == [] && Fits(f)
    ensures StreamOk(s.(lock := l).WithFrame(f))
  {
    hide U.Good, Encode;
    EncodeAllSnoc(s.frames, f);
    var s' := s.(lock := l).WithFrame(f);
    assert s'.frames == s.frames + [f] && Rest(s'.cm0) == Encode(f) && s'.uart == s.uart;
    assert EncodeAll(s.frames) == s.uart.offered;
  }

  lemma LogWordsSnoc(fs: seq<Frame>, f: Frame)
    ensures LogWords(fs + [f]) == LogWords(fs) + (if f.kind == TYPE_LOG then BytesWords(f.payload) else [])
  {
    assert (fs + [f])[..|fs|] == fs;
  }

  /** The records a drain removed from the queue are those in the frame it sends. */
  lemma BatchFits(s: Sys, out: seq<Byte>)
    requires RingOk(s) && s.cm0 == Leave(Drain, out)
    ensures |out| == 4 * |Head(s.before.queue)| <= PAYLOAD_ALLOW_LENGTH && BytesWords(out) == Head(s.before.queue)
  {
    hide WordsBytes, BytesWords, Ring.Pending, Ring.Valid, Fifo.Apply;
    WordsBytesLength(Head(s.before.queue));
    WordsRoundTrip(Head(s.before.queue));
  }

  lemma LeaveToSendKeepsResults(s: Sys, out: seq<Byte>)
    requires RingOk(s) && s.cm0 == Leave(Drain, out) && out != []
    requires DrainedOk(s) && VerdictsOk(s)
    ensures var s' := LeaveStep(s, P.Cm0, Drain, out); DrainedOk(s') && VerdictsOk(s')
  {
    hide RingOk, Encode, BytesWords, LogWords, Head;
    BatchFits(s, out);
    LogWordsSnoc(s.frames, Frame(TYPE_LOG, out));
  }

  lemma OnlyCm0Drains(s: Sys, c: P.Core, out: seq<Byte>)
    requires LockOk(s) && s.ActivityOf(c) == Leave(Drain, out)
    ensures c == P.Cm0
  {
  }

  /** A drain that copied something goes on to send it. */
  lemma LeaveToSendKeepsGood(s: Sys, c: P.Core, out: seq<Byte>)
    requires Good(s) && s.ActivityOf(c) == Leave(Drain, out) && out != []
    ensures Good(LeaveStep(s, c, Drain, out))
  {
    hide LockSound, RingAgrees, StreamAgrees, DrainedOk, VerdictsOk, Run, Ops, OpsBy, Encode;
    OnlyCm0Drains(s, c, out);
    LeaveKeepsLock(s, P.Cm0, Drain, out);
    LeaveKeepsRing(s, P.Cm0, Drain, out);
    LeaveToSendKeepsResults(s, out);
    BatchFits(s, out);
    FrameKeepsStream(s, s.lock.Step(P.Cm0), Frame(TYPE_LOG, out));
  }

  lemma LeaveElseKeepsGood(s: Sys, c: P.Core, op: Op, out: seq<Byte>)
    requires Good(s) && s.ActivityOf(c) == Leave(op, out) && (op.Drain? ==> out == [])
    ensures Good(LeaveStep(s, c, op, out))
  {
    hide LockSound, RingAgrees, StreamAgrees, Run, Ops, OpsBy;
    LeaveKeepsLock(s, c, op, out);
    LeaveKeepsRing(s, c, op, out);
    if c.Cm0? && op == Drain {
      BatchFits(s, out);
    }
  }

  lemma LeaveKeepsGood(s: Sys, c: P.Core, op: Op, out: seq<Byte>)
    requires Good(s) && s.ActivityOf(c) == Leave(op, out)
    ensures Good(LeaveStep(s, c, op, out))
  {
    hide Good;
    if op == Drain && out != [] {
      LeaveToSendKeepsGood(s, c, out);
    } else {
      LeaveElseKeepsGood(s, c, op, out);
    }
  }

  lemma SendKeepsStream(s: Sys, rest: seq<Byte>)
    requires StreamOk(s) && s.cm0 == Send(rest)
    ensures StreamOk(SendStep(s, P.Cm0, rest))
  {
    U.ProduceKeepsGood(s.uart);
    if s.uart.producer.Ready? && rest != [] {
      U.OfferKeepsGood(s.uart, rest[0]);
      assert rest == [rest[0]] + rest[1..];
      assert s.uart.Offer(rest[0]).offered + rest[1..] == s.uart.offered + rest;
    }
  }

  lemma SendKeepsGood(s: Sys, c: P.Core, rest: seq<Byte>)
    requires Good(s) && s.ActivityOf(c) == Send(rest)
    ensures Good(SendStep(s, c, rest))
  {
    hide StreamAgrees, P.Good, Holds, Run, Ops, OpsBy;
    SendKeepsStream(s, rest);
  }

  lemma GoodIsInBounds(s: Sys)
    requires Good(s)
    ensures s.ring.Valid() && s.uart.InBounds()
  {
  }

  lemma CoreStepKeepsGood(s: Sys, c: P.Core)
    requires Good(s)
    ensures Good(CoreStep(s, c))
  {
    hide Good, EnterStep, LeaveStep, SendStep, SectionStep, Access;
    GoodIsInBounds(s);
    match s.ActivityOf(c)
    case Idle =>
    case Enter(op) => EnterKeepsGood(s, c, op);
    case Leave(op, out) => LeaveKeepsGood(s, c, op, out);
    case Send(rest) => SendKeepsGood(s, c, rest);
    case _ => SectionKeepsGood(s, c);
  }

  lemma CallKeepsGood(s: Sys, c: P.Core, op: Op)
    requires Good(s) && (c.Respin? ==> op.Push?)
    ensures Good(s.Call(c, op, Outstanding(Enter(op), c)))
  {
    hide StreamAgrees, P.Good, Holds, Run, Ops, OpsBy, LogWords;
  }

  lemma DumpKeepsGood(s: Sys, f: Frame)
    requires Good(s) && s.cm0.Idle? && Fits(f) && f.kind != TYPE_LOG
    ensures Good(s.WithFrame(f))
  {
    hide StreamAgrees, P.Good, Holds, Run, Ops, OpsBy;
    FrameKeepsStream(s, s.lock, f);
    LogWordsSnoc(s.frames, f);
  }

  lemma TransmitKeepsStream(s: Sys)
    requires StreamOk(s)
    ensures StreamOk(s.(uart := s.uart.Transmit()))
  {
    U.TransmitKeepsGood(s.uart);
  }

  lemma TransmitKeepsGood(s: Sys)
    requires Good(s)
    ensures Good(s.(uart := s.uart.Transmit()))
  {
    hide LockSound, RingAgrees, StreamAgrees, Run, Ops, OpsBy, U.Uart.Transmit;
    TransmitKeepsStream(s);
  }

  lemma ApplyKeepsGood(s: Sys, a: Action)
    requires Good(s)
    ensures Good(Apply(s, a))
  {
    hide Good, CoreStep, U.Uart.Transmit, Sys.WithFrame, Record, DumpPayload;
    GoodIsInBounds(s);
    match a
    case Cm0Access => CoreStepKeepsGood(s, P.Cm0);
    case RespinAccess => CoreStepKeepsGood(s, P.Respin);
    case UartHardware => TransmitKeepsGood(s);
    case CallPrintRoundBuffer(index, start, end, write, read) =>
      if s.cm0.Idle? {
        DumpKeepsGood(s, Frame(TYPE_ROUND_BUFFER, DumpPayload(index, start, end, write, read)));
      }
    case CallPrintLog(flag, value) => CallKeepsGood(s, P.Cm0, Push(Record(flag, value)));
    case CallPrintLogToUart => CallKeepsGood(s, P.Cm0, Drain);
    case CallBufferIsEmpty => CallKeepsGood(s, P.Cm0, Probe);
    case CallRespinLog(flag, value) => CallKeepsGood(s, P.Respin, Push(Record(flag, value)));
  }

  // -------- runs --------

  /** The state after a schedule. */
  function Exec(s: Sys, schedule: seq<Action>): (s': Sys)
    requires Good(s)
    ensures Good(s')
    decreases |schedule|
  {
    if schedule == [] then s
    else
      ApplyKeepsGood(s, schedule[0]);
      Exec(Apply(s, schedule[0]), schedule[1..])
  }

  lemma StartIsGood(victim: int)
    ensures Good(Start(victim))
  {
    assert U.Initial().Unsent() == [];
    assert EmptyRing().Pending() == [];
  }

  /** The state that a schedule reaches from initialisation with an arbitrary victim byte. */
  function Reached(victim: int, schedule: seq<Action>): (s: Sys)
    ensures Good(s)
  {
    StartIsGood(victim);
    Exec(Start(victim), schedule)
  }
}
