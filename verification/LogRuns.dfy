/** What every run of the log pipeline gives: the operations each core performs are those it was
    called for, the shared ring is an atomic queue, and the wire carries what was logged. */
module LogRuns {
  import opened Words
  import opened LogFifo
  import opened LogRing
  import opened Frames
  import opened LogDriver
  import opened LogSystem
  import P = Peterson
  import U = UartRing

  // -------- the calls of a run --------

  /** The action is a call on core `c`. */
  predicate IsCallOn(a: Action, c: P.Core) {
    match a
    case CallPrintLog(_, _) => c.Cm0?
    case CallPrintLogToUart => c.Cm0?
    case CallBufferIsEmpty => c.Cm0?
    case CallPrintRoundBuffer(_, _, _, _, _) => c.Cm0?
    case CallRespinLog(_, _) => c.Respin?
    case _ => false
  }

  /** The call on core `c` that the action makes, if it finds the core idle. */
  function Made(s: Sys, a: Action, c: P.Core): seq<Action> {
    if IsCallOn(a, c) && s.ActivityOf(c).Idle? then [a] else []
  }

  /** The calls a run makes on core `c`. */
  function Calls(s: Sys, schedule: seq<Action>, c: P.Core): seq<Action>
    requires Good(s)
  {
    if schedule == [] then []
    else
      var before := schedule[..|schedule| - 1];
      Calls(s, before, c) + Made(Exec(s, before), schedule[|schedule| - 1], c)
  }

  predicate IsPush(op: Op, flag: Half, value: Half) {
    op.Push? && Entry(FlagOf(op.word), ValueOf(op.word)) == Entry(flag, value)
  }

  /** `ops` are the operations that a call asks for. */
  predicate Serves(ops: seq<Op>, call: Action) {
    match call
    case CallPrintLog(flag, value) => |ops| == 2 && IsPush(ops[0], flag, value) && ops[1] == Drain
    case CallRespinLog(flag, value) => |ops| == 1 && IsPush(ops[0], flag, value)
    case CallPrintLogToUart => ops == [Drain]
    case CallBufferIsEmpty => ops == [Probe]
    case _ => ops == []
  }

  /** `ops` are the operations that the calls ask for, one call after the other. */
  ghost predicate ServesAll(ops: seq<Op>, calls: seq<Action>)
    decreases |calls|
  {
    if calls == [] then ops == []
    else
      exists k: nat :: k <= |ops| && ServesAll(ops[..k], calls[..|calls| - 1]) && Serves(ops[k..], calls[|calls| - 1])
  }

  /** The records that the calls log. */
  function Logged(calls: seq<Action>): seq<Entry> {
    if calls == [] then []
    else
      Logged(calls[..|calls| - 1])
      + match calls[|calls| - 1]
        case CallPrintLog(flag, value) => [Entry(flag, value)]
        case CallRespinLog(flag, value) => [Entry(flag, value)]
        case _ => []
  }

  /** The dumps that the calls ask for. */
  function Dumped(calls: seq<Action>): seq<Dump> {
    if calls == [] then []
    else
      Dumped(calls[..|calls| - 1])
      + match calls[|calls| - 1]
        case CallPrintRoundBuffer(index, start, end, write, read) => [Dump(index, start, end, write, read)]
        case _ => []
  }

  lemma {:induction false} ExecSnoc(s: Sys, schedule: seq<Action>, a: Action)
    requires Good(s)
    ensures Exec(s, schedule + [a]) == (GoodIsInBounds(Exec(s, schedule)); Apply(Exec(s, schedule), a))
    decreases |schedule|
  {
    hide Good, Apply;
    GoodIsInBounds(s);
    if schedule == [] {
      assert Exec(Apply(s, a), []) == Apply(s, a) by { ApplyKeepsGood(s, a); }
    } else {
      ApplyKeepsGood(s, schedule[0]);
      assert (schedule + [a])[0] == schedule[0] && (schedule + [a])[1..] == schedule[1..] + [a];
      ExecSnoc(Apply(s, schedule[0]), schedule[1..], a);
    }
  }

  /** An action asks a core for the operations of the call it makes on it, and for nothing else. */
  lemma ActionAsks(s: Sys, a: Action, c: P.Core)
    requires s.ring.Valid() && s.uart.InBounds()
    ensures var before, after, made := s.Asked(c), Apply(s, a).Asked(c), Made(s, a, c);
            && before <= after
            && (if made == [] then after == before else Serves(after[|before|..], made[0]))
  {
    hide CoreStep, U.Uart.Transmit, Ring.Valid, U.Uart.InBounds, DumpPayload, Encode;
    if IsStep(a) {
      StepAsksNothing(s, a, c);
    } else {
      CallAsks(s, a, c);
    }
  }

  predicate IsStep(a: Action) {
    a.Cm0Access? || a.RespinAccess? || a.UartHardware?
  }

  lemma StepAsksNothing(s: Sys, a: Action, c: P.Core)
    requires s.ring.Valid() && s.uart.InBounds() && IsStep(a)
    ensures Apply(s, a).Asked(c) == s.Asked(c)
  {
    hide U.Uart.Transmit, Ring.Valid, U.Uart.InBounds, Encode, Access, P.Lock.Step;
  }

  lemma CallAsks(s: Sys, a: Action, c: P.Core)
    requires s.ring.Valid() && s.uart.InBounds() && !IsStep(a)
    ensures var before, after, made := s.Asked(c), Apply(s, a).Asked(c), Made(s, a, c);
            && before <= after
            && (if made == [] then after == before else Serves(after[|before|..], made[0]))
  {
    hide U.Uart.Transmit, Ring.Valid, U.Uart.InBounds, DumpPayload, Encode, Record, FlagOf, ValueOf;
    match a
    case CallPrintLog(flag, value) => RecordRoundTrip(flag, value, 0);
    case CallRespinLog(flag, value) => RecordRoundTrip(flag, value, 0);
    case _ =>
  }

  /** Over a whole run each core is asked, in order, for exactly the operations of the calls made on
      it: a push of the flag and value of each logging call, with a drain after it on the Cortex-M0. */
  lemma {:induction false} AskedByCalls(victim: int, schedule: seq<Action>, c: P.Core)
    ensures ServesAll(Reached(victim, schedule).Asked(c), Calls(StartGood(victim), schedule, c))
  {
    hide Good, Apply, Serves;
    StartIsGood(victim);
    if schedule != [] {
      var before, a := schedule[..|schedule| - 1], schedule[|schedule| - 1];
      var s := Reached(victim, before);
      AskedByCalls(victim, before, c);
      assert schedule == before + [a];
      ExecSnoc(Start(victim), before, a);
      GoodIsInBounds(s);
      ActionAsks(s, a, c);
      SnocServes(s.Asked(c), Apply(s, a).Asked(c), Calls(Start(victim), before, c), Made(s, a, c));
    }
  }

  /** The start of every run. */
  function StartGood(victim: int): (s: Sys)
    ensures Good(s) && s == Start(victim)
  {
    StartIsGood(victim);
    Start(victim)
  }

  lemma SnocServes(before: seq<Op>, after: seq<Op>, calls: seq<Action>, made: seq<Action>)
    requires ServesAll(before, calls) && before <= after && |made| <= 1
    requires if made == [] then after == before else Serves(after[|before|..], made[0])
    ensures ServesAll(after, calls + made)
  {
    hide Serves;
    if made == [] {
      assert calls + made == calls;
    } else {
      var all := calls + made;
      assert all[..|all| - 1] == calls && all[|all| - 1] == made[0];
      assert after[..|before|] == before;
    }
  }

  // -------- records --------

  lemma {:induction false} PushedAppend(a: seq<Op>, b: seq<Op>)
    ensures Pushed(a + b) == Pushed(a) + Pushed(b)
  {
    if b == [] {
      assert a + b == a;
    } else {
      assert (a + b)[..|a + b| - 1] == a + b[..|b| - 1];
      PushedAppend(a, b[..|b| - 1]);
    }
  }

  lemma {:induction false} EntriesAppend(a: seq<Word>, b: seq<Word>)
    ensures Entries(a + b) == Entries(a) + Entries(b)
  {
    if b == [] {
      assert a + b == a;
    } else {
      assert (a + b)[..|a + b| - 1] == a + b[..|b| - 1];
      EntriesAppend(a, b[..|b| - 1]);
    }
  }

  /** What operations push. */
  function PushedEntries(ops: seq<Op>): seq<Entry> {
    Entries(Pushed(ops))
  }

  lemma PushedEntriesAppend(a: seq<Op>, b: seq<Op>)
    ensures PushedEntries(a + b) == PushedEntries(a) + PushedEntries(b)
  {
    PushedAppend(a, b);
    EntriesAppend(Pushed(a), Pushed(b));
  }

  lemma ServesPushes(ops: seq<Op>, call: Action)
    requires Serves(ops, call)
    ensures PushedEntries(ops) == Logged([call])
  {
    hide FlagOf, ValueOf;
    assert [call][..0] == [];
    if |ops| == 2 {
      assert ops == [ops[0]] + [ops[1]];
      PushedEntriesAppend([ops[0]], [ops[1]]);
    }
    if |ops| >= 1 {
      OnePush(ops[0]);
      assert |ops| == 1 ==> ops == [ops[0]];
    }
    assert PushedEntries([Drain]) == [] && PushedEntries([Probe]) == [];
  }

  lemma OnePush(op: Op)
    ensures PushedEntries([op]) == if op.Push? then [Entry(FlagOf(op.word), ValueOf(op.word))] else []
  {
    assert [op][..0] == [];
    assert Pushed([op]) == if op.Push? then [op.word] else [];
    assert Entries([]) == [];
    if op.Push? {
      assert [op.word][..0] == [] && |[op.word]| == 1;
      assert Entries([op.word]) == Entries([]) + [Entry(FlagOf(op.word), ValueOf(op.word))];
    }
  }

  /** The pushes of the operations asked for are the records logged. */
  lemma {:induction false} ServedPushes(ops: seq<Op>, calls: seq<Action>)
    requires ServesAll(ops, calls)
    ensures PushedEntries(ops) == Logged(calls)
    decreases |calls|
  {
    hide Serves;
    if calls != [] {
      var before, call := calls[..|calls| - 1], calls[|calls| - 1];
      var k: nat :| k <= |ops| && ServesAll(ops[..k], before) && Serves(ops[k..], call);
      ServedPushes(ops[..k], before);
      ServesPushes(ops[k..], call);
      assert ops == ops[..k] + ops[k..];
      PushedEntriesAppend(ops[..k], ops[k..]);
      assert [call][..0] == [];
    }
  }

  /** `all` is an interleaving of `a` and `b`. */
  predicate Merged<T(==)>(all: seq<T>, a: seq<T>, b: seq<T>)
    decreases |all|
  {
    if all == [] then a == [] && b == []
    else
      var n := |all| - 1;
      || (a != [] && a[|a| - 1] == all[n] && Merged(all[..n], a[..|a| - 1], b))
      || (b != [] && b[|b| - 1] == all[n] && Merged(all[..n], a, b[..|b| - 1]))
  }

  lemma MergedSnoc<T>(all: seq<T>, a: seq<T>, b: seq<T>, x: T)
    requires Merged(all, a, b)
    ensures Merged(all + [x], a + [x], b) && Merged(all + [x], a, b + [x])
  {
    assert (all + [x])[..|all|] == all && (a + [x])[..|a|] == a && (b + [x])[..|b|] == b;
  }

  /** The pushes in lock order are an interleaving of those of the two cores. */
  lemma {:induction false} PushesMerge(history: seq<Event>)
    ensures Merged(PushedEntries(Ops(history)),
                   PushedEntries(OpsBy(history, P.Cm0)), PushedEntries(OpsBy(history, P.Respin)))
  {
    if history != [] {
      var before, last := history[..|history| - 1], history[|history| - 1];
      PushesMerge(before);
      hide PushedEntries, Merged;
      OnePush(last.op);
      PushedEntriesAppend(Ops(before), [last.op]);
      PushedEntriesAppend(OpsBy(before, last.core), [last.op]);
      if last.op.Push? {
        MergedSnoc(PushedEntries(Ops(before)), PushedEntries(OpsBy(before, P.Cm0)),
                   PushedEntries(OpsBy(before, P.Respin)), Entry(FlagOf(last.op.word), ValueOf(last.op.word)));
      }
    }
  }

  lemma {:induction false} SubsequenceEntries(a: seq<Word>, b: seq<Word>)
    requires Subsequence(a, b)
    ensures Subsequence(Entries(a), Entries(b))
    decreases |b|
  {
    if a != [] {
      var a0, b0 := a[..|a| - 1], b[..|b| - 1];
      if a[|a| - 1] == b[|b| - 1] && Subsequence(a0, b0) {
        SubsequenceEntries(a0, b0);
      } else {
        SubsequenceEntries(a, b0);
      }
    }
  }

  /** A beginning of what was asked for pushes a beginning of what was logged. */
  lemma PrefixPushes(ops: seq<Op>, asked: seq<Op>, calls: seq<Action>)
    requires ops <= asked && ServesAll(asked, calls)
    ensures PushedEntries(ops) <= Logged(calls)
    ensures ops == asked ==> PushedEntries(ops) == Logged(calls)
  {
    ServedPushes(asked, calls);
    assert asked == ops + asked[|ops|..];
    PushedEntriesAppend(ops, asked[|ops|..]);
  }

  // -------- frames --------

  /** A log frame with 1 to 11 whole records, or a dump. */
  predicate FrameOk(f: Frame) {
    || (f.kind == 0x00 && 4 <= |f.payload| <= 44 && |f.payload| % 4 == 0)
    || (f.kind == 0x01 && |f.payload| == 17)
  }

  function DumpFrames(fs: seq<Frame>): seq<Frame> {
    if fs == [] then []
    else DumpFrames(fs[..|fs| - 1]) + (if fs[|fs| - 1].kind == 0x01 then [fs[|fs| - 1]] else [])
  }

  lemma DumpFramesSnoc(fs: seq<Frame>, f: Frame)
    ensures DumpFrames(fs + [f]) == DumpFrames(fs) + (if f.kind == 0x01 then [f] else [])
  {
    assert (fs + [f])[..|fs|] == fs;
  }

  lemma {:induction false} DumpFramesPrefix(a: seq<Frame>, b: seq<Frame>)
    requires a <= b
    ensures DumpFrames(a) <= DumpFrames(b)
    decreases |b|
  {
    if |a| < |b| {
      DumpFramesPrefix(a, b[..|b| - 1]);
    } else {
      assert a == b;
    }
  }

  /** Each frame reads as the dump asked for. */
  predicate AreDumps(fs: seq<Frame>, asked: seq<Dump>) {
    |fs| == |asked| && forall i :: 0 <= i < |fs| ==> IsDump(fs[i], asked[i])
  }

  /** The frames an action adds: the dump asked for by a call that finds the core idle, and
      otherwise at most a log frame. */
  predicate Adds(added: seq<Frame>, made: seq<Action>) {
    && |added| <= 1
    && (added != [] ==> FrameOk(added[0]))
    && (if made != [] && made[0].CallPrintRoundBuffer? then AreDumps(added, Dumped(made))
        else added != [] ==> added[0].kind == 0x00)
  }

  lemma DumpedOne(a: Action)
    ensures Dumped([a]) == match a
                           case CallPrintRoundBuffer(index, start, end, write, read) =>
                             [Dump(index, start, end, write, read)]
                           case _ => []
  {
    assert [a][..0] == [];
    assert Dumped([]) == [];
  }

  lemma {:induction false} DumpedAppend(calls: seq<Action>, made: seq<Action>)
    requires |made| <= 1
    ensures Dumped(calls + made) == Dumped(calls) + Dumped(made)
  {
    if made == [] {
      assert calls + made == calls;
    } else {
      assert (calls + made)[..|calls|] == calls && (calls + made)[|calls|] == made[0];
      assert made == [made[0]];
      DumpedOne(made[0]);
    }
  }

  lemma ActionAdds(s: Sys, a: Action) returns (added: seq<Frame>)
    requires Good(s) && s.ring.Valid() && s.uart.InBounds()
    ensures Apply(s, a).frames == s.frames + added && Adds(added, Made(s, a, P.Cm0))
  {
    hide Good, CoreStep, U.Uart.Transmit, Ring.Valid, U.Uart.InBounds, DumpPayload, Encode, IsDump;
    match a
    case CallPrintRoundBuffer(index, start, end, write, read) =>
      added := if s.cm0.Idle? then [Frame(TYPE_ROUND_BUFFER, DumpPayload(index, start, end, write, read))] else [];
      DumpRoundTrip(index, start, end, write, read);
      DumpedOne(a);
    case Cm0Access => added := StepAdds(s, P.Cm0);
    case RespinAccess => added := StepAdds(s, P.Respin);
    case _ => added := [];
  }

  lemma StepAdds(s: Sys, c: P.Core) returns (added: seq<Frame>)
    requires Good(s) && s.ring.Valid() && s.uart.InBounds()
    ensures CoreStep(s, c).frames == s.frames + added && |added| <= 1
    ensures added != [] ==> FrameOk(added[0]) && added[0].kind == 0x00
  {
    var t := s.ActivityOf(c);
    if t.Leave? && t.op.Drain? {
      OnlyCm0Leaves(s, c);
      BatchSize(s, t.out);
      added := if t.out != [] then [Frame(TYPE_LOG, t.out)] else [];
    } else {
      added := [];
    }
    hide Good, Ring.Valid, U.Uart.InBounds, Encode, Access, P.Lock.Step, FrameOk;
    StepFrames(s, c);
  }

  lemma OnlyCm0Leaves(s: Sys, c: P.Core)
    requires Good(s) && s.ActivityOf(c).Leave? && s.ActivityOf(c).op.Drain?
    ensures c.Cm0?
  {
    GoodParts(s);
    hide Good;
    OnlyCm0Drains(s, c, s.ActivityOf(c).out);
  }

  /** Only the end of a drain adds a frame. */
  lemma StepFrames(s: Sys, c: P.Core)
    requires s.ring.Valid() && s.uart.InBounds()
    requires var t := s.ActivityOf(c); t.Leave? && t.op.Drain? ==> c.Cm0? && |t.out| <= PAYLOAD_ALLOW_LENGTH
    ensures var t := s.ActivityOf(c);
            CoreStep(s, c).frames
            == s.frames + (if t.Leave? && t.op.Drain? && t.out != [] then [Frame(TYPE_LOG, t.out)] else [])
  {
    hide Ring.Valid, U.Uart.InBounds, Encode, Access, P.Lock.Step;
  }

  lemma BatchSize(s: Sys, out: seq<Byte>)
    requires Good(s) && s.cm0 == Leave(Drain, out)
    ensures |out| <= 44 && |out| % 4 == 0
  {
    hide *;
    GoodParts(s);
    BatchFits(s, out);
  }

  lemma GoodParts(s: Sys)
    requires Good(s)
    ensures RingOk(s) && DrainedOk(s) && StreamOk(s) && LockOk(s) && VerdictsOk(s)
    ensures OrderOk(s, P.Cm0) && OrderOk(s, P.Respin) && s.now == Run(Ops(s.history))
  {
  }

  /** Over a whole run the dumps given to the UART are, in order, those that were asked for, and
      every other frame holds log records. */
  lemma {:induction false} FramesByCalls(victim: int, schedule: seq<Action>)
    ensures var fs := Reached(victim, schedule).frames;
            && (forall f :: f in fs ==> FrameOk(f))
            && AreDumps(DumpFrames(fs), Dumped(Calls(StartGood(victim), schedule, P.Cm0)))
  {
    hide Good, Apply, FrameOk, Adds;
    StartIsGood(victim);
    if schedule != [] {
      var before, a := schedule[..|schedule| - 1], schedule[|schedule| - 1];
      var s := Reached(victim, before);
      FramesByCalls(victim, before);
      assert schedule == before + [a];
      ExecSnoc(Start(victim), before, a);
      GoodIsInBounds(s);
      var added := ActionAdds(s, a);
      DumpsSnoc(s.frames, added, Calls(Start(victim), before, P.Cm0), Made(s, a, P.Cm0));
    }
  }

  lemma {:induction false} DumpsSnoc(fs: seq<Frame>, added: seq<Frame>, calls: seq<Action>, made: seq<Action>)
    requires AreDumps(DumpFrames(fs), Dumped(calls)) && Adds(added, made) && |made| <= 1
    requires forall f :: f in fs ==> FrameOk(f)
    ensures AreDumps(DumpFrames(fs + added), Dumped(calls + made))
    ensures forall f :: f in fs + added ==> FrameOk(f)
  {
    hide FrameOk, AreDumps, Adds, DumpFrames, Dumped;
    AddedDumps(added, made);
    DumpedAppend(calls, made);
    DumpFramesAppend(fs, added);
    DumpsAppend(DumpFrames(fs), Dumped(calls), DumpFrames(added), Dumped(made));
    AddedFrames(fs, added, made);
  }

  lemma AddedFrames(fs: seq<Frame>, added: seq<Frame>, made: seq<Action>)
    requires Adds(added, made) && forall f :: f in fs ==> FrameOk(f)
    ensures |added| <= 1 && forall f :: f in fs + added ==> FrameOk(f)
  {
    hide FrameOk;
  }

  lemma DumpsAppend(a: seq<Frame>, x: seq<Dump>, b: seq<Frame>, y: seq<Dump>)
    requires AreDumps(a, x) && AreDumps(b, y)
    ensures AreDumps(a + b, x + y)
  {
    hide IsDump;
  }

  lemma {:induction false} DumpFramesAppend(fs: seq<Frame>, added: seq<Frame>)
    requires |added| <= 1
    ensures DumpFrames(fs + added) == DumpFrames(fs) + DumpFrames(added)
  {
    if added == [] {
      assert fs + added == fs;
    } else {
      assert added == [] + [added[0]];
      DumpFramesSnoc(fs, added[0]);
      DumpFramesSnoc([], added[0]);
    }
  }

  lemma {:induction false} AddedDumps(added: seq<Frame>, made: seq<Action>)
    requires Adds(added, made) && |made| <= 1
    ensures |added| <= 1 && AreDumps(DumpFrames(added), Dumped(made))
  {
    if added != [] {
      assert added == [] + [added[0]];
      DumpFramesSnoc([], added[0]);
    }
    if made != [] {
      assert made == [made[0]];
      DumpedOne(made[0]);
      if made[0].CallPrintRoundBuffer? {
        assert IsDump(added[0], Dumped(made)[0]);
      }
    }
  }

  // -------- what every run gives --------

  predicate LockFree(s: Sys) {
    s.lock.pcCm0 != P.Inside && s.lock.pcRespin != P.Inside
  }

  lemma StreamArrives(s: Sys)
    requires StreamOk(s)
    ensures Decode(s.uart.wire) <= s.frames
    ensures Rest(s.cm0) == [] && s.uart.wire == s.uart.offered ==> Decode(s.uart.wire) == s.frames
  {
    assert s.uart.wire <= s.uart.offered <= EncodeAll(s.frames);
    DecodeArrived(s.frames, s.uart.wire);
    if Rest(s.cm0) == [] && s.uart.wire == s.uart.offered {
      assert s.uart.wire == EncodeAll(s.frames);
      DecodeEncodeAll(s.frames);
    }
  }

  /** Linearizability: in every reachable state each core has performed its operations in the order
      asked, and was asked for exactly those of the calls made on it; whenever the lock is free the
      ring holds exactly what the atomic queue holds after the operations in lock order, and every
      probe has been answered as the atomic queue answers it.  Accepted records are always the
      drained ones and then the queued ones. */
  lemma Linearizable(victim: int, schedule: seq<Action>)
    ensures var s := Reached(victim, schedule);
            var f := Run(Ops(s.history));
            && OpsBy(s.history, P.Cm0) <= s.askedCm0 && OpsBy(s.history, P.Respin) <= s.askedRespin
            && ServesAll(s.askedCm0, Calls(StartGood(victim), schedule, P.Cm0))
            && ServesAll(s.askedRespin, Calls(StartGood(victim), schedule, P.Respin))
            && (LockFree(s) ==> s.ring.Pending() == f.queue && s.verdicts == f.verdicts)
            && f.accepted == f.drained + f.queue
            && |f.queue| <= 13
            && !(s.lock.pcCm0 == P.Inside && s.lock.pcRespin == P.Inside)
  {
    var s := Reached(victim, schedule);
    AskedByCalls(victim, schedule, P.Cm0);
    AskedByCalls(victim, schedule, P.Respin);
    hide ServesAll, Calls;
    Exclusive(s);
    Conservation(Ops(s.history));
  }

  /** What the receiver has and what was called for: the entries received are the first of the
      accepted ones, these are the entries logged in lock order with some left out, and in lock
      order the entries are an interleaving of what the calls on the two cores logged first. */
  predicate Explains(received: seq<Entry>, accepted: seq<Entry>, ordered: seq<Entry>,
                     fromCm0: seq<Entry>, fromRespin: seq<Entry>) {
    && received <= accepted
    && Subsequence(accepted, ordered)
    && Merged(ordered, fromCm0, fromRespin)
  }

  lemma {:induction false} EntriesPrefix(a: seq<Word>, b: seq<Word>)
    requires a <= b
    ensures Entries(a) <= Entries(b)
  {
    assert b == a + b[|a|..];
    EntriesAppend(a, b[|a|..]);
  }

  /** The entries of a run, from the calls to the wire. */
  lemma EntriesExplained(victim: int, schedule: seq<Action>)
    ensures var s := Reached(victim, schedule);
            && LogWords(Decode(s.uart.wire)) <= Run(Ops(s.history)).accepted
            && Explains(Entries(LogWords(Decode(s.uart.wire))), Entries(Run(Ops(s.history)).accepted),
                        PushedEntries(Ops(s.history)),
                        PushedEntries(OpsBy(s.history, P.Cm0)), PushedEntries(OpsBy(s.history, P.Respin)))
  {
    var s := Reached(victim, schedule);
    hide Good;
    GoodParts(s);
    StreamArrives(s);
    LogWordsPrefix(Decode(s.uart.wire), s.frames);
    Conservation(Ops(s.history));
    hide RingAgrees, StreamAgrees, VerdictsOk, OrderOk, Subsequence, Merged, Run, LogWords, Decode;
    EntriesPrefix(LogWords(Decode(s.uart.wire)), Run(Ops(s.history)).accepted);
    AcceptedFromPushed(Ops(s.history));
    SubsequenceEntries(Run(Ops(s.history)).accepted, Pushed(Ops(s.history)));
    PushesMerge(s.history);
  }

  /** End to end: whatever has arrived on the wire, the (flag, value) pairs in the log frames that
      have arrived completely are the first accepted ones: they come from the logging calls of the
      two cores, each core's in the order of its calls, and none is lost before them but for overflow,
      repeated or altered.  The dumps that have arrived are the first dumps called for, with their
      numbers and pointers. */
  lemma EndToEnd(victim: int, schedule: seq<Action>)
    ensures var s, start := Reached(victim, schedule), StartGood(victim);
            var onCm0, onRespin := Calls(start, schedule, P.Cm0), Calls(start, schedule, P.Respin);
            var fromCm0, fromRespin :=
              PushedEntries(OpsBy(s.history, P.Cm0)), PushedEntries(OpsBy(s.history, P.Respin));
            var got := Decode(s.uart.wire);
            && LogWords(got) <= Run(Ops(s.history)).accepted
            && Explains(Entries(LogWords(got)), Entries(Run(Ops(s.history)).accepted),
                        PushedEntries(Ops(s.history)), fromCm0, fromRespin)
            && fromCm0 <= Logged(onCm0) && fromRespin <= Logged(onRespin)
            && (forall f :: f in got ==> FrameOk(f))
            && |DumpFrames(got)| <= |Dumped(onCm0)|
            && AreDumps(DumpFrames(got), Dumped(onCm0)[..|DumpFrames(got)|])
  {
    hide Good, Explains, FrameOk, AreDumps, DumpFrames, ServesAll, Calls, Dumped, Logged, PushedEntries;
    EntriesExplained(victim, schedule);
    PushesOfCalls(victim, schedule, P.Cm0);
    PushesOfCalls(victim, schedule, P.Respin);
    WireFrames(victim, schedule);
  }

  lemma PushesOfCalls(victim: int, schedule: seq<Action>, c: P.Core)
    ensures PushedEntries(OpsBy(Reached(victim, schedule).history, c)) <= Logged(Calls(StartGood(victim), schedule, c))
  {
    var s := Reached(victim, schedule);
    AskedByCalls(victim, schedule, c);
    GoodParts(s);
    hide Good, ServesAll, Calls, PushedEntries;
    assert OrderOk(s, c);
    PrefixPushes(OpsBy(s.history, c), s.Asked(c), Calls(StartGood(victim), schedule, c));
  }

  lemma WireFrames(victim: int, schedule: seq<Action>)
    ensures var got := Decode(Reached(victim, schedule).uart.wire);
            var asked := Dumped(Calls(StartGood(victim), schedule, P.Cm0));
            && (forall f :: f in got ==> FrameOk(f))
            && |DumpFrames(got)| <= |asked|
            && AreDumps(DumpFrames(got), asked[..|DumpFrames(got)|])
  {
    hide Good, DumpFrames, Dumped, FrameOk, AreDumps, Calls, StreamAgrees, RingAgrees;
    var s := Reached(victim, schedule);
    FramesByCalls(victim, schedule);
    GoodParts(s);
    StreamArrives(s);
    FirstFrames(Decode(s.uart.wire), s.frames, Dumped(Calls(StartGood(victim), schedule, P.Cm0)));
  }

  lemma {:induction false} FirstFrames(got: seq<Frame>, fs: seq<Frame>, asked: seq<Dump>)
    requires got <= fs && AreDumps(DumpFrames(fs), asked) && forall f :: f in fs ==> FrameOk(f)
    ensures forall f :: f in got ==> FrameOk(f)
    ensures |DumpFrames(got)| <= |asked| && AreDumps(DumpFrames(got), asked[..|DumpFrames(got)|])
  {
    DumpFramesPrefix(got, fs);
    hide FrameOk, IsDump, DumpFrames;
  }

  /** Nothing is going on: the cores are idle, the ring is empty and the hardware has sent all it
      was given. */
  predicate Quiet(s: Sys)
    requires s.uart.InBounds()
  {
    && s.cm0.Idle? && s.respin.Idle?
    && s.ring.rd == s.ring.wr
    && s.uart.producer.Ready? && s.uart.rptr == s.uart.wptr
  }

  lemma QuietRing(s: Sys)
    requires RingOk(s) && DrainedOk(s) && s.cm0.Idle? && s.respin.Idle? && s.ring.rd == s.ring.wr
    ensures s.now.queue == [] && LogWords(s.frames) == s.now.drained
  {
    EmptyIffIndicesMeet(s.ring);
  }

  lemma QuietStream(s: Sys)
    requires StreamOk(s) && Quiet(s)
    ensures Decode(s.uart.wire) == s.frames
  {
    assert s.uart.Unsent() == [];
    StreamArrives(s);
  }

  /** Nothing is held back: when all is quiet the wire carries every accepted record and every dump
      called for, and each core has performed all that its calls asked for. */
  lemma EverythingArrives(victim: int, schedule: seq<Action>)
    requires Quiet(Reached(victim, schedule))
    ensures var s, start := Reached(victim, schedule), StartGood(victim);
            && LogWords(Decode(s.uart.wire)) == Run(Ops(s.history)).accepted
            && ServesAll(OpsBy(s.history, P.Cm0), Calls(start, schedule, P.Cm0))
            && ServesAll(OpsBy(s.history, P.Respin), Calls(start, schedule, P.Respin))
            && AreDumps(DumpFrames(Decode(s.uart.wire)), Dumped(Calls(start, schedule, P.Cm0)))
  {
    var s := Reached(victim, schedule);
    AskedByCalls(victim, schedule, P.Cm0);
    AskedByCalls(victim, schedule, P.Respin);
    FramesByCalls(victim, schedule);
    hide Good, ServesAll, AreDumps, Calls, FrameOk;
    GoodParts(s);
    Conservation(Ops(s.history));
    QuietRing(s);
    QuietStream(s);
    QuietOrder(s, P.Cm0);
    QuietOrder(s, P.Respin);
  }

  lemma QuietOrder(s: Sys, c: P.Core)
    requires OrderOk(s, c) && s.ActivityOf(c).Idle?
    ensures OpsBy(s.history, c) == s.Asked(c)
  {
  }
}
