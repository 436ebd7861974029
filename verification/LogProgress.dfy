/** What the log pipeline gets done: how long a core can hold the lock and how long it can be kept
    waiting for it, and that everything accepted can always still reach the wire. */
module LogProgress {
  import opened Words
  import opened LogFifo
  import opened LogRing
  import opened Frames
  import opened LogSystem
  import opened LogRuns
  import P = Peterson
  import U = UartRing

  // -------- the critical section is bounded --------

  /** How many more accesses the core that holds the lock needs to release it. */
  function AccessesLeft(t: Activity, m: Ring, before: seq<Word>): int
    requires m.Valid()
  {
    var rounds := |Head(before)| - |before| + |m.Pending()|;
    match t
    case PushLoad(_) => 5
    case PushStore(_, _) => 4
    case PushCheck(_, _) => 3
    case PushPublish(_, _) => 2
    case DrainLoadWrite => 5 * rounds + 3
    case DrainLoadRead(_) => 5 * rounds + 2
    case DrainCopy(_, _, _, part) => 5 * rounds + 1 - |part|
    case DrainAdvance(_, _, _) => 5 * rounds - 3
    case ProbeLoadWrite => 3
    case ProbeLoadRead(_) => 2
    case _ => 1
  }

  lemma AccessesBounded(t: Activity, m: Ring, before: seq<Word>)
    requires m.Valid() && |before| <= CAPACITY && InSection(t) && Holds(t, m, before, Performing(t))
    ensures 1 <= AccessesLeft(t, m, before) <= 5 * BATCH + 3
  {
  }

  lemma ContinueCounts(m: Ring, before: seq<Word>, k: nat, out: seq<Byte>)
    requires m.Valid() && k <= |Head(before)| && |before| <= CAPACITY && m.Pending() == before[k..]
    requires |out| == 4 * k
    ensures AccessesLeft(Continue(m.wr, m.rd, out), m, before) == 5 * (|Head(before)| - k) + 1
  {
    EmptyIffIndicesMeet(m);
  }

  lemma AdvanceCounts(m: Ring, before: seq<Word>, out: seq<Byte>)
    requires m.Valid() && |before| <= CAPACITY && Holds(DrainAdvance(m.wr, m.rd, out), m, before, Drain)
    ensures var m' := m.(rd := Next(m.rd));
            m'.Valid() && AccessesLeft(Continue(m.wr, m'.rd, out), m', before)
                          == AccessesLeft(DrainAdvance(m.wr, m.rd, out), m, before) - 1
  {
    var k := |before| - |m.Pending()|;
    WordsBytesLength(before[..k + 1]);
    EmptyIffIndicesMeet(m);
    AdvanceRemovesOldest(m);
    assert before[k..][1..] == before[k + 1..];
    hide WordsBytes;
    ContinueCounts(m.(rd := Next(m.rd)), before, k + 1, out);
  }

  predicate Counts(t: Activity, m: Ring, before: seq<Word>)
    requires m.Valid()
  {
    var next := Access(t, m);
    next.1.Valid() && AccessesLeft(next.0, next.1, before) == AccessesLeft(t, m, before) - 1
  }

  lemma PushCounts(t: Activity, m: Ring, before: seq<Word>)
    requires m.Valid() && InSection(t) && !t.Leave? && Holds(t, m, before, Performing(t)) && Performing(t).Push?
    ensures Counts(t, m, before)
  {
    hide Head, Ring.Pending;
    if t.PushPublish? {
      PublishAccepts(m);
    }
  }

  /** An access that leaves the ring alone. */
  lemma ReadCounts(t: Activity, m: Ring, before: seq<Word>)
    requires m.Valid() && InSection(t) && !t.Leave? && Holds(t, m, before, Performing(t))
    requires t.DrainLoadWrite? || t.DrainCopy? || t.ProbeLoadWrite? || t.ProbeLoadRead?
    ensures Counts(t, m, before)
  {
    hide WordsBytes, WordBytes, Head, Ring.Pending;
  }

  lemma AccessCounts(t: Activity, m: Ring, before: seq<Word>)
    requires m.Valid() && |before| <= CAPACITY && InSection(t) && !t.Leave? && Holds(t, m, before, Performing(t))
    ensures Counts(t, m, before)
  {
    if t.DrainLoadRead? {
      assert before[0..] == before;
      ContinueCounts(m, before, 0, []);
    } else if t.DrainAdvance? {
      AdvanceCounts(m, before, t.out);
    } else {
      hide Holds, Counts, AccessesLeft;
      if Performing(t).Push? {
        PushCounts(t, m, before);
      } else {
        ReadCounts(t, m, before);
      }
    }
  }

  predicate IsAccessOf(a: Action, c: P.Core) {
    if c.Cm0? then a.Cm0Access? else a.RespinAccess?
  }

  function Accesses(schedule: seq<Action>, c: P.Core): nat {
    if schedule == [] then 0 else (if IsAccessOf(schedule[0], c) then 1 else 0) + Accesses(schedule[1..], c)
  }

  /** Core `c` is outside the critical section at some point of the run. */
  predicate GetsOut(s: Sys, schedule: seq<Action>, c: P.Core)
    requires Good(s)
    decreases |schedule|
  {
    || !InSection(s.ActivityOf(c))
    || (&& schedule != []
        && (ApplyKeepsGood(s, schedule[0]);
            GetsOut(Apply(s, schedule[0]), schedule[1..], c)))
  }

  /** How many more accesses core `c` needs to get out. */
  function Left(s: Sys, c: P.Core): int
    requires s.ring.Valid()
  {
    if InSection(s.ActivityOf(c)) then AccessesLeft(s.ActivityOf(c), s.ring, s.before.queue) else 0
  }

  /** What `Left` depends on is as before. */
  predicate Undisturbed(s: Sys, s': Sys, c: P.Core) {
    s'.ActivityOf(c) == s.ActivityOf(c) && s'.ring == s.ring && s'.before == s.before
  }

  /** The other core cannot get in, and leaves the ring alone. */
  lemma OtherCoreUndisturbing(s: Sys, c: P.Core)
    requires LockOk(s) && s.ring.Valid() && s.uart.InBounds() && InSection(s.ActivityOf(c))
    ensures Undisturbed(s, CoreStep(s, P.Other(c)), c)
  {
    hide Access, P.Good;
    var d := P.Other(c);
    Exclusive(s);
    if s.ActivityOf(d).Enter? {
      EnterKeepsLock(s, d, s.ActivityOf(d).op);
      Exclusive(EnterStep(s, d, s.ActivityOf(d).op));
    }
  }

  /** Nothing another party does disturbs the core that holds the lock. */
  lemma HolderUndisturbed(s: Sys, a: Action, c: P.Core)
    requires LockOk(s) && s.ring.Valid() && s.uart.InBounds() && InSection(s.ActivityOf(c)) && !IsAccessOf(a, c)
    ensures Undisturbed(s, Apply(s, a), c)
  {
    hide CoreStep, LockSound, U.Uart.Transmit, U.Uart.InBounds, Ring.Valid;
    if a.Cm0Access? || a.RespinAccess? {
      OtherCoreUndisturbing(s, c);
    }
  }

  lemma HolderAdvances(s: Sys, c: P.Core)
    requires RingOk(s) && s.uart.InBounds() && InSection(s.ActivityOf(c))
    ensures var s' := CoreStep(s, c); s'.ring.Valid() && Left(s', c) < Left(s, c)
  {
    var t := s.ActivityOf(c);
    AccessesBounded(t, s.ring, s.before.queue);
    if !t.Leave? {
      AccessCounts(t, s.ring, s.before.queue);
      AccessKeepsKind(t, s.ring, c);
    }
    hide AccessesLeft, Access;
  }

  lemma LeftIsPositive(s: Sys, c: P.Core)
    requires RingOk(s) && InSection(s.ActivityOf(c))
    ensures 1 <= Left(s, c) <= 5 * BATCH + 3
  {
    AccessesBounded(s.ActivityOf(c), s.ring, s.before.queue);
  }

  lemma LeftCounts(s: Sys, a: Action, c: P.Core)
    requires Good(s) && InSection(s.ActivityOf(c))
    ensures Left(s, c) >= 1
    ensures Good(Apply(s, a)) && Left(Apply(s, a), c) <= Left(s, c) - (if IsAccessOf(a, c) then 1 else 0)
  {
    hide AccessesLeft, CoreStep, LockSound, RingAgrees, StreamAgrees, DrainedOk, VerdictsOk, OrderOk, Ops, Run;
    ApplyKeepsGood(s, a);
    GoodIsInBounds(s);
    LeftIsPositive(s, c);
    if IsAccessOf(a, c) {
      HolderAdvances(s, c);
    } else {
      HolderUndisturbed(s, a, c);
      hide Apply;
    }
  }

  lemma {:induction false} LeavesInTime(s: Sys, schedule: seq<Action>, c: P.Core)
    requires Good(s) && Accesses(schedule, c) >= Left(s, c)
    ensures GetsOut(s, schedule, c)
    decreases |schedule|
  {
    hide Good, Apply, Left, InSection;
    if InSection(s.ActivityOf(c)) {
      GoodIsInBounds(s);
      LeftCounts(s, UartHardware, c);
      LeftCounts(s, schedule[0], c);
      LeavesInTime(Apply(s, schedule[0]), schedule[1..], c);
    }
  }

  /** A core that holds the lock gives it up within 58 accesses of its own, a full batch
      included, in any interleaving. */
  lemma SectionIsBounded(victim: int, past: seq<Action>, c: P.Core, future: seq<Action>)
    requires Accesses(future, c) >= 58
    ensures GetsOut(Reached(victim, past), future, c)
  {
    var s := Reached(victim, past);
    if InSection(s.ActivityOf(c)) {
      AccessesBounded(s.ActivityOf(c), s.ring, s.before.queue);
    }
    LeavesInTime(s, future, c);
  }

  // -------- a core that wants the lock gets it --------

  const LONGEST: nat := 5 * BATCH + 3

  predicate Wants(s: Sys, c: P.Core) {
    s.ActivityOf(c).Enter?
  }

  /** The work left until core `c` is inside. */
  function Toil(s: Sys, c: P.Core): int
    requires s.ring.Valid()
  {
    P.Work(s.lock, c, Left(s, P.Other(c)), LONGEST)
  }

  /** A step brings `c` nearer: the work left becomes less, or it stays, and then the step was no
      help, and the core whose access would help is still the same. */
  predicate Nearer(s: Sys, s': Sys, c: P.Core, help: bool)
    requires s.ring.Valid() && s'.ring.Valid()
  {
    && 0 < Toil(s, c)
    && (Toil(s', c) < Toil(s, c)
        || (Toil(s', c) == Toil(s, c) && P.Hurdle(s'.lock, c) == P.Hurdle(s.lock, c) && !help))
  }

  predicate GetsNearer(s: Sys, s': Sys, c: P.Core, help: bool)
    requires s.ring.Valid() && s'.ring.Valid()
  {
    InSection(s'.ActivityOf(c)) || (Wants(s', c) && Nearer(s, s', c, help))
  }

  /** What the lemmas below need of a state. */
  predicate Sane(s: Sys) {
    && LockOk(s) && s.ring.Valid() && s.uart.InBounds()
    && (InSection(s.cm0) ==> 1 <= Left(s, P.Cm0) <= LONGEST)
    && (InSection(s.respin) ==> 1 <= Left(s, P.Respin) <= LONGEST)
  }

  lemma GoodIsSane(s: Sys)
    requires Good(s)
    ensures Sane(s)
  {
    hide RingAgrees, LockSound, AccessesLeft;
    GoodIsInBounds(s);
    if InSection(s.cm0) { LeftIsPositive(s, P.Cm0); }
    if InSection(s.respin) { LeftIsPositive(s, P.Respin); }
  }

  /** An access of get_lock. */
  lemma EnterMoves(s: Sys, c: P.Core)
    requires Wants(s, c)
    ensures var s', op, d := EnterStep(s, c, s.ActivityOf(c).op), s.ActivityOf(c).op, P.Other(c);
            && s'.lock == s.lock.Step(c) && s'.ActivityOf(d) == s.ActivityOf(d)
            && s'.ring == s.ring && s'.uart == s.uart
            && (if s'.lock.PcOf(c) == P.Inside
                then InSection(s'.ActivityOf(c)) && Performing(s'.ActivityOf(c)) == op && s'.now == s.now.Apply(op)
                else s'.ActivityOf(c) == s.ActivityOf(c) && s'.before == s.before && s'.now == s.now)
  {
    hide P.Lock.Step, Fifo.Apply;
  }

  /** Where a core is in the lock. */
  lemma Place(s: Sys, c: P.Core)
    requires LockOk(s)
    ensures P.Good(s.lock)
    ensures s.lock.PcOf(c) == P.Inside <==> InSection(s.ActivityOf(c))
    ensures s.ActivityOf(c).Idle? || s.ActivityOf(c).Send? ==> s.lock.PcOf(c) == P.Outside
  {
  }

  lemma OwnAccessNearer(s: Sys, c: P.Core, help: bool)
    requires Sane(s) && Wants(s, c) && (help ==> P.Hurdle(s.lock, c) == c)
    ensures GetsNearer(s, EnterStep(s, c, s.ActivityOf(c).op), c, help)
  {
    EnterMoves(s, c);
    Place(s, c);
    Place(s, P.Other(c));
    hide EnterStep, P.Work, P.Lock.Step, LockSound, AccessesLeft, P.Good;
    if s.lock.Step(c).PcOf(c) != P.Inside {
      P.OwnAccess(s.lock, c, Left(s, P.Other(c)), LONGEST);
    }
  }

  /** A step that leaves the lock and what the other core needs as they are. */
  lemma UnconcernedStep(s: Sys, s': Sys, c: P.Core)
    requires Sane(s) && Wants(s, c) && Wants(s', c) && s'.ring.Valid()
    requires s'.lock == s.lock && Left(s', P.Other(c)) == Left(s, P.Other(c))
    ensures GetsNearer(s, s', c, false)
  {
    Place(s, c);
    Place(s, P.Other(c));
    hide P.Good, LockSound, Left;
  }

  /** An access of the other core that is in get_lock or free_lock. */
  lemma OtherLockAccessNearer(s: Sys, s': Sys, c: P.Core, help: bool)
    requires Sane(s) && Sane(s') && Wants(s, c) && Wants(s', c) && (help ==> P.Hurdle(s.lock, c) == P.Other(c))
    requires s'.lock == s.lock.Step(P.Other(c))
    ensures GetsNearer(s, s', c, help)
  {
    var d := P.Other(c);
    Place(s, c);
    Place(s, d);
    Place(s', d);
    hide LockSound, P.Good, P.Work, P.Lock.Step, AccessesLeft;
    P.OtherAccess(s.lock, c, Left(s, d), Left(s', d), LONGEST);
  }

  /** An access of the other core inside the critical section. */
  lemma OtherSectionAccessNearer(s: Sys, s': Sys, c: P.Core, help: bool)
    requires Sane(s) && Wants(s, c) && Wants(s', c) && s'.ring.Valid() && InSection(s.ActivityOf(P.Other(c)))
    requires help ==> P.Hurdle(s.lock, c) == P.Other(c)
    requires s'.lock == s.lock && Left(s', P.Other(c)) < Left(s, P.Other(c))
    ensures GetsNearer(s, s', c, help)
  {
    var d := P.Other(c);
    Place(s, c);
    Place(s, d);
    hide LockSound, P.Good, P.Work, P.Lock.Step, AccessesLeft;
    P.InsideAccess(s.lock, c, Left(s, d), Left(s', d), LONGEST);
  }

  /** What an access of one core leaves of the other. */
  lemma CoreStepKeepsOther(s: Sys, d: P.Core)
    requires s.ring.Valid() && s.uart.InBounds()
    ensures CoreStep(s, d).ActivityOf(P.Other(d)) == s.ActivityOf(P.Other(d))
    ensures var t := s.ActivityOf(d); t.Enter? || t.Leave? ==> CoreStep(s, d).lock == s.lock.Step(d)
    ensures var t := s.ActivityOf(d); !t.Enter? && !t.Leave? ==> CoreStep(s, d).lock == s.lock
    ensures var t := s.ActivityOf(d);
            t.Idle? || t.Send? ==> !InSection(CoreStep(s, d).ActivityOf(d)) && CoreStep(s, d).ring == s.ring
  {
    hide P.Lock.Step, Access;
  }

  lemma OtherAccessNearer(s: Sys, c: P.Core, help: bool)
    requires Good(s) && Wants(s, c) && (help ==> P.Hurdle(s.lock, c) == P.Other(c))
    ensures CoreStep(s, P.Other(c)).ring.Valid() && GetsNearer(s, CoreStep(s, P.Other(c)), c, help)
  {
    hide Good, GetsNearer, CoreStep, AccessesLeft, LockSound, P.Lock.Step;
    var d := P.Other(c);
    GoodIsSane(s);
    var s', t := CoreStep(s, d), s.ActivityOf(d);
    CoreStepKeepsGood(s, d);
    GoodIsSane(s');
    CoreStepKeepsOther(s, d);
    if t.Idle? || t.Send? {
      Place(s, d);
      UnconcernedStep(s, s', c);
    } else if t.Enter? || t.Leave? {
      OtherLockAccessNearer(s, s', c, help);
    } else {
      GoodHasRing(s);
      HolderAdvances(s, d);
      OtherSectionAccessNearer(s, s', c, help);
    }
  }

  lemma GoodHasRing(s: Sys)
    requires Good(s)
    ensures RingOk(s) && LockOk(s)
  {
  }

  /** Every step brings a core that wants the lock nearer to it. */
  lemma StepNearer(s: Sys, a: Action, c: P.Core)
    requires Good(s) && Wants(s, c)
    ensures Good(Apply(s, a)) && GetsNearer(s, Apply(s, a), c, IsAccessOf(a, P.Hurdle(s.lock, c)))
  {
    hide Good, GetsNearer, CoreStep, AccessesLeft, LockSound, P.Lock.Step, Left;
    GoodIsSane(s);
    ApplyKeepsGood(s, a);
    GoodIsSane(Apply(s, a));
    var help := IsAccessOf(a, P.Hurdle(s.lock, c));
    if IsAccessOf(a, c) {
      OwnAccessNearer(s, c, help);
      OwnStep(s, c);
    } else if IsAccessOf(a, P.Other(c)) {
      OtherAccessNearer(s, c, help);
    } else {
      OthersUnconcerned(s, a, c);
      UnconcernedStep(s, Apply(s, a), c);
    }
  }

  lemma OwnStep(s: Sys, c: P.Core)
    requires s.ring.Valid() && s.uart.InBounds() && Wants(s, c)
    ensures CoreStep(s, c) == EnterStep(s, c, s.ActivityOf(c).op)
  {
    hide EnterStep;
  }

  /** Calls and the hardware leave the lock and the critical sections alone. */
  lemma OthersUnconcerned(s: Sys, a: Action, c: P.Core)
    requires s.ring.Valid() && s.uart.InBounds() && Wants(s, c)
    requires !IsAccessOf(a, c) && !IsAccessOf(a, P.Other(c))
    ensures var s' := Apply(s, a);
            && s'.ring == s.ring && s'.lock == s.lock && Wants(s', c)
            && Left(s', P.Other(c)) == Left(s, P.Other(c))
  {
    hide AccessesLeft, CoreStep, Ring.Valid, U.Uart.Transmit, U.Uart.InBounds;
  }

  // -------- rounds --------

  /** Core `c` is inside at some point of the run. */
  predicate GetsIn(s: Sys, schedule: seq<Action>, c: P.Core)
    requires Good(s)
    decreases |schedule|
  {
    || InSection(s.ActivityOf(c))
    || (&& schedule != []
        && (ApplyKeepsGood(s, schedule[0]);
            GetsIn(Apply(s, schedule[0]), schedule[1..], c)))
  }

  /** Over a run the work left never becomes more. */
  lemma {:induction false} NeverFurther(s: Sys, r: seq<Action>, c: P.Core)
    requires Good(s) && Wants(s, c)
    ensures s.ring.Valid() && Exec(s, r).ring.Valid()
    ensures GetsIn(s, r, c) || (Wants(Exec(s, r), c) && Toil(Exec(s, r), c) <= Toil(s, c))
    decreases |r|
  {
    hide Good, Apply, Toil, P.Hurdle;
    GoodIsSane(s);
    GoodIsSane(Exec(s, r));
    if r != [] {
      StepNearer(s, r[0], c);
      if !InSection(Apply(s, r[0]).ActivityOf(c)) {
        NeverFurther(Apply(s, r[0]), r[1..], c);
      }
    }
  }

  /** Over a run with an access of the core that is the hurdle it becomes less. */
  lemma {:induction false} RoundHelps(s: Sys, r: seq<Action>, c: P.Core)
    requires Good(s) && Wants(s, c) && Accesses(r, P.Hurdle(s.lock, c)) >= 1
    ensures s.ring.Valid() && Exec(s, r).ring.Valid() && Toil(s, c) > 0
    ensures GetsIn(s, r, c) || (Wants(Exec(s, r), c) && Toil(Exec(s, r), c) < Toil(s, c))
    decreases |r|
  {
    hide Good, Apply, Toil, P.Hurdle;
    GoodIsSane(s);
    GoodIsSane(Exec(s, r));
    StepNearer(s, r[0], c);
    var s' := Apply(s, r[0]);
    GoodIsSane(s');
    if InSection(s'.ActivityOf(c)) {
      FirstToil(s, c);
    } else if Toil(s', c) < Toil(s, c) {
      NeverFurther(s', r[1..], c);
    } else {
      RoundHelps(s', r[1..], c);
    }
  }

  lemma FirstToil(s: Sys, c: P.Core)
    requires Sane(s) && Wants(s, c)
    ensures 0 < Toil(s, c) <= 3 * (4 + LONGEST) + 4
  {
    Place(s, c);
    Place(s, P.Other(c));
    hide LockSound, Left;
  }

  /** A round: each core performs an access, or would if it had one to perform. */
  predicate Round(r: seq<Action>) {
    Accesses(r, P.Cm0) >= 1 && Accesses(r, P.Respin) >= 1
  }

  function Joined(rounds: seq<seq<Action>>): seq<Action> {
    if rounds == [] then [] else rounds[0] + Joined(rounds[1..])
  }

  lemma {:induction false} ExecAppend(s: Sys, a: seq<Action>, b: seq<Action>)
    requires Good(s)
    ensures Exec(s, a + b) == Exec(Exec(s, a), b)
    decreases |a|
  {
    hide Good, Apply;
    GoodIsInBounds(s);
    if a == [] {
      assert a + b == b;
    } else {
      ApplyKeepsGood(s, a[0]);
      assert (a + b)[1..] == a[1..] + b;
      ExecAppend(Apply(s, a[0]), a[1..], b);
    }
  }

  lemma {:induction false} GetsInAppend(s: Sys, a: seq<Action>, b: seq<Action>, c: P.Core)
    requires Good(s) && (GetsIn(s, a, c) || GetsIn(Exec(s, a), b, c))
    ensures GetsIn(s, a + b, c)
    decreases |a|
  {
    hide Good, Apply;
    GoodIsInBounds(s);
    if a == [] {
      assert a + b == b;
    } else if !InSection(s.ActivityOf(c)) {
      ApplyKeepsGood(s, a[0]);
      assert (a + b)[1..] == a[1..] + b;
      GetsInAppend(Apply(s, a[0]), a[1..], b, c);
    }
  }

  lemma {:induction false} RoundsHelp(s: Sys, rounds: seq<seq<Action>>, c: P.Core)
    requires Good(s) && Wants(s, c) && s.ring.Valid() && |rounds| >= Toil(s, c)
    requires forall r :: r in rounds ==> Round(r)
    ensures GetsIn(s, Joined(rounds), c)
    decreases |rounds|
  {
    hide Good, Toil, P.Hurdle, GetsIn;
    GoodIsSane(s);
    FirstToil(s, c);
    assert Round(rounds[0]);
    RoundHelps(s, rounds[0], c);
    if !GetsIn(s, rounds[0], c) {
      RoundsHelp(Exec(s, rounds[0]), rounds[1..], c);
    }
    GetsInAppend(s, rounds[0], Joined(rounds[1..]), c);
  }

  /** No starvation: a core that wants the lock, for whatever operation, gets it within 190 rounds, in
      any interleaving, and whether the other core is busy, idle, sending or about to want it too. */
  lemma EveryCallGetsTheLock(victim: int, past: seq<Action>, c: P.Core, rounds: seq<seq<Action>>)
    requires Wants(Reached(victim, past), c)
    requires |rounds| >= 190 && forall r :: r in rounds ==> Round(r)
    ensures GetsIn(Reached(victim, past), Joined(rounds), c)
  {
    var s := Reached(victim, past);
    hide Good, Toil, GetsIn;
    GoodIsSane(s);
    FirstToil(s, c);
    RoundsHelp(s, rounds, c);
  }

  // -------- everything can always still arrive --------

  /** `uart_txChar` is busy only while the Cortex-M0 is sending. */
  predicate ProducerOk(s: Sys) {
    s.uart.producer.Ready? || s.cm0.Send?
  }

  lemma ApplyKeepsProducer(s: Sys, a: Action)
    requires s.ring.Valid() && s.uart.InBounds() && ProducerOk(s) && Logs(s.respin)
    ensures ProducerOk(Apply(s, a))
  {
    hide P.Lock.Step, Access, Ring.Valid, U.Uart.InBounds;
  }

  lemma RespinLogs(s: Sys)
    requires Good(s)
    ensures Logs(s.respin)
  {
  }

  lemma {:induction false} ExecKeepsProducer(s: Sys, schedule: seq<Action>)
    requires Good(s) && ProducerOk(s)
    ensures ProducerOk(Exec(s, schedule))
    decreases |schedule|
  {
    hide Good, Apply, ProducerOk;
    GoodIsInBounds(s);
    if schedule != [] {
      ApplyKeepsGood(s, schedule[0]);
      RespinLogs(s);
      ApplyKeepsProducer(s, schedule[0]);
      ExecKeepsProducer(Apply(s, schedule[0]), schedule[1..]);
    }
  }

  const SENDING: nat := 5 * TOTAL_ALLOW_LENGTH + 1

  /** What a core still does after the critical section of an operation. */
  function Following(op: Op, c: P.Core): int {
    match op
    case Push(_) => if c.Cm0? then 6 + LONGEST + SENDING else 0
    case Drain => SENDING
    case Probe => 0
  }

  /** The accesses a core needs for all it has begun, while nobody else does anything. */
  function CoreWork(s: Sys, c: P.Core): int
    requires s.ring.Valid()
  {
    var t := s.ActivityOf(c);
    match t
    case Idle => 0
    case Send(rest) => 5 * |rest| + 1
    case Enter(op) => P.Alone(s.lock, c) + LONGEST + Following(op, c)
    case _ => Left(s, c) + Following(Performing(t), c)
  }

  function UartWork(u: U.Uart): int
    requires u.InBounds()
  {
    u.Items() + match u.producer case Ready => 0 case Poll(_) => 4 case Store(_) => 3 case Publish(_) => 2
  }

  function AllWork(s: Sys): int
    requires s.ring.Valid() && s.uart.InBounds()
  {
    CoreWork(s, P.Cm0) + CoreWork(s, P.Respin) + UartWork(s.uart)
  }

  function OneIf(b: bool): int {
    if b then 1 else 0
  }

  /** Records that no drain has been asked for yet; a drain about to begin takes one at least. */
  function Unasked(s: Sys): int {
    |s.now.queue| + OneIf(s.cm0.Enter? && s.cm0.op.Push?) + OneIf(s.respin.Enter? && s.respin.op.Push?)
    - OneIf(s.cm0 == Enter(Drain) && s.now.queue != [])
  }

  /** A schedule that brings everything to an end, step by step: whoever is inside goes on, then
      whoever wants to go in and can, then the UART, then a drain of what is left. */
  function Choose(s: Sys): Action {
    if InSection(s.cm0) then Cm0Access
    else if InSection(s.respin) then RespinAccess
    else if s.cm0.Enter? && (s.respin.Enter? ==> P.Free(s.lock, P.Cm0)) then Cm0Access
    else if s.respin.Enter? then RespinAccess
    else if s.uart.rptr != s.uart.wptr then UartHardware
    else if s.cm0.Send? then Cm0Access
    else CallPrintLogToUart
  }

  predicate Downhill(s: Sys, s': Sys)
    requires s.ring.Valid() && s.uart.InBounds() && s'.ring.Valid() && s'.uart.InBounds()
  {
    Unasked(s') < Unasked(s) || (Unasked(s') == Unasked(s) && AllWork(s') < AllWork(s))
  }

  /** A step of a core that has no operation to begin or end changes the measure as its own work. */
  lemma SectionDownhill(s: Sys, c: P.Core)
    requires Sane(s) && RingOk(s) && InSection(s.ActivityOf(c)) && !s.ActivityOf(c).Leave?
    ensures CoreStep(s, c).ring.Valid() && CoreStep(s, c).uart.InBounds() && Downhill(s, CoreStep(s, c))
  {
    HolderAdvances(s, c);
    Exclusive(s);
    AccessKeepsKind(s.ActivityOf(c), s.ring, c);
    hide Sane, RingAgrees, AccessesLeft, Access, U.Uart.InBounds, UartWork, P.Alone;
  }

  lemma LeaveDownhill(s: Sys, c: P.Core, op: Op, out: seq<Byte>)
    requires Sane(s) && s.ActivityOf(c) == Leave(op, out)
    ensures Downhill(s, LeaveStep(s, c, op, out))
  {
    Exclusive(s);
    Place(s, c);
    hide Sane, UartWork, U.Uart.InBounds, Ring.Valid, P.Good;
  }

  lemma EnterUnasked(s: Sys, c: P.Core)
    requires Wants(s, c) && Logs(s.respin)
    ensures Unasked(EnterStep(s, c, s.ActivityOf(c).op)) <= Unasked(s)
  {
    EnterMoves(s, c);
    hide EnterStep, P.Lock.PcOf;
  }

  /** An access of get_lock by a core that is free to go on. */
  lemma EnterDownhill(s: Sys, s': Sys, c: P.Core)
    requires Sane(s) && Sane(s') && Wants(s, c) && !InSection(s.ActivityOf(P.Other(c)))
    requires P.Free(s.lock, c) || !Wants(s, P.Other(c))
    requires s' == EnterStep(s, c, s.ActivityOf(c).op)
    ensures AllWork(s') < AllWork(s)
  {
    EnterMoves(s, c);
    Place(s, c);
    Place(s, P.Other(c));
    Place(s', c);
    P.GoesOnAlone(s.lock, c);
    hide P.Alone, P.Free, P.Lock.Step, P.Good, LockSound, EnterStep, AccessesLeft, UartWork;
    hide Ring.Valid, U.Uart.InBounds;
  }

  lemma SendDownhill(s: Sys, rest: seq<Byte>)
    requires s.ring.Valid() && U.Good(s.uart) && s.cm0 == Send(rest) && s.uart.rptr == s.uart.wptr
    ensures var s' := CoreStep(s, P.Cm0); s'.ring.Valid() && s'.uart.InBounds() && Downhill(s, s')
  {
    hide Ring.Valid, AccessesLeft;
  }

  lemma HardwareDownhill(s: Sys)
    requires s.ring.Valid() && U.Good(s.uart) && s.uart.rptr != s.uart.wptr
    ensures var s' := s.(uart := s.uart.Transmit()); s'.uart.InBounds() && Downhill(s, s')
  {
    hide Ring.Valid, AccessesLeft;
  }

  lemma CallDownhill(s: Sys)
    requires Sane(s) && RingOk(s) && s.cm0.Idle? && s.respin.Idle? && s.ring.rd != s.ring.wr
    ensures Downhill(s, Apply(s, CallPrintLogToUart))
  {
    EmptyIffIndicesMeet(s.ring);
    hide Sane, AllWork;
  }

  lemma GoodUart(s: Sys)
    requires Good(s)
    ensures U.Good(s.uart)
  {
  }

  /** The chosen step is always possible and brings the end nearer. */
  lemma ChosenDownhill(s: Sys)
    requires Good(s) && ProducerOk(s) && s.ring.Valid() && s.uart.InBounds() && !Quiet(s)
    ensures var s' := Apply(s, Choose(s)); Good(s') && s'.ring.Valid() && s'.uart.InBounds() && Downhill(s, s')
  {
    hide Good, Downhill, CoreStep, LockSound, RingAgrees, P.Free;
    var s' := Apply(s, Choose(s));
    ApplyKeepsGood(s, Choose(s));
    GoodHasRing(s);
    GoodIsSane(s);
    GoodIsSane(s');
    RespinLogs(s);
    GoodUart(s);
    if InSection(s.cm0) {
      InsideDownhill(s, P.Cm0);
    } else if InSection(s.respin) {
      InsideDownhill(s, P.Respin);
    } else if s.cm0.Enter? && (s.respin.Enter? ==> P.Free(s.lock, P.Cm0)) {
      WantsDownhill(s, P.Cm0);
    } else if s.respin.Enter? {
      Place(s, P.Cm0);
      Place(s, P.Respin);
      if s.cm0.Enter? {
        P.OneIsFree(s.lock, P.Cm0);
      }
      WantsDownhill(s, P.Respin);
    } else if s.uart.rptr != s.uart.wptr {
      HardwareDownhill(s);
    } else if s.cm0.Send? {
      SendDownhill(s, s.cm0.rest);
    } else {
      CallDownhill(s);
    }
  }

  lemma InsideDownhill(s: Sys, c: P.Core)
    requires Sane(s) && RingOk(s) && InSection(s.ActivityOf(c))
    ensures CoreStep(s, c).ring.Valid() && CoreStep(s, c).uart.InBounds() && Downhill(s, CoreStep(s, c))
  {
    if s.ActivityOf(c).Leave? {
      LeaveDownhill(s, c, s.ActivityOf(c).op, s.ActivityOf(c).out);
      hide Downhill, LeaveStep;
    } else {
      SectionDownhill(s, c);
      hide Downhill, CoreStep;
    }
  }

  lemma WantsDownhill(s: Sys, c: P.Core)
    requires Good(s) && Sane(s) && Wants(s, c) && !InSection(s.ActivityOf(P.Other(c)))
    requires P.Free(s.lock, c) || !Wants(s, P.Other(c))
    ensures CoreStep(s, c).ring.Valid() && CoreStep(s, c).uart.InBounds() && Downhill(s, CoreStep(s, c))
  {
    hide Good, EnterStep, AllWork, Unasked, P.Free;
    CoreStepKeepsGood(s, c);
    OwnStep(s, c);
    GoodIsSane(CoreStep(s, c));
    RespinLogs(s);
    EnterUnasked(s, c);
    EnterDownhill(s, CoreStep(s, c), c);
  }

  /** An access, a step of the hardware or a call that asks for no new record. */
  predicate Settling(a: Action) {
    a.Cm0Access? || a.RespinAccess? || a.UartHardware? || a.CallPrintLogToUart?
  }

  lemma MeasuresArePositive(s: Sys)
    requires Sane(s)
    ensures Unasked(s) >= 0 && AllWork(s) >= 0
  {
    hide LockSound, AccessesLeft;
  }

  lemma {:induction false} Settles(s: Sys) returns (future: seq<Action>)
    requires Good(s) && ProducerOk(s) && s.ring.Valid() && s.uart.InBounds()
    ensures forall a :: a in future ==> Settling(a)
    ensures Exec(s, future).uart.InBounds() && Quiet(Exec(s, future))
    decreases Unasked(s), AllWork(s)
  {
    hide Good, Quiet, Unasked, AllWork, ProducerOk, Apply;
    GoodIsSane(s);
    MeasuresArePositive(s);
    if Quiet(s) {
      future := [];
    } else {
      var a := Choose(s);
      ChosenDownhill(s);
      RespinLogs(s);
      ApplyKeepsProducer(s, a);
      var rest := Settles(Apply(s, a));
      future := [a] + rest;
      assert future[1..] == rest;
    }
  }

  /** Nothing gets stuck: from every reachable state a continuation in which nobody asks for a new
      record brings everything to an end, and then the wire carries every accepted record. */
  lemma EverythingCanArrive(victim: int, past: seq<Action>) returns (future: seq<Action>)
    ensures forall a :: a in future ==> Settling(a)
    ensures var s := Reached(victim, past + future);
            && s.uart.InBounds() && Quiet(s)
            && LogWords(Decode(s.uart.wire)) == Run(Ops(s.history)).accepted
  {
    hide Good, Quiet, ProducerOk;
    var s := Reached(victim, past);
    StartIsGood(victim);
    assert ProducerOk(Start(victim)) by { StartProducer(victim); }
    ExecKeepsProducer(Start(victim), past);
    GoodIsInBounds(s);
    future := Settles(s);
    ExecAppend(Start(victim), past, future);
    EverythingArrives(victim, past + future);
  }

  lemma StartProducer(victim: int)
    ensures ProducerOk(Start(victim))
  {
  }
}
