/** Peterson's two-process lock as `print_log_get_lock` and `print_log_free_lock` use it.

    Every step is one access to a shared byte: the two reads of the wait condition are two
    steps, and the other core may run between any two of them.  The respin core is the mirror
    image of the Cortex-M0. */
module Peterson {

  datatype Core = Cm0 | Respin

  function Other(c: Core): Core {
    match c
    case Cm0 => Respin
    case Respin => Cm0
  }

  const VICTIM_CM0: int := 0x35
  const VICTIM_RESPIN: int := 0x53

  /** The value a core stores in the victim byte to let the other one go first. */
  function Token(c: Core): int {
    match c
    case Cm0 => VICTIM_CM0
    case Respin => VICTIM_RESPIN
  }

  /** Where a core is: each value names the access it will perform next. */
  datatype Pc =
    | Outside        // next: write 1 to the own flag
    | WriteVictim    // next: write the own token to the victim byte
    | ReadFlag       // next: read the other core's flag
    | ReadVictim     // next: read the victim byte
    | Inside         // next: write 0 to the own flag

  datatype Lock = Lock(flagCm0: int, flagRespin: int, victim: int, pcCm0: Pc, pcRespin: Pc) {
    function Flag(c: Core): int {
      match c
      case Cm0 => flagCm0
      case Respin => flagRespin
    }

    function PcOf(c: Core): Pc {
      match c
      case Cm0 => pcCm0
      case Respin => pcRespin
    }

    function At(c: Core, pc: Pc): Lock {
      match c
      case Cm0 => this.(pcCm0 := pc)
      case Respin => this.(pcRespin := pc)
    }

    function WithFlag(c: Core, flag: int): Lock {
      match c
      case Cm0 => this.(flagCm0 := flag)
      case Respin => this.(flagRespin := flag)
    }

    /** The core is spinning in the wait loop. */
    predicate Waiting(c: Core) {
      PcOf(c) == ReadFlag || PcOf(c) == ReadVictim
    }

    /** The next access of core `c`. */
    function Step(c: Core): Lock {
      match PcOf(c)
      case Outside => WithFlag(c, 1).At(c, WriteVictim)
      case WriteVictim => this.(victim := Token(c)).At(c, ReadFlag)
      case ReadFlag => if Flag(Other(c)) != 0 then At(c, ReadVictim) else At(c, Inside)
      case ReadVictim => if victim == Token(c) then At(c, ReadFlag) else At(c, Inside)
      case Inside => WithFlag(c, 0).At(c, Outside)
    }
  }

  /** The state the initialisation leaves, for an arbitrary victim byte. */
  function Initial(victim: int): Lock {
    Lock(0, 0, victim, Outside, Outside)
  }

  type Schedule = seq<Core>

  function Exec(l: Lock, sched: Schedule): Lock
    decreases |sched|
  {
    if sched == [] then l else Exec(l.Step(sched[0]), sched[1..])
  }

  /** How often core `c` passes from outside to inside the critical section. */
  function Entries(l: Lock, sched: Schedule, c: Core): nat
    decreases |sched|
  {
    if sched == [] then 0
    else
      var l' := l.Step(sched[0]);
      (if l.PcOf(c) != Inside && l'.PcOf(c) == Inside then 1 else 0) + Entries(l', sched[1..], c)
  }

  /** How many of the scheduled accesses belong to core `c`. */
  function Turns(sched: Schedule, c: Core): nat {
    if sched == [] then 0 else (if sched[0] == c then 1 else 0) + Turns(sched[1..], c)
  }

  /** What every access keeps, seen from core `c`.  The second conjunct is the heart of the
      algorithm: once a core is inside, a core that has reached the wait loop is the victim. */
  predicate GoodFor(l: Lock, c: Core) {
    && l.Flag(c) == (if l.PcOf(c) == Outside then 0 else 1)
    && (l.PcOf(c) == Inside && (l.Waiting(Other(c)) || l.PcOf(Other(c)) == Inside)
        ==> l.victim == Token(Other(c)))
    && (l.Waiting(c) || l.PcOf(c) == Inside ==> l.victim == VICTIM_CM0 || l.victim == VICTIM_RESPIN)
    && (l.Waiting(c) && l.victim == Token(Other(c)) ==> l.Waiting(Other(c)))
  }

  predicate Good(l: Lock) {
    GoodFor(l, Cm0) && GoodFor(l, Respin)
  }

  lemma StepKeepsGood(l: Lock, c: Core)
    requires Good(l)
    ensures Good(l.Step(c))
  {
  }

  lemma {:induction false} ExecKeepsGood(l: Lock, sched: Schedule)
    requires Good(l)
    ensures Good(Exec(l, sched))
    decreases |sched|
  {
    if sched != [] {
      StepKeepsGood(l, sched[0]);
      ExecKeepsGood(l.Step(sched[0]), sched[1..]);
    }
  }

  /** Mutual exclusion: under every interleaving and from every initial victim byte, the two
      cores are never both between get_lock and free_lock. */
  lemma MutualExclusion(victim: int, sched: Schedule)
    ensures var l := Exec(Initial(victim), sched); !(l.pcCm0 == Inside && l.pcRespin == Inside)
  {
    ExecKeepsGood(Initial(victim), sched);
    var l := Exec(Initial(victim), sched);
    assert Other(Cm0) == Respin && Other(Respin) == Cm0;
    assert l.PcOf(Cm0) == Inside && l.PcOf(Respin) == Inside ==> l.victim == Token(Respin) && l.victim == Token(Cm0);
  }

  // -------- progress --------

  /** An access by either core while `c` waits and the other core is the victim: either `c`
      goes in, or nothing that matters has changed. */
  lemma VictimStep(l: Lock, c: Core, actor: Core)
    requires Good(l) && l.Waiting(c) && l.victim == Token(Other(c))
    ensures var l' := l.Step(actor);
            || (actor == c && l'.PcOf(c) == Inside)
            || (l'.Waiting(c) && l'.victim == Token(Other(c)))
    ensures actor == c && l.PcOf(c) == ReadVictim ==> l.Step(actor).PcOf(c) == Inside
    ensures actor != c ==> l.Step(actor).PcOf(c) == l.PcOf(c)
  {
  }

  /** A waiting core that is not the victim goes in within two accesses of its own, whatever
      the other core does in between. */
  lemma {:induction false} NonVictimEnters(l: Lock, c: Core, sched: Schedule)
    requires Good(l) && l.Waiting(c) && l.victim == Token(Other(c))
    requires Turns(sched, c) >= (if l.PcOf(c) == ReadVictim then 1 else 2)
    ensures Entries(l, sched, c) >= 1
    decreases |sched|
  {
    StepKeepsGood(l, sched[0]);
    VictimStep(l, c, sched[0]);
    if l.Step(sched[0]).PcOf(c) != Inside {
      NonVictimEnters(l.Step(sched[0]), c, sched[1..]);
    }
  }

  /** The cores are never both stuck: if both wait, exactly one of them is not the victim, and
      it goes in as soon as it has performed two accesses. */
  lemma NeverBothStuck(victim: int, past: Schedule, future: Schedule) returns (winner: Core)
    requires var l := Exec(Initial(victim), past); l.Waiting(Cm0) && l.Waiting(Respin)
    requires Turns(future, Cm0) >= 2 && Turns(future, Respin) >= 2
    ensures Entries(Exec(Initial(victim), past), future, winner) >= 1
    ensures Exec(Initial(victim), past).victim == Token(Other(winner))
  {
    ExecKeepsGood(Initial(victim), past);
    var l := Exec(Initial(victim), past);
    winner := if l.victim == VICTIM_CM0 then Respin else Cm0;
    NonVictimEnters(l, winner, future);
  }

  /** How many more entries the other core can make while `c` waits. */
  function Credit(l: Lock, c: Core): nat {
    if l.Waiting(Other(c)) && l.victim == Token(c) then 1 else 0
  }

  lemma {:induction false} EntriesWithinCredit(l: Lock, c: Core, sched: Schedule)
    requires Good(l) && l.Waiting(c) && Entries(l, sched, c) == 0
    ensures Entries(l, sched, Other(c)) <= Credit(l, c)
    decreases |sched|
  {
    if sched != [] {
      var l' := l.Step(sched[0]);
      StepKeepsGood(l, sched[0]);
      EntriesWithinCredit(l', c, sched[1..]);
    }
  }

  /** Bounded bypass: from the moment a core has written the victim byte until it goes in, the
      other core goes in at most once. */
  lemma BypassedAtMostOnce(victim: int, past: Schedule, c: Core, future: Schedule)
    requires Exec(Initial(victim), past).PcOf(c) == WriteVictim
    requires Entries(Exec(Initial(victim), past + [c]), future, c) == 0
    ensures Entries(Exec(Initial(victim), past + [c]), future, Other(c)) <= 1
  {
    ExecAppend(Initial(victim), past, [c]);
    ExecKeepsGood(Initial(victim), past);
    StepKeepsGood(Exec(Initial(victim), past), c);
    assert Exec(Exec(Initial(victim), past), [c]) == Exec(Initial(victim), past).Step(c);
    EntriesWithinCredit(Exec(Initial(victim), past + [c]), c, future);
  }

  lemma {:induction false} ExecAppend(l: Lock, a: Schedule, b: Schedule)
    ensures Exec(l, a + b) == Exec(Exec(l, a), b)
    decreases |a|
  {
    if a == [] {
      assert a + b == b;
    } else {
      assert (a + b)[1..] == a[1..] + b;
      ExecAppend(l.Step(a[0]), a[1..], b);
    }
  }

  /** How many accesses of its own the other core can perform, while `c` waits, before it has
      made itself the victim. */
  function Distance(l: Lock, c: Core): nat {
    if l.victim == Token(Other(c)) then 0
    else
      match l.PcOf(Other(c))
      case WriteVictim => 1
      case Outside => 2
      case Inside => 3
      case ReadVictim => 4
      case ReadFlag => 5
  }

  lemma {:induction false} WaiterEnters(l: Lock, c: Core, first: Schedule, second: Schedule)
    requires Good(l) && l.Waiting(c)
    requires Turns(first, Other(c)) >= Distance(l, c) && Turns(second, c) >= 2
    ensures Entries(l, first + second, c) >= 1
    decreases |first|
  {
    if first == [] {
      assert first + second == second;
      NonVictimEnters(l, c, second);
    } else {
      assert (first + second)[1..] == first[1..] + second;
      var l' := l.Step(first[0]);
      StepKeepsGood(l, first[0]);
      if l'.PcOf(c) != Inside {
        WaiterEnters(l', c, first[1..], second);
      }
    }
  }

  /** No starvation by a busy core: in every reachable state a waiting core goes in by the time the
      other core has performed five accesses and it has itself performed two after those. */
  lemma NoStarvation(victim: int, past: Schedule, c: Core, first: Schedule, second: Schedule)
    requires Exec(Initial(victim), past).Waiting(c)
    requires Turns(first, Other(c)) >= 5 && Turns(second, c) >= 2
    ensures Entries(Exec(Initial(victim), past), first + second, c) >= 1
  {
    ExecKeepsGood(Initial(victim), past);
    WaiterEnters(Exec(Initial(victim), past), c, first, second);
  }

  /** Nor by an idle one: while the other core stays outside, a waiting core goes in with its second
      access at the latest. */
  lemma IdleCoreLetsIn(victim: int, past: Schedule, c: Core)
    requires Exec(Initial(victim), past).Waiting(c) && Exec(Initial(victim), past).PcOf(Other(c)) == Outside
    ensures Entries(Exec(Initial(victim), past), [c, c], c) == 1
  {
    ExecKeepsGood(Initial(victim), past);
    var l := Exec(Initial(victim), past);
    assert [c, c][1..] == [c] && [c][1..] == [];
    assert Entries(l.Step(c), [c], c) == (if l.Step(c).PcOf(c) != Inside then 1 else 0);
  }

  // -------- work left until a core is inside --------

  /** How many accesses the other core needs until it has made itself the victim, when it needs `left`
      to get out of the critical section and never more than `longest`. */
  function UntilVictim(l: Lock, c: Core, left: int, longest: nat): int {
    if l.victim == Token(Other(c)) then 0
    else
      match l.PcOf(Other(c))
      case WriteVictim => 1
      case Outside => 2
      case Inside => 2 + left
      case ReadVictim => 3 + longest
      case ReadFlag => 4 + longest
  }

  /** The core whose next access brings `c` closer: the other one while it is in the way. */
  function Hurdle(l: Lock, c: Core): Core {
    if l.Waiting(c) && l.victim != Token(Other(c)) && l.PcOf(Other(c)) != Outside then Other(c) else c
  }

  /** A measure of the accesses until `c` is inside, where each access of the other core may cost
      `c` its progress. */
  function Work(l: Lock, c: Core, left: int, longest: nat): int {
    var turns := UntilVictim(l, c, left, longest);
    match l.PcOf(c)
    case Outside => 3 * (4 + longest) + 4
    case WriteVictim => 3 * (4 + longest) + 3
    case ReadFlag => 3 * turns + (if turns == 0 then 2 else if l.PcOf(Other(c)) == Outside then 1 else 0)
    case ReadVictim => 3 * turns + (if turns == 0 then 1 else if l.PcOf(Other(c)) == Outside then 2 else 0)
    case Inside => 0
  }

  /** What an access does to the work left for `c`: it becomes less, or it stays and so does the
      hurdle, which is the other core then.  `left'` is what the other core needs afterwards. */
  predicate Nearer(l: Lock, l': Lock, c: Core, actor: Core, left: int, left': int, longest: nat) {
    var before, after := Work(l, c, left, longest), Work(l', c, left', longest);
    0 < before && (after < before || (after == before && Hurdle(l', c) == Hurdle(l, c) && actor != Hurdle(l, c)))
  }

  lemma OwnAccess(l: Lock, c: Core, left: int, longest: nat)
    requires Good(l) && l.PcOf(c) != Inside && l.Step(c).PcOf(c) != Inside
    requires l.PcOf(Other(c)) == Inside ==> 1 <= left <= longest
    ensures Nearer(l, l.Step(c), c, c, left, left, longest)
  {
  }

  lemma OtherAccess(l: Lock, c: Core, left: int, left': int, longest: nat)
    requires Good(l) && l.PcOf(c) != Inside
    requires l.PcOf(Other(c)) == Inside ==> 1 <= left <= longest
    requires l.Step(Other(c)).PcOf(Other(c)) == Inside ==> 1 <= left' <= longest
    ensures Nearer(l, l.Step(Other(c)), c, Other(c), left, left', longest)
  {
  }

  /** An access inside the critical section leaves the lock alone. */
  lemma InsideAccess(l: Lock, c: Core, left: int, left': int, longest: nat)
    requires Good(l) && l.PcOf(c) != Inside && l.PcOf(Other(c)) == Inside && left' < left && left >= 1
    ensures Nearer(l, l, c, Other(c), left, left', longest)
  {
  }

  // -------- a core left alone --------

  /** How many accesses `c` needs to go in when the other core does nothing and is no obstacle. */
  function Alone(l: Lock, c: Core): int {
    match l.PcOf(c)
    case Outside => 6
    case WriteVictim => 5
    case ReadFlag => if l.victim == Token(Other(c)) then 2 else 1
    case ReadVictim => if l.victim == Token(Other(c)) then 1 else 2
    case Inside => 0
  }

  /** Of two cores that want to go in, `c` may go on. */
  predicate Free(l: Lock, c: Core) {
    !l.Waiting(c) || (l.Waiting(Other(c)) && l.victim == Token(Other(c)))
  }

  lemma OneIsFree(l: Lock, c: Core)
    requires Good(l) && l.PcOf(c) != Inside && l.PcOf(Other(c)) != Inside && !Free(l, c)
    ensures Free(l, Other(c))
  {
  }

  lemma GoesOnAlone(l: Lock, c: Core)
    requires Good(l) && l.PcOf(c) != Inside && l.PcOf(Other(c)) != Inside
    requires Free(l, c) || l.PcOf(Other(c)) == Outside
    ensures var l', d := l.Step(c), Other(c);
            && Alone(l', c) < Alone(l, c)
            && Alone(l', c) + Alone(l', d) < Alone(l, c) + Alone(l, d)
            && (l'.PcOf(c) == Inside ==> Alone(l', d) <= Alone(l, d))
  {
  }
}
