/**
 The interrupt-masking mutex (lib/spin/src/irq_mutex.rs, lib/spin/src/util.rs, lib/riscv/src/critical_section.rs)
 as harts that interleave one atomic action at a time. Guards are values, so a hart may drop any of its guards, or
 use `unlocked` on it, in any order; an interrupt may come in whenever it is enabled, and its handler uses locks too.
 */
module IrqLocks {
  /** `Masked`: interrupts are off and the lock is wanted; `Locked`: held; `Releasing`: given back, interrupts as they
      were; `Opening`: as `Releasing`, on the way into `unlocked`; `Open`: inside the closure of `unlocked`. */
  datatype Phase = Masked(once: bool) | Locked | Releasing | Opening | Open

  /** What a hart has: guards, with the interrupt state to restore, and interrupts it is handling, oldest first. */
  datatype Frame = Guard(lock: nat, saved: bool, phase: Phase) | Handler {
    predicate IsHeld() { Guard? && phase.Locked? }

    /** A lock operation is half done. */
    predicate Half() { Guard? && (phase.Masked? || Returning()) }

    /** The lock was given back and interrupts were not yet restored. */
    predicate Returning() { Guard? && (phase.Releasing? || phase.Opening?) }
  }

  datatype Hart = Hart(enabled: bool, stack: seq<Frame>)

  datatype State = State(locks: set<nat>, harts: seq<Hart>)

  /** `i` is the place of a guard among the frames of its hart. */
  datatype Action = Acquire(lock: nat) | TryAcquire(lock: nat) | Interrupt | Return
    | Take(i: nat) | GiveUp(i: nat) | Unlock(i: nat) | Restore(i: nat)
    | Unlocked(i: nat) | Reveal(i: nat) | Rearm(i: nat)
  {
    predicate OnGuard() { !Acquire? && !TryAcquire? && !Interrupt? && !Return? }
  }

  function Start(enabled: seq<bool>): State {
    State({}, seq(|enabled|, i requires 0 <= i < |enabled| => Hart(enabled[i], [])))
  }

  /** The guard belongs to the code that runs now: it was taken since the last interrupt that is being handled. */
  predicate Current(stack: seq<Frame>, i: nat) {
    i < |stack| && forall h | i <= h < |stack| :: stack[h].Guard?
  }

  /** Ordinary code runs: it is not in the middle of a lock operation. */
  predicate Runs(stack: seq<Frame>) {
    forall i | 0 <= i < |stack| && stack[i].Half() :: !Current(stack, i)
  }

  /** Interrupts are enabled again only if they were before; nothing else turns them on. */
  function Release(enabled: bool, saved: bool): bool { if saved then true else enabled }

  function Pop(stack: seq<Frame>): seq<Frame>
    requires stack != []
  {
    stack[..|stack| - 1]
  }

  function Top(stack: seq<Frame>): Frame
    requires stack != []
  {
    stack[|stack| - 1]
  }

  /** The frames with that at `i` replaced. */
  function Splice(stack: seq<Frame>, i: nat, mid: seq<Frame>): seq<Frame>
    requires i < |stack|
  {
    stack[..i] + mid + stack[i + 1..]
  }

  /** What an action does to the lock flags and to its hart; actions that are not possible do nothing. */
  function Act(locks: set<nat>, hart: Hart, a: Action): (set<nat>, Hart) {
    var st := hart.stack;
    if a.Acquire? || a.TryAcquire? then
      if Runs(st) then (locks, Hart(false, st + [Guard(a.lock, hart.enabled, Masked(a.TryAcquire?))]))
        else (locks, hart)
    else if a.Interrupt? then
      if hart.enabled then (locks, Hart(false, st + [Handler])) else (locks, hart)
    else if a.Return? then
      if st != [] && Top(st).Handler? then (locks, Hart(true, Pop(st))) else (locks, hart)
    else if Current(st, a.i) then
      var (locks', on, mid) := ActOnGuard(locks, hart.enabled, Runs(st), st[a.i], a);
      (locks', Hart(on, Splice(st, a.i, mid)))
    else (locks, hart)
  }

  /** What it does to the guard `g`: what is there instead, and the interrupt state. */
  function ActOnGuard(locks: set<nat>, on: bool, runs: bool, g: Frame, a: Action): (set<nat>, bool, seq<Frame>)
    requires g.Guard?
  {
    if a.Take? && g.phase.Masked? && g.lock !in locks then (locks + {g.lock}, on, [g.(phase := Locked)])
    else if a.GiveUp? && g.phase == Masked(true) && g.lock in locks then (locks, Release(on, g.saved), [])
    else if a.Unlock? && runs && g.phase.Locked? then (locks - {g.lock}, on, [g.(phase := Releasing)])
    else if a.Restore? && g.phase.Releasing? then (locks, Release(on, g.saved), [])
    else if a.Unlocked? && runs && g.phase.Locked? then (locks - {g.lock}, on, [g.(phase := Opening)])
    else if a.Reveal? && g.phase.Opening? then (locks, Release(on, g.saved), [g.(phase := Open)])
    else if a.Rearm? && runs && g.phase.Open? then (locks, false, [Guard(g.lock, on, Masked(false))])
    else (locks, on, [g])
  }

  function Step(s: State, h: nat, a: Action): State {
    if h >= |s.harts| then s
    else
      var (locks, hart) := Act(s.locks, s.harts[h], a);
      State(locks, s.harts[h := hart])
  }

  function Run(enabled: seq<bool>, events: seq<(nat, Action)>): State {
    if events == [] then Start(enabled)
    else
      var (h, a) := events[|events| - 1];
      Step(Run(enabled, events[..|events| - 1]), h, a)
  }

  lemma {:induction false} RunMore(enabled: seq<bool>, events: seq<(nat, Action)>, n: nat)
    requires n < |events|
    ensures Run(enabled, events[..n + 1]) == Step(Run(enabled, events[..n]), events[n].0, events[n].1)
  {
    assert events[..n + 1][..n] == events[..n];
  }

  // ---- Locks ----

  function One(f: Frame, l: nat): nat {
    if f.IsHeld() && f.lock == l then 1 else 0
  }

  /** How many of a hart's guards hold the lock `l`. */
  function Count(stack: seq<Frame>, l: nat): nat {
    if stack == [] then 0 else Count(Pop(stack), l) + One(Top(stack), l)
  }

  function CountAll(harts: seq<Hart>, l: nat): nat {
    if harts == [] then 0 else CountAll(harts[..|harts| - 1], l) + Count(harts[|harts| - 1].stack, l)
  }

  function Flag(locks: set<nat>, l: nat): nat {
    if l in locks then 1 else 0
  }

  /** Every lock whose flag is set is held once, and no other is. */
  ghost predicate Exclusive(s: State) {
    forall l: nat :: CountAll(s.harts, l) == Flag(s.locks, l)
  }

  lemma {:induction false} CountCat(a: seq<Frame>, b: seq<Frame>, l: nat)
    ensures Count(a + b, l) == Count(a, l) + Count(b, l)
    decreases |b|
  {
    if b == [] {
      assert a + b == a;
    } else {
      assert Pop(a + b) == a + Pop(b);
      CountCat(a, Pop(b), l);
    }
  }

  lemma {:induction false} CountPush(stack: seq<Frame>, f: Frame, l: nat)
    ensures Count(stack + [f], l) == Count(stack, l) + One(f, l)
  {
    assert Pop(stack + [f]) == stack;
  }

  lemma {:induction false} CountSplice(stack: seq<Frame>, i: nat, mid: seq<Frame>, l: nat)
    requires i < |stack|
    ensures Count(Splice(stack, i, mid), l) + One(stack[i], l) == Count(stack, l) + Count(mid, l)
    ensures Count(stack, l) == Count(stack[..i], l) + One(stack[i], l) + Count(stack[i + 1..], l)
  {
    hide Count;
    CountCat(stack[..i] + mid, stack[i + 1..], l);
    CountCat(stack[..i], mid, l);
    CountCat(stack[..i] + [stack[i]], stack[i + 1..], l);
    CountPush(stack[..i], stack[i], l);
    assert stack == stack[..i] + [stack[i]] + stack[i + 1..];
  }

  lemma {:induction false} CountAllCat(a: seq<Hart>, b: seq<Hart>, l: nat)
    ensures CountAll(a + b, l) == CountAll(a, l) + CountAll(b, l)
    decreases |b|
  {
    if b == [] {
      assert a + b == a;
    } else {
      var n := |b| - 1;
      assert (a + b)[..|a + b| - 1] == a + b[..n];
      CountAllCat(a, b[..n], l);
    }
  }

  lemma {:induction false} CountAllAt(harts: seq<Hart>, h: nat, l: nat)
    requires h < |harts|
    ensures CountAll(harts, l) == CountAll(harts[..h], l) + Count(harts[h].stack, l) + CountAll(harts[h + 1..], l)
  {
    hide Count;
    var first := harts[..h + 1];
    CountAllCat(first, harts[h + 1..], l);
    assert first[..h] == harts[..h];
    assert harts == first + harts[h + 1..];
  }

  /** An action takes a free lock, gives back one its hart holds, or does neither. */
  lemma {:induction false} ActCount(locks: set<nat>, hart: Hart, a: Action, l: nat)
    requires Count(hart.stack, l) <= Flag(locks, l)
    ensures var (locks', hart') := Act(locks, hart, a);
      Flag(locks', l) + Count(hart.stack, l) == Flag(locks, l) + Count(hart'.stack, l)
  {
    hide Count, Runs, Splice;
    var st := hart.stack;
    if a.OnGuard() && Current(st, a.i) {
      var (locks', on, mid) := ActOnGuard(locks, hart.enabled, Runs(st), st[a.i], a);
      CountSplice(st, a.i, mid, l);
      CountFew(mid, l);
    } else {
      CountPush(st, Handler, l);
      if st != [] {
        CountPush(Pop(st), Top(st), l);
        assert st == Pop(st) + [Top(st)];
      }
      if a.Acquire? || a.TryAcquire? {
        CountPush(st, Guard(a.lock, hart.enabled, Masked(a.TryAcquire?)), l);
      }
    }
  }

  lemma {:induction false} CountFew(mid: seq<Frame>, l: nat)
    requires |mid| <= 1
    ensures Count(mid, l) == if mid == [] then 0 else One(mid[0], l)
  {
    assert mid != [] ==> Pop(mid) == [];
  }

  lemma {:induction false} StepExclusive(s: State, h: nat, a: Action)
    requires Exclusive(s)
    ensures Exclusive(Step(s, h, a))
  {
    hide CountAll, Count, Act, Flag;
    if h < |s.harts| {
      var harts := s.harts;
      var (locks', hart') := Act(s.locks, harts[h], a);
      var harts' := harts[h := hart'];
      assert harts'[..h] == harts[..h] && harts'[h + 1..] == harts[h + 1..];
      forall l: nat ensures CountAll(harts', l) == Flag(locks', l) {
        CountAllAt(harts, h, l);
        CountAllAt(harts', h, l);
        ActCount(s.locks, harts[h], a, l);
      }
    }
  }

  lemma {:induction false} RunExclusive(enabled: seq<bool>, events: seq<(nat, Action)>)
    ensures Exclusive(Run(enabled, events)) && |Run(enabled, events).harts| == |enabled|
    decreases |events|
  {
    hide Exclusive, Act;
    if events == [] {
      StartExclusive(enabled);
    } else {
      var (h, a) := events[|events| - 1];
      RunExclusive(enabled, events[..|events| - 1]);
      StepExclusive(Run(enabled, events[..|events| - 1]), h, a);
    }
  }

  lemma {:induction false} StartExclusive(enabled: seq<bool>)
    ensures Exclusive(Start(enabled))
  {
    forall l: nat ensures CountAll(Start(enabled).harts, l) == 0 {
      CountIdle(Start(enabled).harts, l);
    }
  }

  lemma {:induction false} CountIdle(harts: seq<Hart>, l: nat)
    requires forall h | 0 <= h < |harts| :: harts[h].stack == []
    ensures CountAll(harts, l) == 0
    decreases |harts|
  {
    if harts != [] {
      CountIdle(harts[..|harts| - 1], l);
    }
  }

  /** Frame `i` of hart `h` holds the lock `l`. */
  predicate Holds(s: State, h: nat, i: nat, l: nat) {
    h < |s.harts| && i < |s.harts[h].stack| && s.harts[h].stack[i].IsHeld() && s.harts[h].stack[i].lock == l
  }

  lemma {:induction false} CountTwo(stack: seq<Frame>, i: nat, j: nat, l: nat)
    requires i < j < |stack|
    ensures Count(stack, l) >= One(stack[i], l) + One(stack[j], l)
  {
    hide Count;
    CountSplice(stack, i, [], l);
    CountSplice(stack[i + 1..], j - i - 1, [], l);
    assert stack[i + 1..][j - i - 1] == stack[j];
  }

  lemma {:induction false} CountAllTwo(harts: seq<Hart>, g: nat, h: nat, l: nat)
    requires g < h < |harts|
    ensures CountAll(harts, l) >= Count(harts[g].stack, l) + Count(harts[h].stack, l)
  {
    hide Count, CountAll;
    CountAllAt(harts, g, l);
    CountAllAt(harts[g + 1..], h - g - 1, l);
    assert harts[g + 1..][h - g - 1] == harts[h];
  }

  lemma {:induction false} HeldOnce(s: State, h: nat, i: nat, h': nat, i': nat, l: nat)
    requires Exclusive(s) && Holds(s, h, i, l) && Holds(s, h', i', l)
    ensures h == h' && i == i' && l in s.locks
  {
    hide CountAll, Count;
    CountAllAt(s.harts, h, l);
    CountSplice(s.harts[h].stack, i, [], l);
    CountSplice(s.harts[h'].stack, i', [], l);
    if h == h' && i != i' {
      CountTwo(s.harts[h].stack, if i < i' then i else i', if i < i' then i' else i, l);
    } else if h != h' {
      CountAllTwo(s.harts, if h < h' then h else h', if h < h' then h' else h, l);
    }
  }

  /** In every interleaving, in whatever order guards are dropped, no lock is held twice and the flags say which are
      held. */
  lemma {:induction false} LocksExclude(enabled: seq<bool>, events: seq<(nat, Action)>)
    ensures var s := Run(enabled, events);
      && (forall h, i, l | Holds(s, h, i, l) :: l in s.locks)
      && (forall h, i, h', i', l | Holds(s, h, i, l) && Holds(s, h', i', l) :: h == h' && i == i')
  {
    hide Run, Exclusive;
    RunExclusive(enabled, events);
    var s := Run(enabled, events);
    forall h, i, h', i', l | Holds(s, h, i, l) && Holds(s, h', i', l) ensures h == h' && i == i' && l in s.locks {
      HeldOnce(s, h, i, h', i', l);
    }
  }

  // ---- When interrupts stay off ----

  ghost predicate HoldsSome(stack: seq<Frame>) {
    exists i :: 0 <= i < |stack| && stack[i].IsHeld()
  }

  /** No hart holds a lock with interrupts on. */
  ghost predicate Safe(s: State) {
    forall h | 0 <= h < |s.harts| :: s.harts[h].enabled ==> !HoldsSome(s.harts[h].stack)
  }

  /** The hart holds a lock other than that of its guard `i`. */
  ghost predicate HoldsOther(stack: seq<Frame>, i: nat) {
    exists j :: 0 <= j < |stack| && j != i && stack[j].IsHeld()
  }

  /** A guard that was taken with interrupts on is dropped, or opened by `unlocked`, while its hart holds another
      lock. */
  ghost predicate Risky(s: State, h: nat, a: Action) {
    && h < |s.harts| && (a.Unlock? || a.Unlocked?)
    && var st := s.harts[h].stack;
       Current(st, a.i) && Runs(st) && st[a.i].IsHeld() && st[a.i].saved && HoldsOther(st, a.i)
  }

  /** No drop or `unlocked` is half done. */
  ghost predicate Settled(s: State) {
    forall h, i | 0 <= h < |s.harts| && 0 <= i < |s.harts[h].stack| :: !s.harts[h].stack[i].Returning()
  }

  /** Of two half-done operations the later one is in a handler that interrupted the earlier one. */
  ghost predicate OneAtATime(stack: seq<Frame>) {
    forall i, j | 0 <= i < j < |stack| && stack[i].Half() && stack[j].Half() :: !Current(stack[..j], i)
  }

  /** What a hart keeps as long as nothing risky happens. */
  ghost predicate Calm(hart: Hart) {
    var st := hart.stack;
    && OneAtATime(st)
    && (hart.enabled ==> !HoldsSome(st))
    && (forall h | 0 <= h < |st| && st[h].Handler? :: !HoldsSome(st[..h]))
    && (forall i | 0 <= i < |st| && st[i].Half() && st[i].saved && Current(st, i) :: !HoldsSome(st))
    && (forall i | 0 <= i < |st| && st[i].Guard? && st[i].phase.Masked? :: !hart.enabled && Current(st, i))
  }

  /** Only one operation of the code that runs now is half done. */
  lemma {:induction false} OnlyHalf(stack: seq<Frame>, i: nat, j: nat)
    requires OneAtATime(stack) && Current(stack, i) && Current(stack, j) && stack[i].Half() && stack[j].Half()
    ensures i == j
  {
    hide OneAtATime;
    if i != j {
      EarlierHalf(stack, if i < j then i else j, if i < j then j else i);
    }
  }

  lemma {:induction false} EarlierHalf(stack: seq<Frame>, i: nat, j: nat)
    requires OneAtATime(stack) && i < j < |stack| && stack[i].Half() && stack[j].Half()
    ensures !Current(stack, i)
  {
    assert Current(stack, i) ==> Current(stack[..j], i);
  }

  lemma {:induction false} CalmAcquire(hart: Hart, g: Frame)
    requires Calm(hart) && Runs(hart.stack) && g.Guard? && g.phase.Masked? && g.saved == hart.enabled
    ensures Calm(Hart(false, hart.stack + [g]))
  {
    var st, n := hart.stack, |hart.stack|;
    var st' := st + [g];
    forall i: nat ensures i <= n ==> st'[..i] == st[..i] {
    }
    assert st'[..n] == st;
    forall i: nat | i < n ensures Current(st', i) <==> Current(st, i) {
      assert Current(st', i) ==> Current(st, i) by { assert forall h | i <= h < n :: st'[h] == st[h]; }
    }
    assert HoldsSome(st') ==> HoldsSome(st);
  }

  lemma {:induction false} CalmInterrupt(hart: Hart)
    requires Calm(hart) && hart.enabled
    ensures Calm(Hart(false, hart.stack + [Handler]))
  {
    var st, n := hart.stack, |hart.stack|;
    var st' := st + [Handler];
    forall i: nat ensures i <= n ==> st'[..i] == st[..i] {
    }
    assert st'[..n] == st;
    assert forall i: nat | i < n :: !Current(st', i) by { assert st'[n].Handler?; }
  }

  lemma {:induction false} CalmReturn(hart: Hart)
    requires Calm(hart) && hart.stack != [] && Top(hart.stack).Handler?
    ensures Calm(Hart(true, Pop(hart.stack)))
  {
    var st, n := hart.stack, |hart.stack| - 1;
    var st' := Pop(st);
    assert st[..n] == st' && !HoldsSome(st');
    forall i: nat ensures i <= n ==> st'[..i] == st[..i] {
    }
    assert forall i: nat | i < n :: !Current(st, i) by { assert st[n].Handler?; }
  }

  /** No other operation of the code that runs now is half done. */
  ghost predicate Alone(stack: seq<Frame>, i: nat) {
    forall j | 0 <= j < |stack| && j != i && stack[j].Half() :: !Current(stack, j)
  }

  lemma {:induction false} CalmSet(hart: Hart, i: nat, g: Frame, on: bool)
    requires Calm(hart) && Current(hart.stack, i) && Alone(hart.stack, i) && g.Guard? && (g.phase.Masked? ==> !on)
    requires on || (g.Half() && g.saved) ==> !HoldsSome(hart.stack[i := g])
    ensures Calm(Hart(on, hart.stack[i := g]))
  {
    var st, st' := hart.stack, hart.stack[i := g];
    forall j: nat ensures j <= i ==> st'[..j] == st[..j] {
    }
    forall j: nat | j < |st| ensures Current(st', j) <==> Current(st, j) {
      assert Current(st, j) ==> Current(st', j) by { assert forall h | j <= h < |st| && h != i :: st'[h] == st[h]; }
      assert Current(st', j) ==> Current(st, j) by { assert forall h | j <= h < |st| && h != i :: st'[h] == st[h]; }
    }
    forall j | i < j < |st| ensures !st'[j].Half() && st'[j].Guard? {
      assert st'[j] == st[j] && Current(st, j);
    }
    forall j, k | 0 <= j < k < |st'| && st'[j].Half() && st'[k].Half() ensures !Current(st'[..k], j) {
      assert k <= i && st'[j] == st[j];
      if k == i {
        assert !Current(st, j);
        BelowCurrent(st, j, i);
      }
    }
  }

  /** What is not current below a current guard is not current on its own either. */
  lemma {:induction false} BelowCurrent(stack: seq<Frame>, j: nat, i: nat)
    requires j < i && Current(stack, i) && !Current(stack, j)
    ensures !Current(stack[..i], j)
  {
    var h :| j <= h < |stack| && !stack[h].Guard?;
    assert h < i && stack[..i][h] == stack[h];
  }

  lemma {:induction false} CalmRemove(hart: Hart, i: nat, on: bool)
    requires Calm(hart) && Current(hart.stack, i) && Alone(hart.stack, i) && (on ==> !HoldsOther(hart.stack, i))
    ensures Calm(Hart(on, Splice(hart.stack, i, [])))
  {
    var st, st' := hart.stack, Splice(hart.stack, i, []);
    forall j: nat ensures j <= i ==> st'[..j] == st[..j] {
    }
    forall j | 0 <= j < |st'| ensures st'[j] == if j < i then st[j] else st[j + 1] {
    }
    forall j | i <= j < |st'| ensures !st'[j].Half() && st'[j].Guard? {
      assert st'[j] == st[j + 1] && Current(st, j + 1);
    }
    forall j: nat | j < i && st[j].Half() ensures !Current(st', j) {
      var h :| j <= h < |st| && !st[h].Guard?;
      assert h < i && st'[h] == st[h];
    }
    assert on ==> !HoldsSome(st');
  }

  /** As long as nothing risky happens, a hart with interrupts on holds no lock. */
  lemma {:induction false} ActCalm(locks: set<nat>, hart: Hart, a: Action)
    requires Calm(hart)
    requires (a.Unlock? || a.Unlocked?) && Current(hart.stack, a.i) ==>
      hart.stack[a.i].IsHeld() && hart.stack[a.i].saved ==> !HoldsOther(hart.stack, a.i)
    ensures Calm(Act(locks, hart, a).1)
  {
    hide Calm, Runs;
    var st := hart.stack;
    if a.OnGuard() {
      if Current(st, a.i) {
        GuardCalm(locks, hart, a);
      }
    } else if a.Acquire? || a.TryAcquire? {
      if Runs(st) {
        CalmAcquire(hart, Guard(a.lock, hart.enabled, Masked(a.TryAcquire?)));
      }
    } else if a.Interrupt? {
      if hart.enabled {
        CalmInterrupt(hart);
      }
    } else if st != [] && Top(st).Handler? {
      CalmReturn(hart);
    }
  }

  lemma {:induction false} GuardCalm(locks: set<nat>, hart: Hart, a: Action)
    requires Calm(hart) && a.OnGuard() && Current(hart.stack, a.i)
    requires (a.Unlock? || a.Unlocked?) && hart.stack[a.i].IsHeld() && hart.stack[a.i].saved ==>
      !HoldsOther(hart.stack, a.i)
    ensures Calm(Act(locks, hart, a).1)
  {
    hide Calm, Runs, HoldsSome, HoldsOther, Alone, Splice;
    var st, i, g := hart.stack, a.i, hart.stack[a.i];
    var (locks', on, mid) := ActOnGuard(locks, hart.enabled, Runs(st), g, a);
    SpliceSelf(st, i);
    if mid != [g] {
      AloneAt(hart, i);
      HeldAt(hart, i);
      if mid == [] {
        CalmRemove(hart, i, on);
      } else {
        SpliceOne(st, i, mid[0]);
        SetHeld(st, i, mid[0]);
        CalmSet(hart, i, mid[0], on);
      }
    }
  }

  lemma {:induction false} SpliceSelf(stack: seq<Frame>, i: nat)
    requires i < |stack|
    ensures Splice(stack, i, [stack[i]]) == stack
  {
  }

  lemma {:induction false} SpliceOne(stack: seq<Frame>, i: nat, g: Frame)
    requires i < |stack|
    ensures Splice(stack, i, [g]) == stack[i := g]
  {
  }

  lemma {:induction false} AloneAt(hart: Hart, i: nat)
    requires Calm(hart) && Current(hart.stack, i) && (hart.stack[i].Half() || Runs(hart.stack))
    ensures Alone(hart.stack, i)
  {
    hide HoldsSome, OneAtATime;
    var st := hart.stack;
    forall j | 0 <= j < |st| && j != i && st[j].Half() ensures !Current(st, j) {
      if Current(st, j) && st[i].Half() {
        OnlyHalf(st, i, j);
      }
    }
  }

  /** Where interrupts are on, or will be when a half-done operation ends, no other lock is held. */
  lemma {:induction false} HeldAt(hart: Hart, i: nat)
    requires Calm(hart) && Current(hart.stack, i)
    ensures hart.enabled || (hart.stack[i].Half() && hart.stack[i].saved) ==> !HoldsOther(hart.stack, i)
    ensures hart.stack[i].phase.Masked? ==> !hart.enabled
  {
    assert HoldsOther(hart.stack, i) ==> HoldsSome(hart.stack);
  }

  lemma {:induction false} SetHeld(stack: seq<Frame>, i: nat, g: Frame)
    requires i < |stack|
    ensures HoldsSome(stack[i := g]) <==> g.IsHeld() || HoldsOther(stack, i)
  {
    var st := stack[i := g];
    if g.IsHeld() {
      assert st[i].IsHeld();
    }
    if HoldsOther(stack, i) {
      var j :| 0 <= j < |stack| && j != i && stack[j].IsHeld();
      assert st[j].IsHeld();
    }
    if HoldsSome(st) && !g.IsHeld() {
      var j :| 0 <= j < |st| && st[j].IsHeld();
      assert j != i && stack[j].IsHeld();
    }
  }

  // ---- Every run ----

  ghost predicate AllCalm(s: State) {
    forall h | 0 <= h < |s.harts| :: Calm(s.harts[h])
  }

  lemma {:induction false} StepCalm(s: State, h: nat, a: Action)
    requires AllCalm(s) && !Risky(s, h, a)
    ensures AllCalm(Step(s, h, a))
  {
    hide Calm, Act, Runs;
    if h < |s.harts| {
      if Runs(s.harts[h].stack) || !(a.Unlock? || a.Unlocked?) {
        ActCalm(s.locks, s.harts[h], a);
      } else {
        NotRunning(s.locks, s.harts[h], a);
      }
    }
  }

  lemma {:induction false} NotRunning(locks: set<nat>, hart: Hart, a: Action)
    requires !Runs(hart.stack) && (a.Unlock? || a.Unlocked?)
    ensures Act(locks, hart, a).1 == hart
  {
    hide Runs;
    if Current(hart.stack, a.i) {
      SpliceSelf(hart.stack, a.i);
    }
  }

  ghost predicate RiskyAt(enabled: seq<bool>, events: seq<(nat, Action)>, n: nat)
    requires n < |events|
  {
    Risky(Run(enabled, events[..n]), events[n].0, events[n].1)
  }

  lemma {:induction false} CalmRun(enabled: seq<bool>, events: seq<(nat, Action)>, n: nat)
    requires n <= |events| && forall i | 0 <= i < n :: !RiskyAt(enabled, events, i)
    ensures AllCalm(Run(enabled, events[..n]))
    decreases n
  {
    hide Calm, Risky, Step;
    if n == 0 {
      CalmStart(enabled);
    } else {
      CalmRun(enabled, events, n - 1);
      assert !RiskyAt(enabled, events, n - 1);
      StepCalm(Run(enabled, events[..n - 1]), events[n - 1].0, events[n - 1].1);
      RunMore(enabled, events, n - 1);
    }
  }

  lemma {:induction false} CalmStart(enabled: seq<bool>)
    ensures AllCalm(Start(enabled))
  {
  }

  lemma {:induction false} CalmSafe(s: State)
    requires AllCalm(s)
    ensures Safe(s) && forall h | 0 <= h < |s.harts| :: !Doomed(s.harts[h])
  {
    forall h | 0 <= h < |s.harts| ensures !Doomed(s.harts[h]) {
      var hart := s.harts[h];
      assert Calm(hart);
      forall i | 0 <= i < |hart.stack| && HoldsOther(hart.stack, i) ensures HoldsSome(hart.stack) {
      }
    }
  }

  /** Once a risky call is made, the hart can do nothing but turn interrupts on while it holds a lock. */
  ghost predicate Doomed(hart: Hart) {
    !hart.enabled && OneAtATime(hart.stack) && exists i: nat :: DoomedAt(hart.stack, i)
  }

  ghost predicate DoomedAt(stack: seq<Frame>, i: nat) {
    Current(stack, i) && stack[i].Returning() && stack[i].saved && HoldsOther(stack, i)
  }

  lemma {:induction false} RiskyDooms(s: State, h: nat, a: Action)
    requires AllCalm(s) && Risky(s, h, a)
    ensures Doomed(Step(s, h, a).harts[h])
  {
    hide Runs;
    var hart, i := s.harts[h], a.i;
    var g := hart.stack[i].(phase := if a.Unlock? then Releasing else Opening);
    var st := hart.stack[i := g];
    SpliceOne(hart.stack, i, g);
    assert Calm(hart) && HoldsSome(hart.stack);
    assert OneAtATime(st) by {
      AloneAt(hart, i);
      SetOneAtATime(hart.stack, i, g);
    }
    assert HoldsOther(st, i) by {
      var j :| 0 <= j < |st| && j != i && hart.stack[j].IsHeld();
      assert st[j].IsHeld();
    }
    assert DoomedAt(st, i);
  }

  lemma {:induction false} SetOneAtATime(stack: seq<Frame>, i: nat, g: Frame)
    requires OneAtATime(stack) && Current(stack, i) && Alone(stack, i) && g.Guard?
    ensures OneAtATime(stack[i := g])
  {
    var st := stack[i := g];
    forall j: nat ensures j <= i ==> st[..j] == stack[..j] {
    }
    forall j | i < j < |st| ensures !st[j].Half() {
      assert st[j] == stack[j] && Current(stack, j);
    }
    forall j, k | 0 <= j < k < |st| && st[j].Half() && st[k].Half() ensures !Current(st[..k], j) {
      assert k <= i && st[j] == stack[j];
      if k == i {
        BelowCurrent(stack, j, i);
      }
    }
  }

  lemma {:induction false} DoomedAct(locks: set<nat>, hart: Hart, a: Action)
    requires Doomed(hart)
    ensures var hart' := Act(locks, hart, a).1; hart' == hart || (hart'.enabled && HoldsSome(hart'.stack))
  {
    hide Runs, HoldsSome, HoldsOther, OneAtATime, ActOnGuard, Splice;
    var st := hart.stack;
    var i: nat :| DoomedAt(st, i);
    NotRuns(st, i);
    if a.OnGuard() && Current(st, a.i) {
      SpliceSelf(st, a.i);
      if a.i == i {
        ReleaseHolds(st, i);
        OnlyReturns(locks, st[i], a);
      } else {
        if st[a.i].Half() {
          OnlyHalf(st, i, a.i);
        }
        NothingToDo(locks, st[a.i], a);
      }
    }
  }

  lemma {:induction false} OnlyReturns(locks: set<nat>, g: Frame, a: Action)
    requires g.Returning() && g.saved
    ensures var r := ActOnGuard(locks, false, false, g, a); (r.1 == false && r.2 == [g]) || (r.1 && |r.2| <= 1)
  {
  }

  lemma {:induction false} NothingToDo(locks: set<nat>, g: Frame, a: Action)
    requires g.Guard? && !g.Half()
    ensures ActOnGuard(locks, false, false, g, a) == (locks, false, [g])
  {
  }

  lemma {:induction false} NotRuns(stack: seq<Frame>, i: nat)
    requires Current(stack, i) && stack[i].Half()
    ensures !Runs(stack)
  {
  }

  lemma {:induction false} ReleaseHolds(stack: seq<Frame>, i: nat)
    requires i < |stack| && HoldsOther(stack, i)
    ensures forall mid | |mid| <= 1 :: HoldsSome(Splice(stack, i, mid))
  {
    var j :| 0 <= j < |stack| && j != i && stack[j].IsHeld();
    forall mid | |mid| <= 1 ensures HoldsSome(Splice(stack, i, mid)) {
      assert Splice(stack, i, mid)[if j < i then j else j - 1 + |mid|] == stack[j];
    }
  }

  /** A doomed hart stays doomed until it holds a lock with interrupts on. */
  lemma {:induction false} DoomedRun(enabled: seq<bool>, events: seq<(nat, Action)>, n: nat, h: nat)
    requires n <= |events| && h < |Run(enabled, events[..n]).harts| && Doomed(Run(enabled, events[..n]).harts[h])
    requires forall m | n <= m <= |events| :: Safe(Run(enabled, events[..m]))
    ensures h < |Run(enabled, events).harts| && Doomed(Run(enabled, events).harts[h])
    decreases |events| - n
  {
    hide Run, Act, Doomed, HoldsSome;
    if n == |events| {
      assert events[..n] == events;
    } else {
      RunMore(enabled, events, n);
      var s := Run(enabled, events[..n]);
      if events[n].0 == h {
        DoomedAct(s.locks, s.harts[h], events[n].1);
        assert Safe(Run(enabled, events[..n + 1]));
      }
      DoomedRun(enabled, events, n + 1, h);
    }
  }

  ghost predicate StaysSafe(enabled: seq<bool>, events: seq<(nat, Action)>) {
    forall n | 0 <= n <= |events| :: Safe(Run(enabled, events[..n]))
  }

  ghost predicate NothingRisky(enabled: seq<bool>, events: seq<(nat, Action)>) {
    forall n | 0 <= n < |events| :: !RiskyAt(enabled, events, n)
  }

  /**
   In every interleaving: no hart ever holds a lock with interrupts on, nor is bound to when it ends the drop it is
   in, exactly if no guard that was taken with interrupts on is dropped, or opened by `unlocked`, while its hart
   holds another lock.
   */
  lemma {:induction false} SafeIff(enabled: seq<bool>, events: seq<(nat, Action)>)
    ensures NothingRisky(enabled, events) <==>
      StaysSafe(enabled, events) && forall h | 0 <= h < |Run(enabled, events).harts| ::
        !Doomed(Run(enabled, events).harts[h])
    ensures Settled(Run(enabled, events)) ==> (StaysSafe(enabled, events) <==> NothingRisky(enabled, events))
  {
    hide Run, Risky, Doomed, Safe, AllCalm;
    assert events[..|events|] == events;
    if NothingRisky(enabled, events) {
      forall n | 0 <= n <= |events| ensures Safe(Run(enabled, events[..n])) {
        CalmRun(enabled, events, n);
        CalmSafe(Run(enabled, events[..n]));
      }
      CalmRun(enabled, events, |events|);
      CalmSafe(Run(enabled, events));
    } else if StaysSafe(enabled, events) {
      var h := RiskyEnds(enabled, events);
      NotSettled(Run(enabled, events), h);
    }
  }

  lemma {:induction false} NotSettled(s: State, h: nat)
    requires h < |s.harts| && Doomed(s.harts[h])
    ensures !Settled(s)
  {
    hide OneAtATime, HoldsOther;
    var i: nat :| DoomedAt(s.harts[h].stack, i);
    assert s.harts[h].stack[i].Returning();
  }

  lemma {:induction false} RiskyEnds(enabled: seq<bool>, events: seq<(nat, Action)>) returns (h: nat)
    requires StaysSafe(enabled, events) && !NothingRisky(enabled, events)
    ensures h < |Run(enabled, events).harts| && Doomed(Run(enabled, events).harts[h])
  {
    hide Run, Doomed, Safe, AllCalm, Step;
    var n := FirstRisky(enabled, events, |events|);
    CalmRun(enabled, events, n);
    h := events[n].0;
    RunMore(enabled, events, n);
    StepSize(Run(enabled, events[..n]), h, events[n].1);
    RiskyDooms(Run(enabled, events[..n]), h, events[n].1);
    DoomedRun(enabled, events, n + 1, h);
  }

  lemma {:induction false} StepSize(s: State, h: nat, a: Action)
    ensures |Step(s, h, a).harts| == |s.harts|
  {
  }

  lemma {:induction false} FirstRisky(enabled: seq<bool>, events: seq<(nat, Action)>, m: nat) returns (n: nat)
    requires m <= |events| && exists i :: 0 <= i < m && RiskyAt(enabled, events, i)
    ensures n < |events| && RiskyAt(enabled, events, n) && forall i | 0 <= i < n :: !RiskyAt(enabled, events, i)
    decreases m
  {
    hide RiskyAt;
    if exists i :: 0 <= i < m - 1 && RiskyAt(enabled, events, i) {
      n := FirstRisky(enabled, events, m - 1);
    } else {
      n := m - 1;
    }
  }

  /** A lock is held with interrupts on after two guards were dropped in the order in which they were taken. */
  lemma {:induction false} OutOfOrder()
    ensures var s := Run([true],
      [(0, Acquire(7)), (0, Take(0)), (0, Acquire(8)), (0, Take(1)), (0, Unlock(0)), (0, Restore(0))]);
      s.locks == {8} && s.harts == [Hart(true, [Guard(8, false, Locked)])] && !Safe(s)
  {
    hide Run, Act;
    var e: seq<(nat, Action)> := [(0, Acquire(7)), (0, Take(0)), (0, Acquire(8)), (0, Take(1)), (0, Unlock(0)),
      (0, Restore(0))];
    var a, b := Guard(7, true, Locked), Guard(8, false, Locked);
    var a', b', c := a.(phase := Masked(false)), b.(phase := Masked(false)), a.(phase := Releasing);
    assert Run([true], e[..0]) == State({}, [Hart(true, [])]) by { AtStart(e[..0]); }
    TwoTaken(a, a', b, b');
    TwoDropped(a, b, c);
    OneHart(e, 0, {}, Hart(true, []), {}, Hart(false, [a']));
    OneHart(e, 1, {}, Hart(false, [a']), {7}, Hart(false, [a]));
    OneHart(e, 2, {7}, Hart(false, [a]), {7}, Hart(false, [a, b']));
    OneHart(e, 3, {7}, Hart(false, [a, b']), {7, 8}, Hart(false, [a, b]));
    OneHart(e, 4, {7, 8}, Hart(false, [a, b]), {8}, Hart(false, [c, b]));
    OneHart(e, 5, {8}, Hart(false, [c, b]), {8}, Hart(true, [b]));
    assert e[..6] == e;
    assert Run([true], e).harts[0].stack[0].IsHeld();
  }

  lemma {:induction false} AtStart(e: seq<(nat, Action)>)
    requires e == []
    ensures Run([true], e) == State({}, [Hart(true, [])])
  {
    assert Start([true]).harts == [Hart(true, [])];
  }

  lemma {:induction false} TwoTaken(a: Frame, a': Frame, b: Frame, b': Frame)
    requires a == Guard(7, true, Locked) && a' == a.(phase := Masked(false)) && b == Guard(8, false, Locked)
    requires b' == b.(phase := Masked(false))
    ensures Act({}, Hart(true, []), Acquire(7)) == ({}, Hart(false, [a']))
    ensures Act({}, Hart(false, [a']), Take(0)) == ({7}, Hart(false, [a]))
    ensures Act({7}, Hart(false, [a]), Acquire(8)) == ({7}, Hart(false, [a, b']))
    ensures Act({7}, Hart(false, [a, b']), Take(1)) == ({7, 8}, Hart(false, [a, b]))
  {
    assert [] + [a'] == [a'] && [a] + [b'] == [a, b'];
    assert Splice([a'], 0, [a]) == [a] && Splice([a, b'], 1, [b]) == [a, b];
    assert {} + {7} == {7} && {7} + {8} == {7, 8};
  }

  lemma {:induction false} TwoDropped(a: Frame, b: Frame, c: Frame)
    requires a == Guard(7, true, Locked) && b == Guard(8, false, Locked) && c == a.(phase := Releasing)
    ensures Act({7, 8}, Hart(false, [a, b]), Unlock(0)) == ({8}, Hart(false, [c, b]))
    ensures Act({8}, Hart(false, [c, b]), Restore(0)) == ({8}, Hart(true, [b]))
  {
    assert Splice([a, b], 0, [c]) == [c, b] && Splice([c, b], 0, []) == [b];
    assert {7, 8} - {7} == {8};
  }

  lemma {:induction false} OneHart(e: seq<(nat, Action)>, n: nat, locks: set<nat>, hart: Hart, locks': set<nat>,
                                   hart': Hart)
    requires n < |e| && e[n].0 == 0 && Run([true], e[..n]) == State(locks, [hart])
    requires Act(locks, hart, e[n].1) == (locks', hart')
    ensures Run([true], e[..n + 1]) == State(locks', [hart'])
  {
    hide Act, Run;
    RunMore([true], e, n);
  }

  // ---- Last in, first out ----

  /** The hart's last guard is used. */
  predicate OnLast(s: State, h: nat, a: Action) {
    h < |s.harts| && a.OnGuard() ==> a.i + 1 >= |s.harts[h].stack|
  }

  ghost predicate LastFirst(enabled: seq<bool>, events: seq<(nat, Action)>) {
    forall n | 0 <= n < |events| :: OnLast(Run(enabled, events[..n]), events[n].0, events[n].1)
  }

  /** The interrupt state that a stack of frames brings about on a hart that started with `base`. */
  function Level(base: bool, stack: seq<Frame>): bool {
    if stack == [] then base
    else Top(stack).Guard? && Top(stack).phase.Open? && Level(base, Pop(stack))
  }

  /** Every guard saved the state below it, and handlers run only where interrupts were on. */
  ghost predicate Nested(base: bool, stack: seq<Frame>) {
    stack == [] ||
    (Nested(base, Pop(stack)) && if Top(stack).Guard? then Top(stack).saved == Level(base, Pop(stack))
      else Level(base, Pop(stack)))
  }

  lemma {:induction false} NestedPush(base: bool, stack: seq<Frame>, f: Frame)
    ensures Nested(base, stack + [f]) <==>
      Nested(base, stack) && if f.Guard? then f.saved == Level(base, stack) else Level(base, stack)
    ensures Level(base, stack + [f]) <==> f.Guard? && f.phase.Open? && Level(base, stack)
  {
    assert Pop(stack + [f]) == stack && Top(stack + [f]) == f;
  }

  lemma {:induction false} NestedTop(base: bool, stack: seq<Frame>)
    requires stack != []
    ensures stack == Pop(stack) + [Top(stack)]
    ensures Nested(base, stack) <==>
      Nested(base, Pop(stack)) && if Top(stack).Guard? then Top(stack).saved == Level(base, Pop(stack))
        else Level(base, Pop(stack))
    ensures Level(base, stack) <==> Top(stack).Guard? && Top(stack).phase.Open? && Level(base, Pop(stack))
  {
    assert stack == Pop(stack) + [Top(stack)];
    NestedPush(base, Pop(stack), Top(stack));
  }

  lemma {:induction false} ActKeepsLevel(base: bool, locks: set<nat>, hart: Hart, a: Action)
    requires Nested(base, hart.stack) && hart.enabled == Level(base, hart.stack)
    requires a.OnGuard() ==> a.i + 1 >= |hart.stack|
    ensures var hart' := Act(locks, hart, a).1; Nested(base, hart'.stack) && hart'.enabled == Level(base, hart'.stack)
  {
    hide Nested, Level, Runs;
    var hart', st := Act(locks, hart, a).1, hart.stack;
    if st != [] {
      NestedTop(base, st);
      if a.OnGuard() && Current(st, a.i) {
        var (locks', on, mid) := ActOnGuard(locks, hart.enabled, Runs(st), st[a.i], a);
        assert Splice(st, a.i, mid) == Pop(st) + mid;
        if mid == [] {
          assert Pop(st) + mid == Pop(st);
        } else {
          NestedPush(base, Pop(st), mid[0]);
        }
      }
    }
    NestedPush(base, st, Handler);
    if a.Acquire? || a.TryAcquire? {
      NestedPush(base, st, Guard(a.lock, hart.enabled, Masked(a.TryAcquire?)));
    }
  }

  /** Interrupts are on only if they were at first and everything the hart is in the middle of is open. */
  lemma {:induction false} OnMeansOpen(base: bool, stack: seq<Frame>, i: nat)
    requires Level(base, stack) && i < |stack|
    ensures stack[i].Guard? && stack[i].phase.Open?
    decreases |stack|
  {
    if i < |stack| - 1 {
      OnMeansOpen(base, Pop(stack), i);
    }
  }

  lemma {:induction false} NestedAt(base: bool, stack: seq<Frame>, i: nat)
    requires Nested(base, stack) && i < |stack|
    ensures if stack[i].Guard? then stack[i].saved == Level(base, stack[..i]) else Level(base, stack[..i])
    decreases |stack|
  {
    if i < |stack| - 1 {
      NestedAt(base, Pop(stack), i);
      assert Pop(stack)[..i] == stack[..i];
    }
  }

  ghost predicate AllNested(enabled: seq<bool>, s: State) {
    && |s.harts| == |enabled|
    && forall h | 0 <= h < |enabled| ::
       Nested(enabled[h], s.harts[h].stack) && s.harts[h].enabled == Level(enabled[h], s.harts[h].stack)
  }

  lemma {:induction false} NestedRun(enabled: seq<bool>, events: seq<(nat, Action)>, n: nat)
    requires n <= |events| && LastFirst(enabled, events)
    ensures AllNested(enabled, Run(enabled, events[..n]))
    decreases n
  {
    hide Act, Run, Nested, Level;
    if n == 0 {
      NestedStart(enabled, events[..n]);
    } else {
      NestedRun(enabled, events, n - 1);
      RunMore(enabled, events, n - 1);
      var s, h := Run(enabled, events[..n - 1]), events[n - 1].0;
      assert OnLast(s, h, events[n - 1].1);
      if h < |enabled| {
        ActKeepsLevel(enabled[h], s.locks, s.harts[h], events[n - 1].1);
      }
    }
  }

  lemma {:induction false} NestedStart(enabled: seq<bool>, events: seq<(nat, Action)>)
    requires events == []
    ensures AllNested(enabled, Run(enabled, events))
  {
  }

  /** The last guard saved "on" only if no other lock is held. */
  lemma {:induction false} LastNotRisky(enabled: seq<bool>, s: State, h: nat, a: Action)
    requires AllNested(enabled, s) && OnLast(s, h, a)
    ensures !Risky(s, h, a)
  {
    hide Nested, Level, Runs;
    if Risky(s, h, a) {
      var st := s.harts[h].stack;
      NestedAt(enabled[h], st, a.i);
      var j :| 0 <= j < |st| && j != a.i && st[j].IsHeld();
      OnMeansOpen(enabled[h], st[..a.i], j);
    }
  }

  /**
   In every interleaving in which guards are used last in, first out: no hart ever holds a lock with interrupts on;
   what is interrupted, by an interrupt or its handler, is open; and a hart that has dropped all its guards is back
   in the interrupt state it started with.
   */
  lemma {:induction false} IrqSafety(enabled: seq<bool>, events: seq<(nat, Action)>)
    requires LastFirst(enabled, events)
    ensures NothingRisky(enabled, events) && StaysSafe(enabled, events)
    ensures var s := Run(enabled, events);
      && |s.harts| == |enabled|
      && (forall h, i | 0 <= h < |enabled| && 0 <= i < |s.harts[h].stack| && s.harts[h].enabled ::
           s.harts[h].stack[i].Guard? && s.harts[h].stack[i].phase.Open?)
      && (forall h, i, j | 0 <= h < |enabled| && 0 <= i < j < |s.harts[h].stack| && s.harts[h].stack[j].Handler? ::
           s.harts[h].stack[i].Guard? && s.harts[h].stack[i].phase.Open?)
      && (forall h | 0 <= h < |enabled| && s.harts[h].stack == [] :: s.harts[h].enabled == enabled[h])
  {
    hide Run, Nested, Level, Risky, Safe;
    forall n | 0 <= n < |events| ensures !RiskyAt(enabled, events, n) {
      NestedRun(enabled, events, n);
      LastNotRisky(enabled, Run(enabled, events[..n]), events[n].0, events[n].1);
    }
    SafeIff(enabled, events);
    NestedRun(enabled, events, |events|);
    assert events[..|events|] == events;
    var s := Run(enabled, events);
    forall h, i | 0 <= h < |enabled| && 0 <= i < |s.harts[h].stack| && s.harts[h].enabled
      ensures s.harts[h].stack[i].Guard? && s.harts[h].stack[i].phase.Open?
    {
      OnMeansOpen(enabled[h], s.harts[h].stack, i);
    }
    forall h, i, j | 0 <= h < |enabled| && 0 <= i < j < |s.harts[h].stack| && s.harts[h].stack[j].Handler?
      ensures s.harts[h].stack[i].Guard? && s.harts[h].stack[i].phase.Open?
    {
      var st := s.harts[h].stack;
      NestedAt(enabled[h], st, j);
      OnMeansOpen(enabled[h], st[..j], i);
    }
    forall h | 0 <= h < |enabled| && s.harts[h].stack == [] ensures s.harts[h].enabled == enabled[h] {
      EmptyLevel(enabled[h]);
    }
  }

  lemma {:induction false} EmptyLevel(base: bool)
    ensures Level(base, []) == base
  {
  }

  // ---- What a call comes to ----

  lemma {:induction false} LastGuard(stack: seq<Frame>, g: Frame, mid: seq<Frame>)
    requires g.Guard?
    ensures Current(stack + [g], |stack|) && (stack + [g])[|stack|] == g
    ensures Splice(stack + [g], |stack|, mid) == stack + mid
  {
  }

  /**
   `lock` and `try_lock`, whatever the other harts do with the locks meanwhile: interrupts go off first; a free lock is
   taken; for a lock that is not free `lock` waits and `try_lock` leaves everything as it was, and only then.
   */
  lemma {:induction false} Locks(hart: Hart, l: nat, once: bool, k0: set<nat>, k1: set<nat>)
    requires Runs(hart.stack)
    ensures var n, g := |hart.stack|, Guard(l, hart.enabled, Masked(once)); var h := Hart(false, hart.stack + [g]);
      && Act(k0, hart, if once then TryAcquire(l) else Acquire(l)) == (k0, h)
      && Act(k1, h, Take(n)) ==
         (if l in k1 then (k1, h) else (k1 + {l}, Hart(false, hart.stack + [g.(phase := Locked)])))
      && Act(k1, h, GiveUp(n)) == (k1, if once && l in k1 then hart else h)
  {
    hide Runs, Splice, Current;
    var g := Guard(l, hart.enabled, Masked(once));
    LastGuard(hart.stack, g, [g]);
    LastGuard(hart.stack, g, [g.(phase := Locked)]);
    LastGuard(hart.stack, g, []);
    assert hart.stack + [] == hart.stack;
  }

  /** Dropping a guard frees its lock and takes it off the hart; interrupts are then on if they were or the guard saved
      so. */
  lemma {:induction false} Drops(hart: Hart, i: nat, k0: set<nat>, k1: set<nat>)
    requires Current(hart.stack, i) && Runs(hart.stack) && hart.stack[i].IsHeld()
    ensures var g := hart.stack[i]; var h := Hart(hart.enabled, hart.stack[i := g.(phase := Releasing)]);
      && Act(k0, hart, Unlock(i)) == (k0 - {g.lock}, h)
      && Act(k1, h, Restore(i)) == (k1, Hart(hart.enabled || g.saved, Splice(hart.stack, i, [])))
  {
    hide Runs;
    var g := hart.stack[i];
    SpliceOne(hart.stack, i, g.(phase := Releasing));
    SetCurrent(hart.stack, i, g.(phase := Releasing), []);
  }

  lemma {:induction false} SetCurrent(stack: seq<Frame>, i: nat, g: Frame, mid: seq<Frame>)
    requires Current(stack, i) && g.Guard?
    ensures Current(stack[i := g], i) && Splice(stack[i := g], i, mid) == Splice(stack, i, mid)
  {
  }

  /** `unlocked` frees the lock and gives the closure the interrupt state that the guard saved ... */
  lemma {:induction false} Opens(hart: Hart, i: nat, k0: set<nat>, k1: set<nat>)
    requires Current(hart.stack, i) && Runs(hart.stack) && hart.stack[i].IsHeld()
    ensures var g := hart.stack[i]; var h := Hart(hart.enabled, hart.stack[i := g.(phase := Opening)]);
      && Act(k0, hart, Unlocked(i)) == (k0 - {g.lock}, h)
      && Act(k1, h, Reveal(i)) == (k1, Hart(hart.enabled || g.saved, hart.stack[i := g.(phase := Open)]))
  {
    hide Runs;
    var g := hart.stack[i];
    SpliceOne(hart.stack, i, g.(phase := Opening));
    SpliceOne(hart.stack, i, g.(phase := Open));
    SetCurrent(hart.stack, i, g.(phase := Opening), [g.(phase := Open)]);
  }

  /** ... and afterwards turns interrupts off, remembers how they were, and takes the lock again once it is free. */
  lemma {:induction false} Closes(hart: Hart, i: nat, k0: set<nat>, k1: set<nat>)
    requires Current(hart.stack, i) && Runs(hart.stack) && hart.stack[i].phase.Open?
    ensures var g := hart.stack[i].(saved := hart.enabled, phase := Masked(false)); var h := Hart(false,
      hart.stack[i := g]);
      && Act(k0, hart, Rearm(i)) == (k0, h)
      && Act(k1, h, Take(i)) ==
         (if g.lock in k1 then (k1, h) else (k1 + {g.lock}, Hart(false, hart.stack[i := g.(phase := Locked)])))
  {
    hide Runs;
    var g := hart.stack[i].(saved := hart.enabled, phase := Masked(false));
    SpliceOne(hart.stack, i, g);
    SpliceOne(hart.stack, i, g.(phase := Locked));
    SetCurrent(hart.stack, i, g, [g.(phase := Locked)]);
    SetCurrent(hart.stack, i, g, [g]);
  }

  /** Locking and dropping again restores the hart, whatever the other harts do with the locks meanwhile. */
  lemma {:induction false} LockThenDrop(hart: Hart, l: nat, k0: set<nat>, k1: set<nat>, k2: set<nat>, k3: set<nat>)
    requires Runs(hart.stack) && l !in k1
    ensures var n := |hart.stack|; var h := Act(k0, hart, Acquire(l)).1; var h' := Act(k1, h, Take(n)).1;
      && Act(k1, h, Take(n)).0 == k1 + {l} && !h'.enabled && Current(h'.stack, n) && h'.stack[n].IsHeld()
      && Act(k2, h', Unlock(n)).0 == k2 - {l} && Act(k3, Act(k2, h', Unlock(n)).1, Restore(n)) == (k3, hart)
  {
    hide Runs, Act, Current, Splice;
    var g := Guard(l, hart.enabled, Locked);
    var h' := Hart(false, hart.stack + [g]);
    Locks(hart, l, false, k0, k1);
    LastGuard(hart.stack, g, []);
    RunsWith(hart.stack, g);
    Drops(h', |hart.stack|, k2, k3);
    assert hart.stack + [] == hart.stack;
  }

  lemma {:induction false} RunsWith(stack: seq<Frame>, g: Frame)
    requires Runs(stack) && g.Guard? && !g.Half()
    ensures Runs(stack + [g])
  {
    var st := stack + [g];
    forall i | 0 <= i < |st| && st[i].Half() ensures !Current(st, i) {
      assert i < |stack| && !Current(stack, i);
      var h :| i <= h < |stack| && !stack[h].Guard?;
      assert st[h] == stack[h];
    }
  }

  /** An interrupt comes in exactly if it is enabled, its handler runs with interrupts off, and its end restores the
      hart. */
  lemma {:induction false} InterruptThenReturn(hart: Hart, k0: set<nat>, k1: set<nat>)
    ensures var (k, h) := Act(k0, hart, Interrupt);
      && k == k0 && (if hart.enabled then !h.enabled && h.stack == hart.stack + [Handler] else h == hart)
      && (hart.enabled ==> Act(k1, h, Return) == (k1, hart))
  {
    assert Pop(hart.stack + [Handler]) == hart.stack;
  }
}
