/**
 The reentrant mutex (lib/spin/src/remutex.rs) as threads that interleave one memory access at a time,
 under sequential consistency.
 */
module Reentrant {
  /**
   Where a thread is. `Enter` has decided to lock and reads the owner next; `Add`, `AddTo` belong to locking
   again; `Take`, `Own`, `Check`, `Init` to locking first; `Sub`, `SubTo`, `Disown`, `Free` to dropping a guard.
   */
  datatype Pc = Idle | Enter(spin: bool) | Add | AddTo(n: nat) | Take(spin: bool) | Own | Check | Init
    | Sub | SubTo(n: nat) | Disown | Free | Panicked

  datatype Answer = Nothing | Locked | NotLocked

  /** `guards` is how many guards the thread has that it may still drop, `answer` what its last call answered. */
  datatype Thread = Thread(pc: Pc, guards: nat, answer: Answer)

  /** `broken` records that an assertion or the decrement of the count went wrong. */
  datatype State = State(owner: nat, count: nat, lock: bool, threads: seq<Thread>, broken: bool)

  /** What a thread that is idle does next: nothing, lock, try to lock, or drop a guard. `Spurious` makes the weak
      compare-and-exchange of `try_lock` fail although the lock is free. */
  datatype Choice = Rest | Lock | TryLock | Drop | Spurious

  /** Thread ids are not zero; zero means that nobody owns the mutex. */
  function Id(t: nat): nat { t + 1 }

  function Start(n: nat): State {
    State(0, 0, false, seq(n, _ => Thread(Idle, 0, Nothing)), false)
  }

  /** One step of thread `t`. `max` is the largest count that can be stored. */
  function Step(s: State, t: nat, choice: Choice, max: nat): State {
    if t >= |s.threads| then s
    else
      var th := s.threads[t];
      match th.pc
      case Idle =>
        if choice.Lock? || choice.TryLock? then Be(s, t, Thread(Enter(choice.Lock?), th.guards, Nothing))
        else if choice.Drop? && th.guards > 0 then Be(s, t, Thread(Sub, th.guards, Nothing)) else s
      case Enter(spin) => Go(s, t, if s.owner == Id(t) then Add else Take(spin))
      case Add => Go(s, t, if s.count < max then AddTo(s.count + 1) else Panicked)
      case AddTo(n) => Be(s.(count := n), t, Thread(Idle, th.guards + 1, Locked))
      case Take(spin) =>
        if !s.lock && (spin || !choice.Spurious?) then Go(s.(lock := true), t, Own)
        else if spin then s else Be(s, t, Thread(Idle, th.guards, NotLocked))
      case Own => Go(s.(owner := Id(t)), t, Check)
      case Check => Go(s.(broken := s.broken || s.count != 0), t, Init)
      case Init => Be(s.(count := 1), t, Thread(Idle, th.guards + 1, Locked))
      case Sub => if s.count == 0 then Go(s.(broken := true), t, Panicked) else Go(s, t, SubTo(s.count - 1))
      case SubTo(n) => Be(s.(count := n), t, Thread(if n == 0 then Disown else Idle, Less(th.guards), Nothing))
      case Disown => Go(s.(owner := 0), t, Free)
      case Free => Go(s.(lock := false), t, Idle)
      case Panicked => s
  }

  function Less(n: nat): nat { if n == 0 then 0 else n - 1 }

  function Be(s: State, t: nat, th: Thread): State
    requires t < |s.threads|
  {
    s.(threads := s.threads[t := th])
  }

  function Go(s: State, t: nat, pc: Pc): State
    requires t < |s.threads|
  {
    Be(s, t, s.threads[t].(pc := pc))
  }

  /** All interleavings: any thread may take the next step. */
  function Run(n: nat, max: nat, events: seq<(nat, Choice)>): State {
    if events == [] then Start(n)
    else
      var (t, choice) := events[|events| - 1];
      Step(Run(n, max, events[..|events| - 1]), t, choice, max)
  }

  // ---- The invariant ----

  /** The thread is between taking and freeing the lock. */
  predicate Inside(th: Thread) {
    th.guards > 0 || th.pc.Own? || th.pc.Check? || th.pc.Init? || th.pc.Add? || th.pc.AddTo? || th.pc.Disown?
      || th.pc.Free?
  }

  /** The thread is between storing itself as owner and clearing the owner. */
  predicate Owning(th: Thread) {
    th.guards > 0 || th.pc.Check? || th.pc.Init? || th.pc.Add? || th.pc.AddTo? || th.pc.Disown?
  }

  /** What a thread's place says about its guards and the count. */
  predicate Fits(s: State, th: Thread) {
    match th.pc
    case Idle => th.guards > 0 ==> s.count == th.guards
    case Enter(_) => th.guards > 0 ==> s.count == th.guards
    case Add => th.guards > 0 && s.count == th.guards
    case AddTo(n) => th.guards > 0 && s.count == th.guards && n == th.guards + 1
    case Take(_) => th.guards == 0
    case Own => th.guards == 0 && s.count == 0
    case Check => th.guards == 0 && s.count == 0
    case Init => th.guards == 0 && s.count == 0
    case Sub => th.guards > 0 && s.count == th.guards
    case SubTo(n) => th.guards > 0 && s.count == th.guards && n == th.guards - 1
    case Disown => th.guards == 0 && s.count == 0
    case Free => th.guards == 0 && s.count == 0
    case Panicked => th.guards > 0 && s.count == th.guards
  }

  ghost predicate Inv(s: State) {
    && !s.broken
    && (forall t | 0 <= t < |s.threads| :: Fits(s, s.threads[t]))
    && (forall t, u | 0 <= t < u < |s.threads| :: !(Inside(s.threads[t]) && Inside(s.threads[u])))
    && (s.lock ==> exists t :: 0 <= t < |s.threads| && Inside(s.threads[t]))
    && (forall t | 0 <= t < |s.threads| && Inside(s.threads[t]) :: s.lock)
    && (!s.lock ==> s.count == 0)
    && (s.owner != 0 ==> s.owner <= |s.threads| && Owning(s.threads[s.owner - 1]))
    && (forall t | 0 <= t < |s.threads| && Owning(s.threads[t]) :: s.owner == Id(t))
  }

  /** Nothing but the step of thread `t` happened to the threads. */
  ghost predicate Moved(s: State, s': State, t: nat, th: Thread) {
    t < |s.threads| && s'.threads == s.threads[t := th] && !s'.broken
  }

  /** A thread outside stays outside and changes only its own place. */
  lemma {:induction false} StaysOutside(s: State, s': State, t: nat, th: Thread)
    requires Inv(s) && Moved(s, s', t, th) && s' == s.(threads := s'.threads)
    requires Inside(th) == Inside(s.threads[t]) && Owning(th) == Owning(s.threads[t]) && Fits(s, th)
    ensures Inv(s')
  {
    hide Fits, Inside, Owning;
    var u := s.owner - 1;
    assert forall x | 0 <= x < |s.threads| && x != t :: s'.threads[x] == s.threads[x];
    if s.lock {
      var x :| 0 <= x < |s.threads| && Inside(s.threads[x]);
      assert Inside(s'.threads[x]);
    }
    forall x | 0 <= x < |s.threads| ensures Fits(s', s'.threads[x]) {
      FitsCount(s, s', s'.threads[x]);
    }
  }

  lemma {:induction false} FitsCount(s: State, s': State, th: Thread)
    requires s.count == s'.count && Fits(s, th)
    ensures Fits(s', th)
  {
  }

  /** Taking the free lock: nobody else is inside. */
  lemma {:induction false} TakesLock(s: State, s': State, t: nat, th: Thread)
    requires Inv(s) && Moved(s, s', t, th) && !s.lock && s' == s.(lock := true, threads := s'.threads)
    requires th.pc.Own? && th.guards == 0
    ensures Inv(s')
  {
    assert forall x | 0 <= x < |s.threads| && x != t :: s'.threads[x] == s.threads[x];
    assert Inside(s'.threads[t]);
  }

  /** The thread inside stays inside: the others are outside and have nothing at stake in the count or the owner. */
  lemma {:induction false} StaysInside(s: State, s': State, t: nat, th: Thread)
    requires Inv(s) && Moved(s, s', t, th) && Inside(s.threads[t]) && Inside(th) && s'.lock == s.lock
    requires Fits(s', th) && s'.owner == (if Owning(th) then Id(t) else 0)
    ensures Inv(s')
  {
    hide Inside, Owning;
    assert forall x | 0 <= x < |s.threads| && x != t :: s'.threads[x] == s.threads[x] && !Inside(s.threads[x]);
    forall x | 0 <= x < |s.threads| && x != t ensures Fits(s', s'.threads[x]) && !Owning(s'.threads[x]) {
      OutsideFits(s, s', s.threads[x]);
    }
    assert Inside(s'.threads[t]);
  }

  lemma {:induction false} OutsideFits(s: State, s': State, th: Thread)
    requires !Inside(th) && Fits(s, th)
    ensures Fits(s', th) && !Owning(th)
  {
  }

  /** Freeing the lock: then nobody is inside. */
  lemma {:induction false} FreesLock(s: State, s': State, t: nat, th: Thread)
    requires Inv(s) && Moved(s, s', t, th) && Inside(s.threads[t]) && th.pc.Idle? && th.guards == 0 && s'.count == 0
    requires s'.owner == 0 && !s'.lock
    ensures Inv(s')
  {
    hide Owning;
    assert forall x | 0 <= x < |s.threads| && x != t :: s'.threads[x] == s.threads[x] && !Inside(s.threads[x]);
    forall x | 0 <= x < |s.threads| && x != t ensures Fits(s', s'.threads[x]) && !Owning(s'.threads[x]) {
      OutsideFits(s, s', s.threads[x]);
    }
    NoGuards(th);
  }

  lemma {:induction false} NoGuards(th: Thread)
    requires th.pc.Idle? && th.guards == 0
    ensures !Owning(th) && !Inside(th)
  {
  }

  lemma {:induction false} StepKeeps(s: State, t: nat, choice: Choice, max: nat)
    requires Inv(s)
    ensures Inv(Step(s, t, choice, max)) && |Step(s, t, choice, max).threads| == |s.threads|
  {
    if t < |s.threads| {
      var s', old_ := Step(s, t, choice, max), s.threads[t];
      var th := s'.threads[t];
      assert Fits(s, old_);
      assert s'.threads == s.threads[t := th];
      match old_.pc
      case Idle | Enter(_) | Add | Sub => StaysOutside(s, s', t, th);
      case Take(spin) => if !s.lock && (spin || !choice.Spurious?) { TakesLock(s, s', t, th); }
        else { StaysOutside(s, s', t, th); }
      case Free => FreesLock(s, s', t, th);
      case Panicked =>
      case _ => StaysInside(s, s', t, th);
    }
  }

  lemma {:induction false} RunKeeps(n: nat, max: nat, events: seq<(nat, Choice)>)
    ensures Inv(Run(n, max, events)) && |Run(n, max, events).threads| == n
    decreases |events|
  {
    if events != [] {
      var (t, choice) := events[|events| - 1];
      RunKeeps(n, max, events[..|events| - 1]);
      StepKeeps(Run(n, max, events[..|events| - 1]), t, choice, max);
    }
  }

  /**
   In every interleaving: at most one thread has guards; the count is the number of its guards whenever it is
   not in the middle of changing it; a thread sees itself as owner exactly from storing its id to clearing it;
   and neither the assertion that the count starts at zero nor the decrement ever goes wrong.
   */
  lemma {:induction false} MutualExclusion(n: nat, max: nat, events: seq<(nat, Choice)>)
    ensures var s := Run(n, max, events);
      && |s.threads| == n && !s.broken
      && (forall t, u | 0 <= t < u < n :: s.threads[t].guards == 0 || s.threads[u].guards == 0)
      && (forall t | 0 <= t < n && s.threads[t].guards > 0 ::
         s.lock && s.owner == Id(t) && s.count == s.threads[t].guards)
      && (forall t | 0 <= t < n :: s.owner == Id(t) <==> Owning(s.threads[t]))
      && (s.lock <==> exists t :: 0 <= t < n && Inside(s.threads[t]))
  {
    RunKeeps(n, max, events);
    var s := Run(n, max, events);
    forall t | 0 <= t < n && s.threads[t].guards > 0 ensures s.count == s.threads[t].guards {
      assert Fits(s, s.threads[t]);
    }
  }

  // ---- What a call comes to ----

  /** The choices in the steps of thread `t`. */
  function Mine(events: seq<(nat, Choice)>, t: nat): seq<Choice> {
    if events == [] then []
    else
      var (u, choice) := events[|events| - 1];
      Mine(events[..|events| - 1], t) + if u == t then [choice] else []
  }

  function After(s: State, max: nat, more: seq<(nat, Choice)>): State {
    if more == [] then s
    else
      var (u, choice) := more[|more| - 1];
      Step(After(s, max, more[..|more| - 1]), u, choice, max)
  }

  /** The thread on its own. */
  function Alone(s: State, t: nat, max: nat, choices: seq<Choice>): State {
    if choices == [] then s
    else Step(Alone(s, t, max, choices[..|choices| - 1]), t, choices[|choices| - 1], max)
  }

  /** What only the thread inside can change. */
  datatype View = View(th: Thread, owner: nat, count: nat, lock: bool)

  function ViewOf(s: State, t: nat): View
    requires t < |s.threads|
  {
    View(s.threads[t], s.owner, s.count, s.lock)
  }

  lemma {:induction false} RunAfter(n: nat, max: nat, events: seq<(nat, Choice)>, more: seq<(nat, Choice)>)
    ensures Run(n, max, events + more) == After(Run(n, max, events), max, more)
    decreases |more|
  {
    hide Step;
    if more == [] {
      assert events + more == events;
    } else {
      var m := |more| - 1;
      assert (events + more)[..|events + more| - 1] == events + more[..m];
      RunAfter(n, max, events, more[..m]);
    }
  }

  /** Nobody else touches the mutex while a thread is inside. */
  lemma {:induction false} OthersKeep(s: State, t: nat, u: nat, choice: Choice, max: nat)
    requires Inv(s) && t < |s.threads| && u != t && Inside(s.threads[t])
    ensures t < |Step(s, u, choice, max).threads| && ViewOf(Step(s, u, choice, max), t) == ViewOf(s, t)
  {
    if u < |s.threads| {
      assert !Inside(s.threads[u]) && Fits(s, s.threads[u]);
    }
  }

  lemma {:induction false} SameStep(s: State, s': State, t: nat, choice: Choice, max: nat)
    requires t < |s.threads| && t < |s'.threads| && ViewOf(s, t) == ViewOf(s', t)
    ensures t < |Step(s, t, choice, max).threads| && t < |Step(s', t, choice, max).threads|
    ensures ViewOf(Step(s, t, choice, max), t) == ViewOf(Step(s', t, choice, max), t)
  {
    match s.threads[t].pc
    case Idle =>
    case Enter(_) =>
    case Add =>
    case AddTo(_) =>
    case Take(_) =>
    case Own =>
    case Check =>
    case Init =>
    case Sub =>
    case SubTo(_) =>
    case Disown =>
    case Free =>
    case Panicked =>
  }

  /** On its own, the thread is inside before each of its steps. */
  ghost predicate StaysIn(s: State, t: nat, max: nat, choices: seq<Choice>) {
    forall i | 0 <= i < |choices| ::
      t < |Alone(s, t, max, choices[..i]).threads| && Inside(Alone(s, t, max, choices[..i]).threads[t])
  }

  /** A thread that is inside proceeds as if it were alone, whatever the others do. */
  lemma {:induction false} AsIfAlone(s: State, t: nat, max: nat, more: seq<(nat, Choice)>)
    requires Inv(s) && t < |s.threads| && StaysIn(s, t, max, Mine(more, t)) && more != [] && more[|more| - 1].0 == t
    ensures var s', a := After(s, max, more), Alone(s, t, max, Mine(more, t));
      Inv(s') && t < |s'.threads| && t < |a.threads| && ViewOf(s', t) == ViewOf(a, t)
    decreases |more|
  {
    hide Step, Inv;
    var m := |more| - 1;
    var less, mine := more[..m], Mine(more, t);
    assert mine[..|mine| - 1] == Mine(less, t);
    assert Inside(Alone(s, t, max, mine[..|mine| - 1]).threads[t]);
    StillAlone(s, t, max, less, mine);
    SameStep(After(s, max, less), Alone(s, t, max, Mine(less, t)), t, more[m].1, max);
    StepKeeps(After(s, max, less), t, more[m].1, max);
  }

  /** So it does as long as it stays inside. */
  lemma {:induction false} StillAlone(s: State, t: nat, max: nat, less: seq<(nat, Choice)>, mine: seq<Choice>)
    requires Inv(s) && t < |s.threads| && StaysIn(s, t, max, mine) && |Mine(less, t)| < |mine|
    requires Mine(less, t) == mine[..|Mine(less, t)|]
    ensures var s', a := After(s, max, less), Alone(s, t, max, Mine(less, t));
      Inv(s') && t < |s'.threads| && t < |a.threads| && ViewOf(s', t) == ViewOf(a, t)
    decreases |less|
  {
    hide Step, Inv;
    if less != [] {
      var m := |less| - 1;
      var fewer := less[..m];
      var (u, choice) := less[m];
      assert u == t ==> Mine(less, t)[..|Mine(less, t)| - 1] == Mine(fewer, t);
      assert u == t ==> mine[..|Mine(fewer, t)|] == Mine(fewer, t);
      StillAlone(s, t, max, fewer, mine);
      var before := After(s, max, fewer);
      if u == t {
        SameStep(before, Alone(s, t, max, Mine(fewer, t)), t, choice, max);
      } else {
        assert Mine(fewer, t) == Mine(less, t);
        assert Inside(Alone(s, t, max, mine[..|Mine(fewer, t)|]).threads[t]);
        OthersKeep(before, t, u, choice, max);
      }
      StepKeeps(before, u, choice, max);
    }
  }

  lemma {:induction false} StepsAlone(s: State, t: nat, max: nat, cs: seq<Choice>)
    ensures |cs| >= 1 ==> Alone(s, t, max, cs[..1]) == Step(s, t, cs[0], max)
    ensures |cs| >= 2 ==> Alone(s, t, max, cs[..2]) == Step(Alone(s, t, max, cs[..1]), t, cs[1], max)
    ensures |cs| >= 3 ==> Alone(s, t, max, cs[..3]) == Step(Alone(s, t, max, cs[..2]), t, cs[2], max)
    ensures |cs| >= 4 ==> Alone(s, t, max, cs[..4]) == Step(Alone(s, t, max, cs[..3]), t, cs[3], max)
    ensures |cs| >= 5 ==> Alone(s, t, max, cs[..5]) == Step(Alone(s, t, max, cs[..4]), t, cs[4], max)
    ensures Alone(s, t, max, cs[..0]) == s
  {
    hide Step;
    assert |cs| >= 1 ==> cs[..1][..0] == cs[..0];
    assert |cs| >= 2 ==> cs[..2][..1] == cs[..1];
    assert |cs| >= 3 ==> cs[..3][..2] == cs[..2];
    assert |cs| >= 4 ==> cs[..4][..3] == cs[..3];
    assert |cs| >= 5 ==> cs[..5][..4] == cs[..4];
  }

  /** Locking once more, on its own; a full count makes it panic. */
  lemma {:induction false} RelocksAlone(s: State, t: nat, max: nat, cs: seq<Choice>)
    requires Inv(s) && t < |s.threads| && s.threads[t].pc.Idle? && s.threads[t].guards > 0
    requires |cs| == (if s.count < max then 4 else 3) && (cs[0].Lock? || cs[0].TryLock?)
    ensures var a, g := Alone(s, t, max, cs), s.threads[t].guards;
      StaysIn(s, t, max, cs) && t < |a.threads| && ViewOf(a, t) ==
        if s.count < max then View(Thread(Idle, g + 1, Locked), Id(t), g + 1, true)
        else View(Thread(Panicked, g, Nothing), Id(t), g, true)
  {
    hide Alone;
    assert Fits(s, s.threads[t]) && Inside(s.threads[t]);
    StepsAlone(s, t, max, cs);
    assert cs[..|cs|] == cs;
  }

  /** Dropping one of several guards, and the last one, on its own. */
  lemma {:induction false} DropsAlone(s: State, t: nat, max: nat, cs: seq<Choice>)
    requires Inv(s) && t < |s.threads| && s.threads[t].pc.Idle? && s.threads[t].guards > 0 && cs != [] && cs[0].Drop?
    requires |cs| == if s.threads[t].guards > 1 then 3 else 5
    ensures var a, g := Alone(s, t, max, cs), s.threads[t].guards - 1;
      StaysIn(s, t, max, cs) && t < |a.threads|
      && ViewOf(a, t) == View(Thread(Idle, g, Nothing), if g > 0 then Id(t) else 0, g, g > 0)
  {
    hide Alone;
    assert Fits(s, s.threads[t]) && Inside(s.threads[t]);
    StepsAlone(s, t, max, cs);
    assert cs[..|cs|] == cs;
  }

  /** From taking the lock to the first guard, on its own. */
  lemma {:induction false} LocksAlone(s: State, t: nat, max: nat, cs: seq<Choice>)
    requires Inv(s) && t < |s.threads| && s.threads[t].pc.Own? && |cs| == 3
    ensures var a := Alone(s, t, max, cs);
      StaysIn(s, t, max, cs) && t < |a.threads| && ViewOf(a, t) == View(Thread(Idle, 1, Locked), Id(t), 1, true)
  {
    hide Alone;
    assert Fits(s, s.threads[t]) && Inside(s.threads[t]);
    StepsAlone(s, t, max, cs);
    assert cs[..3] == cs;
  }

  /**
   In every interleaving, whatever the others do: `lock` and `try_lock` by a thread with guards end with one guard more
   and the answer that it is locked,
     or panic when the count is full; dropping one of several guards leaves one fewer and the
   mutex locked, dropping the last leaves it free and without owner; and a thread that took the lock gets its first
   guard.
   */
  lemma {:induction false} Calls(n: nat, max: nat, events: seq<(nat, Choice)>, more: seq<(nat, Choice)>, t: nat)
    requires t < n && more != [] && more[|more| - 1].0 == t && Mine(more, t) != []
    ensures |Run(n, max, events).threads| == |Run(n, max, events + more).threads| == n
    ensures var s, v, cs := Run(n, max, events), ViewOf(Run(n, max, events + more), t), Mine(more, t);
      var th := s.threads[t];
      && (th.pc.Idle? && th.guards > 0 && (cs[0].Lock? || cs[0].TryLock?) && s.count < max && |cs| == 4 ==>
           v == View(Thread(Idle, th.guards + 1, Locked), Id(t), th.guards + 1, true))
      && (th.pc.Idle? && th.guards > 0 && (cs[0].Lock? || cs[0].TryLock?) && s.count >= max && |cs| == 3 ==>
           v == View(Thread(Panicked, th.guards, Nothing), Id(t), th.guards, true))
      && (th.pc.Idle? && th.guards > 1 && cs[0].Drop? && |cs| == 3 ==>
           v == View(Thread(Idle, th.guards - 1, Nothing), Id(t), th.guards - 1, true))
      && (th.pc.Idle? && th.guards == 1 && cs[0].Drop? && |cs| == 5 ==>
         v == View(Thread(Idle, 0, Nothing), 0, 0, false))
      && (th.pc.Own? && |cs| == 3 ==> v == View(Thread(Idle, 1, Locked), Id(t), 1, true))
  {
    hide Run, Step, Alone, Inv, Mine, After, StaysIn;
    RunKeeps(n, max, events);
    RunKeeps(n, max, events + more);
    RunAfter(n, max, events, more);
    var s, cs := Run(n, max, events), Mine(more, t);
    var th := s.threads[t];
    if th.pc.Idle? && th.guards > 0 && (cs[0].Lock? || cs[0].TryLock?) && |cs| == if s.count < max then 4 else 3 {
      RelocksAlone(s, t, max, cs);
      AsIfAlone(s, t, max, more);
    } else if th.pc.Idle? && th.guards > 0 && cs[0].Drop? && |cs| == if th.guards > 1 then 3 else 5 {
      DropsAlone(s, t, max, cs);
      AsIfAlone(s, t, max, more);
    } else if th.pc.Own? && |cs| == 3 {
      LocksAlone(s, t, max, cs);
      AsIfAlone(s, t, max, more);
    }
  }

  /** The steps of a thread that has no guard, up to the exchange on the lock. */
  lemma {:induction false} Enters(n: nat, max: nat, events: seq<(nat, Choice)>, t: nat, choice: Choice)
    requires t < n
    ensures |Run(n, max, events).threads| == n && |Run(n, max, events + [(t, choice)]).threads| == n
    ensures var s, s' := Run(n, max, events), Run(n, max, events + [(t, choice)]); var th, th' := s.threads[t],
      s'.threads[t];
      && (th.pc.Idle? && choice.Lock? ==> th'.pc == Enter(true))
      && (th.pc.Idle? && choice.TryLock? ==> th'.pc == Enter(false))
      && (th.pc.Enter? && th.guards == 0 ==> th'.pc == Take(th.pc.spin))
      && (th.pc.Take? && !s.lock && (th.pc.spin || !choice.Spurious?) ==> th'.pc.Own? && s'.lock)
      && (th'.answer.NotLocked? && !th.answer.NotLocked? ==>
           th.pc == Take(false) && th'.pc.Idle? && th'.guards == 0
           && (choice.Spurious? || (s.lock && exists u :: 0 <= u < n && u != t && Inside(s.threads[u]))))
  {
    hide Run;
    RunKeeps(n, max, events);
    RunKeeps(n, max, events + [(t, choice)]);
    RunOneMore(n, max, events, t, choice);
    var s := Run(n, max, events);
    assert Fits(s, s.threads[t]);
  }

  lemma {:induction false} RunOneMore(n: nat, max: nat, events: seq<(nat, Choice)>, t: nat, choice: Choice)
    ensures Run(n, max, events + [(t, choice)]) == Step(Run(n, max, events), t, choice, max)
  {
    hide Step;
    var es := events + [(t, choice)];
    assert es[..|es| - 1] == events;
  }
}
