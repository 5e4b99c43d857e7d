/**
 The barrier (lib/spin/src/barrier.rs:38-62) as threads that interleave one step at a time around the lock
 that guards its count and generation. Generation numbers do not wrap around here.
 */
module Barriers {
  import opened Options

  /** `Want` and `Spin` wait for the lock; `Arrive`, `Check`, `Lead` and `Leave` hold it. */
  datatype Pc = Idle | Want | Arrive | Check(gen: nat) | Spin(gen: nat) | Lead(gen: nat)
    | Leave(leader: bool, gen: nat) | Done(leader: bool, gen: nat)

  datatype State = State(holder: Option<nat>, count: nat, gen: nat, threads: seq<Pc>)

  function Start(k: nat): State {
    State(None, 0, 0, seq(k, _ => Idle))
  }

  function Go(s: State, t: nat, pc: Pc): State
    requires t < |s.threads|
  {
    s.(threads := s.threads[t := pc])
  }

  /** One step of thread `t` at a barrier for `n` threads. */
  function Step(n: nat, s: State, t: nat): State {
    if t >= |s.threads| then s
    else
      match s.threads[t]
      case Idle => Go(s, t, Want)
      case Want => if s.holder.None? then Go(s.(holder := Some(t)), t, Arrive) else s
      case Arrive => Go(s.(count := s.count + 1), t, if s.count + 1 < n then Check(s.gen) else Lead(s.gen))
      case Check(g) => if g == s.gen && s.count < n then Go(s.(holder := None), t, Spin(g))
        else Go(s, t, Leave(false, g))
      case Spin(g) => if s.holder.None? then Go(s.(holder := Some(t)), t, Check(g)) else s
      case Lead(g) => Go(s.(count := 0, gen := s.gen + 1), t, Leave(true, g))
      case Leave(b, g) => Go(s.(holder := None), t, Done(b, g))
      case Done(_, _) => Go(s, t, Idle)
  }

  function Run(n: nat, k: nat, events: seq<nat>): State {
    if events == [] then Start(k) else Step(n, Run(n, k, events[..|events| - 1]), events[|events| - 1])
  }

  // ---- What happened in a run ----

  /** The next step of `t` is to arrive in generation `g`. */
  predicate Arrives(s: State, t: nat, g: nat) { t < |s.threads| && s.threads[t].Arrive? && s.gen == g }

  /** The next step of `t` is to return from generation `g` with the answer whether it is the leader. */
  predicate Returns(s: State, t: nat, g: nat, leader: bool) { t < |s.threads| && s.threads[t] == Leave(leader, g) }

  /** How often each of them happened in a run, and which thread made the `n`-th arrival. */
  datatype Tally = Tally(arrivals: nat, leaders: nat, others: nat, last: Option<nat>) {
    function Exits(): nat { leaders + others }
  }

  function Tallied(n: nat, s: State, t: nat, g: nat, before: Tally): Tally {
    Tally(before.arrivals + if Arrives(s, t, g) then 1 else 0,
          before.leaders + if Returns(s, t, g, true) then 1 else 0,
          before.others + if Returns(s, t, g, false) then 1 else 0,
          if Arrives(s, t, g) && before.arrivals + 1 == n then Some(t) else before.last)
  }

  function TallyOf(n: nat, k: nat, events: seq<nat>, g: nat): Tally {
    if events == [] then Tally(0, 0, 0, None)
    else
      var before := events[..|events| - 1];
      Tallied(n, Run(n, k, before), events[|events| - 1], g, TallyOf(n, k, before, g))
  }

  /** The thread has arrived in generation `g` and not returned from it yet. */
  predicate In(pc: Pc, g: nat) {
    (pc.Check? || pc.Spin? || pc.Lead? || pc.Leave?) && pc.gen == g
  }

  /** How many threads are in generation `g`. */
  function Here(threads: seq<Pc>, g: nat): nat {
    if threads == [] then 0 else (if In(threads[0], g) then 1 else 0) + Here(threads[1..], g)
  }

  /** How many threads are about to return from it as its leader. */
  function Leaders(threads: seq<Pc>, g: nat): nat {
    if threads == [] then 0 else (if threads[0] == Leave(true, g) then 1 else 0) + Leaders(threads[1..], g)
  }

  lemma {:induction false} HereMoved(threads: seq<Pc>, t: nat, pc: Pc, g: nat)
    requires t < |threads|
    ensures Here(threads[t := pc], g) + (if In(threads[t], g) then 1 else 0) ==
      Here(threads, g) + if In(pc, g) then 1 else 0
    ensures Leaders(threads[t := pc], g) + (if threads[t] == Leave(true, g) then 1 else 0) ==
      Leaders(threads, g) + if pc == Leave(true, g) then 1 else 0
  {
    var moved := threads[t := pc];
    if t == 0 {
      assert moved[1..] == threads[1..];
    } else {
      assert moved[1..] == threads[1..][t - 1 := pc];
      HereMoved(threads[1..], t - 1, pc, g);
    }
  }

  lemma {:induction false} NobodyHere(k: nat, g: nat)
    ensures Here(seq(k, _ => Idle), g) == 0 && Leaders(seq(k, _ => Idle), g) == 0
  {
    if k > 0 {
      assert seq(k, _ => Idle)[1..] == seq(k - 1, _ => Idle);
      NobodyHere(k - 1, g);
    }
  }

  // ---- The invariant ----

  predicate Holding(pc: Pc) {
    pc.Arrive? || pc.Check? || pc.Lead? || pc.Leave?
  }

  ghost predicate Fits(n: nat, s: State, pc: Pc) {
    match pc
    case Check(g) => g <= s.gen
    case Spin(g) => g <= s.gen
    case Lead(g) => g == s.gen && s.count == n
    case Leave(_, g) => g < s.gen
    case Done(_, g) => g < s.gen
    case _ => true
  }

  ghost predicate Inv(n: nat, s: State) {
    && s.count <= n
    && (s.count == n ==> s.holder.Some? && s.holder.value < |s.threads| && s.threads[s.holder.value].Lead?)
    && (forall t | 0 <= t < |s.threads| :: Fits(n, s, s.threads[t]))
    && (forall t | 0 <= t < |s.threads| :: Holding(s.threads[t]) <==> s.holder == Some(t))
    && (s.holder.Some? ==> s.holder.value < |s.threads|)
  }

  lemma {:induction false} StepKeeps(n: nat, s: State, t: nat)
    requires n >= 1 && Inv(n, s)
    ensures Inv(n, Step(n, s, t)) && |Step(n, s, t).threads| == |s.threads|
  {
    if t < |s.threads| {
      var s' := Step(n, s, t);
      assert Fits(n, s, s.threads[t]);
      assert forall u | 0 <= u < |s.threads| && u != t :: s'.threads[u] == s.threads[u];
      forall u | 0 <= u < |s.threads| && u != t ensures Fits(n, s', s'.threads[u]) {
        assert Fits(n, s, s.threads[u]);
      }
    }
  }

  lemma {:induction false} RunKeeps(n: nat, k: nat, events: seq<nat>)
    requires n >= 1
    ensures Inv(n, Run(n, k, events)) && |Run(n, k, events).threads| == k
    decreases |events|
  {
    if events != [] {
      hide Inv, Step;
      RunKeeps(n, k, events[..|events| - 1]);
      StepKeeps(n, Run(n, k, events[..|events| - 1]), events[|events| - 1]);
    }
  }

  /** What a thread's place tells about the one that made the `n`-th arrival in generation `g`. */
  ghost predicate Knows(s: State, t: nat, g: nat, last: Option<nat>)
    requires t < |s.threads|
  {
    match s.threads[t]
    case Lead(h) => h == g ==> last == Some(t)
    case Leave(b, h) => h == g ==> (b <==> last == Some(t))
    case Done(b, h) => h == g ==> (b <==> last == Some(t))
    case Check(h) => h == g ==> last != Some(t)
    case Spin(h) => h == g ==> last != Some(t)
    case _ => true
  }

  /** What the current state tells about the past of generation `g`. */
  ghost predicate Tells(n: nat, s: State, g: nat, tally: Tally) {
    && tally.arrivals == (if g < s.gen then n else if g == s.gen then s.count else 0)
    && tally.leaders + Leaders(s.threads, g) == (if g < s.gen then 1 else 0)
    && tally.Exits() + Here(s.threads, g) == tally.arrivals
    && (tally.last.Some? <==> tally.arrivals == n)
    && (forall t | 0 <= t < |s.threads| :: Knows(s, t, g, tally.last))
  }

  /** One step changes the tally as it changes what the state tells about it. */
  lemma {:induction false} StepTells(n: nat, s: State, t: nat, g: nat, tally: Tally)
    requires n >= 1 && Inv(n, s) && Tells(n, s, g, tally)
    ensures Tells(n, Step(n, s, t), g, Tallied(n, s, t, g, tally))
  {
    if t < |s.threads| {
      hide Here, Leaders, Knows;
      var s', tally' := Step(n, s, t), Tallied(n, s, t, g, tally);
      assert Fits(n, s, s.threads[t]);
      assert s'.threads == s.threads[t := s'.threads[t]];
      HereMoved(s.threads, t, s'.threads[t], g);
      forall u | 0 <= u < |s.threads| ensures Knows(s', u, g, tally'.last) {
        StepKnows(n, s, t, g, tally, u);
      }
    }
  }

  lemma {:induction false} StepKnows(n: nat, s: State, t: nat, g: nat, tally: Tally, u: nat)
    requires n >= 1 && Inv(n, s) && Tells(n, s, g, tally) && t < |s.threads| && u < |s.threads|
    ensures |Step(n, s, t).threads| == |s.threads| && Knows(Step(n, s, t), u, g, Tallied(n, s, t, g, tally).last)
  {
    hide Here, Leaders;
    assert Knows(s, u, g, tally.last) && Fits(n, s, s.threads[u]);
  }

  lemma {:induction false} RunTells(n: nat, k: nat, events: seq<nat>, g: nat)
    requires n >= 1
    ensures Tells(n, Run(n, k, events), g, TallyOf(n, k, events, g))
    decreases |events|
  {
    if events == [] {
      NobodyHere(k, g);
    } else {
      hide Inv, Step, Tells, Tallied;
      var before := events[..|events| - 1];
      RunTells(n, k, before, g);
      RunKeeps(n, k, before);
      StepTells(n, Run(n, k, before), events[|events| - 1], g, TallyOf(n, k, before, g));
    }
  }

  /**
   In every interleaving, for every generation: once it is over it had exactly `n` arrivals; the current one has,
   whenever the lock is free, fewer; nobody returns before the `n`-th arrival; whoever arrived has returned or is still
   there; at most one is told to be the leader, and once all have returned exactly one was and `n - 1` were not; and
   the leader is the one who made the `n`-th arrival.
   */
  lemma {:induction false} BarrierHolds(n: nat, k: nat, events: seq<nat>, g: nat)
    requires n >= 1
    ensures var s, tally := Run(n, k, events), TallyOf(n, k, events, g);
      && |s.threads| == k && tally.arrivals == (if g < s.gen then n else if g == s.gen then s.count else 0)
      && (g >= s.gen ==> tally.Exits() == 0) && (tally.Exits() > 0 ==> tally.arrivals == n)
      && tally.arrivals == tally.Exits() + Here(s.threads, g)
      && tally.leaders <= 1 && (g < s.gen && Here(s.threads, g) == 0 ==> tally.leaders == 1 && tally.others == n - 1)
      && (tally.last.Some? <==> tally.arrivals == n)
      && (forall t, b | 0 <= t < k && (s.threads[t] == Leave(b, g) || s.threads[t] == Done(b, g)) ::
           b <==> tally.last == Some(t))
      && (s.holder.None? ==> s.count < n)
  {
    hide Run, TallyOf, Here, Leaders;
    RunKeeps(n, k, events);
    RunTells(n, k, events, g);
    NoReturn(n, k, events, g);
    var s := Run(n, k, events);
    HereIncludes(s.threads, g);
    forall t, b | 0 <= t < k && (s.threads[t] == Leave(b, g) || s.threads[t] == Done(b, g))
      ensures b <==> TallyOf(n, k, events, g).last == Some(t)
    {
      assert Knows(s, t, g, TallyOf(n, k, events, g).last);
    }
  }

  lemma {:induction false} HereIncludes(threads: seq<Pc>, g: nat)
    ensures Leaders(threads, g) <= Here(threads, g)
  {
    if threads != [] {
      HereIncludes(threads[1..], g);
    }
  }

  /** Returning from a generation takes a later one. */
  lemma {:induction false} NoReturn(n: nat, k: nat, events: seq<nat>, g: nat)
    requires n >= 1
    ensures g >= Run(n, k, events).gen ==> TallyOf(n, k, events, g).Exits() == 0
    decreases |events|
  {
    if events != [] {
      var before, t := events[..|events| - 1], events[|events| - 1];
      NoReturn(n, k, before, g);
      RunKeeps(n, k, before);
      var s := Run(n, k, before);
      assert t < |s.threads| ==> Fits(n, s, s.threads[t]);
    }
  }

  // ---- What a call comes to ----

  /** How many of the steps are those of thread `t`. */
  function Own(events: seq<nat>, t: nat): nat {
    if events == [] then 0 else (if events[|events| - 1] == t then 1 else 0) + Own(events[..|events| - 1], t)
  }

  /** What only the holder of the lock can change. */
  datatype View = View(pc: Pc, holder: Option<nat>, count: nat, gen: nat)

  function ViewOf(s: State, t: nat): View
    requires t < |s.threads|
  {
    View(s.threads[t], s.holder, s.count, s.gen)
  }

  /** The thread on its own. */
  function Alone(n: nat, s: State, t: nat, steps: nat): State {
    if steps == 0 then s else Step(n, Alone(n, s, t, steps - 1), t)
  }

  /** Nobody else touches what the lock guards while a thread holds it. */
  lemma {:induction false} OthersKeep(n: nat, s: State, t: nat, u: nat)
    requires Inv(n, s) && t < |s.threads| && u != t && s.holder == Some(t)
    ensures t < |Step(n, s, u).threads| && ViewOf(Step(n, s, u), t) == ViewOf(s, t)
  {
    if u < |s.threads| {
      assert Holding(s.threads[u]) <==> s.holder == Some(u);
    }
  }

  /** The step of a thread depends on nothing but its view. */
  lemma {:induction false} SameStep(n: nat, s: State, s': State, t: nat)
    requires t < |s.threads| && t < |s'.threads| && ViewOf(s, t) == ViewOf(s', t)
    ensures t < |Step(n, s, t).threads| && t < |Step(n, s', t).threads|
    ensures ViewOf(Step(n, s, t), t) == ViewOf(Step(n, s', t), t)
  {
  }

  /** A thread that holds the lock proceeds as if it were alone, whatever the others do. */
  lemma {:induction false} AsIfAlone(n: nat, s: State, t: nat, more: seq<nat>)
    requires n >= 1 && Inv(n, s) && t < |s.threads|
    requires forall i | 0 <= i < Own(more, t) :: Alone(n, s, t, i).holder == Some(t)
    requires more == [] || more[|more| - 1] == t || Alone(n, s, t, Own(more, t)).holder == Some(t)
    ensures var s' := After(n, s, more); Inv(n, s') && t < |s'.threads| && t < |Alone(n, s, t, Own(more, t)).threads|
    ensures ViewOf(After(n, s, more), t) == ViewOf(Alone(n, s, t, Own(more, t)), t)
    decreases |more|
  {
    hide Step, Inv;
    if more != [] {
      var m := |more| - 1;
      var less, u := more[..m], more[m];
      if u == t {
        assert Alone(n, s, t, Own(less, t)).holder == Some(t);
        AsIfAlone(n, s, t, less);
        SameStep(n, After(n, s, less), Alone(n, s, t, Own(less, t)), t);
      } else {
        AsIfAlone(n, s, t, less);
        OthersKeep(n, After(n, s, less), t, u);
      }
      StepKeeps(n, After(n, s, less), u);
    }
  }

  function After(n: nat, s: State, more: seq<nat>): State {
    if more == [] then s else Step(n, After(n, s, more[..|more| - 1]), more[|more| - 1])
  }

  lemma {:induction false} RunAfter(n: nat, k: nat, events: seq<nat>, more: seq<nat>)
    ensures Run(n, k, events + more) == After(n, Run(n, k, events), more)
    decreases |more|
  {
    hide Step;
    if more == [] {
      assert events + more == events;
    } else {
      var m := |more| - 1;
      assert (events + more)[..|events + more| - 1] == events + more[..m];
      RunAfter(n, k, events, more[..m]);
    }
  }

  lemma {:induction false} StepsAlone(n: nat, s: State, t: nat)
    ensures Alone(n, s, t, 0) == s && Alone(n, s, t, 1) == Step(n, s, t)
    ensures Alone(n, s, t, 2) == Step(n, Step(n, s, t), t)
    ensures Alone(n, s, t, 3) == Step(n, Step(n, Step(n, s, t), t), t)
  {
    hide Step;
    assert Alone(n, s, t, 1) == Step(n, Alone(n, s, t, 0), t);
    assert Alone(n, s, t, 2) == Step(n, Alone(n, s, t, 1), t);
    assert Alone(n, s, t, 3) == Step(n, Alone(n, s, t, 2), t);
  }

  /** The steps in which a thread holds the lock on its own. */
  lemma {:induction false} HoldsAlone(n: nat, s: State, t: nat)
    requires n >= 1 && Inv(n, s) && t < |s.threads|
    ensures s.threads[t].Arrive? && s.count + 1 < n ==>
      Alone(n, s, t, 1).holder == Some(t)
      && t < |Alone(n, s, t, 2).threads| && ViewOf(Alone(n, s, t, 2), t) == View(Spin(s.gen), None, s.count + 1, s.gen)
    ensures s.threads[t].Arrive? && s.count + 1 >= n ==>
      Alone(n, s, t, 1).holder == Alone(n, s, t, 2).holder == Some(t)
      && t < |Alone(n, s, t, 3).threads| && ViewOf(Alone(n, s, t, 3), t) == View(Done(true, s.gen), None, 0, s.gen + 1)
    ensures s.threads[t].Check? && s.threads[t].gen < s.gen ==>
      Alone(n, s, t, 1).holder == Some(t)
      && t < |Alone(n, s, t, 2).threads|
      && ViewOf(Alone(n, s, t, 2), t) == View(Done(false, s.threads[t].gen), None, s.count, s.gen)
    ensures s.threads[t].Check? && s.threads[t].gen == s.gen ==>
      t < |Alone(n, s, t, 1).threads| && ViewOf(Alone(n, s, t, 1), t) == View(Spin(s.gen), None, s.count, s.gen)
    ensures s.threads[t].Arrive? || s.threads[t].Check? ==> s.holder == Some(t)
  {
    hide Alone;
    StepsAlone(n, s, t);
    assert Fits(n, s, s.threads[t]);
  }

  /**
   In every interleaving, whatever the others do: a thread that got the lock to arrive waits if it is not the `n`-th,
   and otherwise ends the generation and is told to be the leader; a waiting thread that got the lock returns, and is
   told not to be, exactly if its generation is over. The lock is free again after each.
   */
  lemma {:induction false} Waits(n: nat, k: nat, events: seq<nat>, more: seq<nat>, t: nat)
    requires n >= 1 && t < k && more != [] && more[|more| - 1] == t
    ensures |Run(n, k, events).threads| == |Run(n, k, events + more).threads| == k
    ensures var s, v := Run(n, k, events), ViewOf(Run(n, k, events + more), t);
      && (s.threads[t].Arrive? && s.count + 1 < n && Own(more, t) == 2 ==>
         v == View(Spin(s.gen), None, s.count + 1, s.gen))
      && (s.threads[t].Arrive? && s.count + 1 >= n && Own(more, t) == 3 ==>
         v == View(Done(true, s.gen), None, 0, s.gen + 1))
      && (s.threads[t].Check? && s.threads[t].gen < s.gen && Own(more, t) == 2 ==>
           v == View(Done(false, s.threads[t].gen), None, s.count, s.gen))
      && (s.threads[t].Check? && s.threads[t].gen >= s.gen && Own(more, t) == 1 ==>
           v == View(Spin(s.gen), None, s.count, s.gen))
  {
    hide Run, Step, Alone, Inv, Own, Fits;
    RunKeeps(n, k, events);
    RunKeeps(n, k, events + more);
    RunAfter(n, k, events, more);
    var s, own := Run(n, k, events), Own(more, t);
    HoldsAlone(n, s, t);
    StepsAlone(n, s, t);
    InvFits(n, s, t);
    if (s.threads[t].Arrive? && s.count + 1 < n && own == 2) || (s.threads[t].Arrive? && s.count + 1 >= n && own == 3)
      || (s.threads[t].Check? && s.threads[t].gen < s.gen && own == 2)
      || (s.threads[t].Check? && s.threads[t].gen == s.gen && own == 1) {
      AsIfAlone(n, s, t, more);
    }
  }

  lemma {:induction false} InvFits(n: nat, s: State, t: nat)
    requires Inv(n, s) && t < |s.threads|
    ensures s.threads[t].Check? ==> s.threads[t].gen <= s.gen
  {
    assert Fits(n, s, s.threads[t]);
  }

  /** A call begins by wanting the lock, which the thread gets with its next step exactly if it is free, as it does when
      it waits; after a call the next one can begin. */
  lemma {:induction false} GetsLock(n: nat, k: nat, events: seq<nat>, t: nat)
    requires n >= 1 && t < k
    ensures |Run(n, k, events).threads| == |Run(n, k, events + [t]).threads| == k
    ensures var s, s' := Run(n, k, events), Run(n, k, events + [t]); var pc, pc' := s.threads[t], s'.threads[t];
      && (pc.Idle? ==> pc' == Want) && (pc.Done? ==> pc' == Idle)
      && (pc.Want? || pc.Spin? ==> (s.holder.None? <==> s'.holder == Some(t)) && s'.count == s.count && s'.gen == s.gen)
      && (pc.Want? ==> pc' == if s.holder.None? then Arrive else pc)
      && (pc.Spin? ==> pc' == if s.holder.None? then Check(pc.gen) else pc)
  {
    hide Run;
    RunKeeps(n, k, events);
    RunKeeps(n, k, events + [t]);
    RunAfter(n, k, events, [t]);
    var s := Run(n, k, events);
    assert [t][..0] == [] && After(n, s, [t]) == Step(n, After(n, s, []), t);
    assert Holding(s.threads[t]) <==> s.holder == Some(t);
  }
}
