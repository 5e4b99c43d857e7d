/**
 One-time initialisation (lib/spin/src/once.rs) and the lazily computed value on top of it
 (lib/spin/src/lazy_lock.rs), as threads that interleave one access at a time. Any closure may panic.
 */
module Lazy {
  import opened Options

  datatype Status = Incomplete | Poisoned | Running | Complete

  /** The union of the function and its value; `Gone` once the function was taken out. */
  datatype Data<V> = Func | Gone | Value(v: V)

  /**
   `Peek` reads the status before anything else; `Claim` tries to become the one who runs; `Call`, `Compute`,
   `Write` and `Finish` are inside; `Poll` waits for another; `Read` has come back and reads the value.
   `Watch` is in `wait`, `Look` in `get`.
   */
  datatype Pc<V> = Idle | Peek | Claim | Call | Compute | Write(v: V)
    | Finish | Poll | Watch | Look | Read | Has(v: V) | Waited | Panicked

  /** `broken` records that a read of the union found no value, or no function. */
  datatype State<V> = State(status: Status, data: Data<V>, threads: seq<Pc<V>>, broken: bool)

  /** What an idle thread does, and what the function computes; nothing computed means that it panics. */
  datatype Choice<V> = Rest | Force | Wait | Get | Result(v: Option<V>)

  function Start<V>(n: nat): State<V> {
    State(Incomplete, Func, seq(n, _ => Idle), false)
  }

  function Go<V>(s: State<V>, t: nat, pc: Pc<V>): State<V>
    requires t < |s.threads|
  {
    s.(threads := s.threads[t := pc])
  }

  function Step<V>(s: State<V>, t: nat, choice: Choice<V>): State<V> {
    if t >= |s.threads| then s
    else
      match s.threads[t]
      case Idle => Go(s, t, if choice.Force? then Peek else if choice.Wait? then Watch else if choice.Get? then Look
        else Idle)
      case Peek => Go(s, t, if s.status.Complete? then Read else Claim)
      case Claim =>
        (match s.status
         case Incomplete => Go(s.(status := Running), t, Call)
         case Complete => Go(s, t, Read)
         case Running => Go(s, t, Poll)
         case Poisoned => Go(s, t, Panicked))
      case Call => Go(s.(data := Gone, broken := s.broken || !s.data.Func?), t, Compute)
      case Compute => if choice.Result? && choice.v.Some? then Go(s, t, Write(choice.v.value))
                      else if choice.Result? then Go(s.(status := Poisoned), t, Panicked) else s
      case Write(v) => Go(s.(data := Value(v)), t, Finish)
      case Finish => Go(s.(status := Complete), t, Read)
      case Poll => if s.status.Complete? then Go(s, t, Claim) else if s.status.Poisoned? then Go(s, t, Panicked) else s
      case Watch => if s.status.Complete? then Go(s, t, Waited) else if s.status.Poisoned? then Go(s, t, Panicked)
        else s
      case Look => Go(s, t, if s.status.Complete? then Read else Idle)
      case Read => if s.data.Value? then Go(s, t, Has(s.data.v)) else Go(s.(broken := true), t, Panicked)
      case Has(_) => Go(s, t, Idle)
      case Waited => Go(s, t, Idle)
      case Panicked => s
  }

  function Run<V>(n: nat, events: seq<(nat, Choice<V>)>): State<V> {
    if events == [] then Start(n)
    else
      var (t, choice) := events[|events| - 1];
      Step(Run(n, events[..|events| - 1]), t, choice)
  }

  /** How often any thread went into the closure. */
  function Entries<V>(n: nat, events: seq<(nat, Choice<V>)>): nat {
    if events == [] then 0
    else
      var s, t := Run(n, events[..|events| - 1]), events[|events| - 1].0;
      Entries(n, events[..|events| - 1]) +
        if t < |s.threads| && s.threads[t].Claim? && Step(s, t, Rest).threads[t].Call? then 1 else 0
  }

  /** The thread is inside the closure, or about to mark it as done. */
  predicate Inside<V>(pc: Pc<V>) {
    pc.Call? || pc.Compute? || pc.Write? || pc.Finish?
  }

  /** The thread came back normally. */
  predicate Back<V>(pc: Pc<V>) {
    pc.Read? || pc.Has? || pc.Waited?
  }

  /** What a thread's place says about the shared state. */
  ghost predicate Fits<V>(s: State<V>, pc: Pc<V>) {
    && (Inside(pc) ==> s.status.Running?)
    && (pc.Call? ==> s.data.Func?)
    && ((pc.Compute? || pc.Write?) ==> s.data.Gone?)
    && (pc.Finish? ==> s.data.Value?)
    && (Back(pc) ==> s.status.Complete?)
    && (pc.Has? ==> s.data == Value(pc.v))
  }

  ghost predicate Inv<V>(s: State<V>) {
    && !s.broken
    && (forall t | 0 <= t < |s.threads| :: Fits(s, s.threads[t]))
    && (forall t, u | 0 <= t < u < |s.threads| :: !(Inside(s.threads[t]) && Inside(s.threads[u])))
    && (s.status.Running? ==> exists t :: 0 <= t < |s.threads| && Inside(s.threads[t]))
    && (s.status.Incomplete? ==> s.data.Func?)
    && (s.status.Complete? ==> s.data.Value?)
  }

  /** Nobody inside moved, and the shared state did not change. */
  lemma {:induction false} OnlyMoved<V>(s: State<V>, t: nat, pc: Pc<V>)
    requires Inv(s) && t < |s.threads| && !Inside(s.threads[t]) && !Inside(pc) && Fits(s, pc)
    ensures Inv(Go(s, t, pc))
  {
    var s' := Go(s, t, pc);
    assert forall u | 0 <= u < |s.threads| && u != t :: s'.threads[u] == s.threads[u];
    if s.status.Running? {
      var u :| 0 <= u < |s.threads| && Inside(s.threads[u]);
      assert Inside(s'.threads[u]);
    }
    forall u | 0 <= u < |s.threads| ensures Fits(s', s'.threads[u]) {
      assert u != t ==> Fits(s, s.threads[u]);
    }
  }

  /** One thread is or gets inside, or comes out: then no other is, and none of them has come back yet. */
  lemma {:induction false} InsideMoved<V>(s: State<V>, t: nat, s': State<V>, pc: Pc<V>)
    requires Inv(s) && t < |s.threads| && s'.threads == s.threads[t := pc] && !s'.broken
    requires s.status.Incomplete? || Inside(s.threads[t])
    requires Fits(s', pc) && (Inside(pc) <==> s'.status.Running?) && !s'.status.Incomplete?
    requires (s'.status.Complete? ==> s'.data.Value?)
    ensures Inv(s')
  {
    forall u | 0 <= u < |s.threads| && u != t ensures Fits(s', s'.threads[u]) && !Inside(s'.threads[u]) {
      assert s'.threads[u] == s.threads[u];
      assert Fits(s, s.threads[u]);
      assert Inside(s.threads[t]) ==> Fits(s, s.threads[t]);
    }
    assert s'.threads[t] == pc;
  }

  lemma {:induction false} StepKeeps<V>(s: State<V>, t: nat, choice: Choice<V>)
    requires Inv(s)
    ensures Inv(Step(s, t, choice)) && |Step(s, t, choice).threads| == |s.threads|
  {
    if t < |s.threads| {
      hide Inv;
      var pc, s' := s.threads[t], Step(s, t, choice);
      InvFacts(s, t);
      if Inside(pc) || (pc.Claim? && s.status.Incomplete?) {
        if s' != s {
          InsideMoved(s, t, s', s'.threads[t]);
        }
      } else {
        var pc' := s'.threads[t];
        if s' != s {
          assert s' == Go(s, t, pc');
          OnlyMoved(s, t, pc');
        }
      }
    }
  }

  lemma {:induction false} InvFacts<V>(s: State<V>, t: nat)
    requires Inv(s) && t < |s.threads|
    ensures Fits(s, s.threads[t]) && !s.broken && (s.status.Incomplete? ==> s.data.Func?)
    ensures (s.status.Complete? ==> s.data.Value?)
  {
  }

  lemma {:induction false} RunKeeps<V>(n: nat, events: seq<(nat, Choice<V>)>)
    ensures Inv(Run(n, events)) && |Run(n, events).threads| == n
    decreases |events|
  {
    if events != [] {
      hide Inv, Step;
      var (t, choice) := events[|events| - 1];
      RunKeeps(n, events[..|events| - 1]);
      StepKeeps(Run(n, events[..|events| - 1]), t, choice);
    }
  }

  lemma {:induction false} EntriesTell<V>(n: nat, events: seq<(nat, Choice<V>)>)
    ensures Entries(n, events) == if Run(n, events).status.Incomplete? then 0 else 1
    decreases |events|
  {
    if events != [] {
      var before := events[..|events| - 1];
      EntriesTell(n, before);
      RunKeeps(n, before);
      var s, t := Run(n, before), events[|events| - 1].0;
      if t < |s.threads| {
        assert Fits(s, s.threads[t]);
      }
    }
  }

  /**
   In every interleaving: the closure is entered at most once, and exactly once unless nobody got that far; every
   normal return comes after the value was written,
     and reads that value; the function and the value are never read when the other is there; and once
   all threads are done the status says which of the two, if any, is left.
   */
  lemma {:induction false} OnceOnly<V>(n: nat, events: seq<(nat, Choice<V>)>)
    ensures var s := Run(n, events);
      && |s.threads| == n && Entries(n, events) == (if s.status.Incomplete? then 0 else 1) && !s.broken
      && (forall t | 0 <= t < n && Back(s.threads[t]) :: s.status.Complete? && s.data.Value?)
      && (forall t | 0 <= t < n && s.threads[t].Has? :: s.data == Value(s.threads[t].v))
      && ((forall t | 0 <= t < n :: !Inside(s.threads[t])) ==>
           !s.status.Running? && (s.status.Incomplete? ==> s.data.Func?) && (s.status.Complete? ==> s.data.Value?))
  {
    RunKeeps(n, events);
    EntriesTell(n, events);
    var s := Run(n, events);
    forall t | 0 <= t < n ensures Fits(s, s.threads[t]) {
    }
  }

  /** Complete and poisoned are final, and so is the value. */
  lemma {:induction false} Final<V>(n: nat, events: seq<(nat, Choice<V>)>, more: seq<(nat, Choice<V>)>)
    ensures var s, s' := Run(n, events), Run(n, events + more);
      && (s.status.Poisoned? ==> s'.status.Poisoned?)
      && (s.status.Complete? ==> s'.status.Complete? && s'.data == s.data)
    decreases |more|
  {
    if more == [] {
      assert events + more == events;
    } else {
      hide Step, Inv;
      var m := |more| - 1;
      var es := events + more;
      assert es[..|es| - 1] == events + more[..m] && es[|es| - 1] == more[m];
      Final(n, events, more[..m]);
      RunKeeps(n, events + more[..m]);
      StepFinal(Run(n, events + more[..m]), more[m].0, more[m].1);
    }
  }

  lemma {:induction false} StepFinal<V>(s: State<V>, t: nat, choice: Choice<V>)
    requires Inv(s)
    ensures s.status.Poisoned? ==> Step(s, t, choice).status.Poisoned?
    ensures s.status.Complete? ==> Step(s, t, choice).status.Complete? && Step(s, t, choice).data == s.data
  {
    if t < |s.threads| {
      assert Fits(s, s.threads[t]);
    }
  }

  // ---- What a call comes to ----

  /** The choices in the steps of thread `t`. */
  function Mine<V>(events: seq<(nat, Choice<V>)>, t: nat): seq<Choice<V>> {
    if events == [] then []
    else
      var (u, choice) := events[|events| - 1];
      Mine(events[..|events| - 1], t) + if u == t then [choice] else []
  }

  function After<V>(s: State<V>, more: seq<(nat, Choice<V>)>): State<V> {
    if more == [] then s
    else
      var (u, choice) := more[|more| - 1];
      Step(After(s, more[..|more| - 1]), u, choice)
  }

  /** One thread and nobody else. */
  function Solo<V>(status: Status, data: Data<V>, pc: Pc<V>): State<V> {
    State(status, data, [pc], false)
  }

  lemma {:induction false} RunAfter<V>(n: nat, events: seq<(nat, Choice<V>)>, more: seq<(nat, Choice<V>)>)
    ensures Run(n, events + more) == After(Run(n, events), more)
    decreases |more|
  {
    hide Step;
    if more == [] {
      assert events + more == events;
    } else {
      var m := |more| - 1;
      assert (events + more)[..|events + more| - 1] == events + more[..m];
      RunAfter(n, events, more[..m]);
    }
  }

  /** Nobody else can change what the thread sees: it is inside, or the outcome is final. */
  ghost predicate Private<V>(s: State<V>, t: nat) {
    t < |s.threads| && (Inside(s.threads[t]) || s.status.Complete? || s.status.Poisoned?)
  }

  lemma {:induction false} OthersKeep<V>(s: State<V>, t: nat, u: nat, choice: Choice<V>)
    requires Inv(s) && Private(s, t) && u != t
    ensures var s' := Step(s, u, choice);
      t < |s'.threads| && s'.threads[t] == s.threads[t] && s'.status == s.status && s'.data == s.data
  {
    if u < |s.threads| {
      assert Fits(s, s.threads[u]) && Fits(s, s.threads[t]);
      assert Inside(s.threads[t]) ==> !Inside(s.threads[u]);
    }
  }

  /** The step of a thread depends on nothing but its place, the status and the data. */
  lemma {:induction false} SoloStep<V>(s: State<V>, t: nat, choice: Choice<V>)
    requires t < |s.threads|
    ensures var s', a := Step(s, t, choice), Step(Solo(s.status, s.data, s.threads[t]), 0, choice);
      && |s'.threads| == |s.threads| && |a.threads| == 1 && s'.threads[t] == a.threads[0]
      && s'.status == a.status && s'.data == a.data
  {
    match s.threads[t]
    case Idle =>
    case Peek =>
    case Claim =>
    case Call =>
    case Compute =>
    case Write(_) =>
    case Finish =>
    case Poll =>
    case Watch =>
    case Look =>
    case Read =>
    case Has(_) =>
    case Waited =>
    case Panicked =>
  }

  /** What the thread comes to on its own. */
  function Alone<V>(a: State<V>, choices: seq<Choice<V>>): State<V> {
    if choices == [] then a else Step(Alone(a, choices[..|choices| - 1]), 0, choices[|choices| - 1])
  }

  /** On its own, nobody else could interfere before any of its steps. */
  ghost predicate StaysPrivate<V>(a: State<V>, choices: seq<Choice<V>>) {
    forall i | 0 <= i < |choices| :: Private(Alone(a, choices[..i]), 0)
  }

  /** The two states agree in what thread `t` sees. */
  ghost predicate Sees<V>(s: State<V>, t: nat, a: State<V>) {
    t < |s.threads| && |a.threads| == 1 && s.threads[t] == a.threads[0] && s.status == a.status && s.data == a.data
  }

  lemma {:induction false} StillAlone<V>(s: State<V>, t: nat, less: seq<(nat, Choice<V>)>, mine: seq<Choice<V>>)
    requires Inv(s) && t < |s.threads| && StaysPrivate(Solo(s.status, s.data, s.threads[t]), mine)
    requires |Mine(less, t)| < |mine| && Mine(less, t) == mine[..|Mine(less, t)|]
    ensures Inv(After(s, less)) && Sees(After(s, less), t, Alone(Solo(s.status, s.data, s.threads[t]), Mine(less, t)))
    decreases |less|
  {
    hide Step, Inv;
    if less != [] {
      var m := |less| - 1;
      var fewer := less[..m];
      var (u, choice) := less[m];
      var a := Solo(s.status, s.data, s.threads[t]);
      assert u == t ==> Mine(less, t)[..|Mine(less, t)| - 1] == Mine(fewer, t);
      assert u == t ==> mine[..|Mine(fewer, t)|] == Mine(fewer, t);
      StillAlone(s, t, fewer, mine);
      var before := After(s, fewer);
      assert Private(Alone(a, mine[..|Mine(fewer, t)|]), 0);
      if u == t {
        SeesStep(before, t, Alone(a, Mine(fewer, t)), choice);
      } else {
        assert Mine(fewer, t) == Mine(less, t);
        OthersKeep(before, t, u, choice);
      }
      StepKeeps(before, u, choice);
    }
  }

  lemma {:induction false} SeesStep<V>(s: State<V>, t: nat, a: State<V>, choice: Choice<V>)
    requires Sees(s, t, a)
    ensures Sees(Step(s, t, choice), t, Step(a, 0, choice))
  {
    hide Step;
    SoloStep(s, t, choice);
    SoloStep(a, 0, choice);
  }

  /** A thread that is inside, or comes when the outcome is final, proceeds as if it were alone. */
  lemma {:induction false} AsIfAlone<V>(s: State<V>, t: nat, more: seq<(nat, Choice<V>)>)
    requires Inv(s) && t < |s.threads| && more != [] && more[|more| - 1].0 == t
    requires StaysPrivate(Solo(s.status, s.data, s.threads[t]), Mine(more, t))
    ensures Sees(After(s, more), t, Alone(Solo(s.status, s.data, s.threads[t]), Mine(more, t)))
  {
    hide Step, Inv;
    var m := |more| - 1;
    var less, mine := more[..m], Mine(more, t);
    assert mine[..|mine| - 1] == Mine(less, t);
    StillAlone(s, t, less, mine);
    SeesStep(After(s, less), t, Alone(Solo(s.status, s.data, s.threads[t]), Mine(less, t)), more[m].1);
  }

  lemma {:induction false} StepsAlone<V>(a: State<V>, cs: seq<Choice<V>>)
    ensures Alone(a, cs[..0]) == a
    ensures |cs| >= 1 ==> Alone(a, cs[..1]) == Step(a, 0, cs[0])
    ensures |cs| >= 2 ==> Alone(a, cs[..2]) == Step(Alone(a, cs[..1]), 0, cs[1])
    ensures |cs| >= 3 ==> Alone(a, cs[..3]) == Step(Alone(a, cs[..2]), 0, cs[2])
    ensures |cs| >= 4 ==> Alone(a, cs[..4]) == Step(Alone(a, cs[..3]), 0, cs[3])
    ensures |cs| >= 5 ==> Alone(a, cs[..5]) == Step(Alone(a, cs[..4]), 0, cs[4])
  {
    hide Step;
    assert |cs| >= 1 ==> cs[..1][..0] == cs[..0];
    assert |cs| >= 2 ==> cs[..2][..1] == cs[..1];
    assert |cs| >= 3 ==> cs[..3][..2] == cs[..2];
    assert |cs| >= 4 ==> cs[..4][..3] == cs[..3];
    assert |cs| >= 5 ==> cs[..5][..4] == cs[..4];
  }

  /** Calls that begin when the value is there, on their own. */
  lemma {:induction false} ServedAlone<V>(v: V, cs: seq<Choice<V>>)
    requires cs != [] && if cs[0].Wait? then |cs| == 2 else (cs[0].Force? || cs[0].Get?) && |cs| == 3
    ensures var a := Solo(Complete, Value(v), Idle);
      StaysPrivate(a, cs) && Alone(a, cs) == Solo(Complete, Value(v), if cs[0].Wait? then Waited else Has(v))
  {
    hide Alone;
    StepsAlone(Solo(Complete, Value(v), Idle), cs);
    assert cs[..|cs|] == cs;
  }

  /** Calls that begin when the closure has panicked, on their own. */
  lemma {:induction false} RefusedAlone<V>(data: Data<V>, cs: seq<Choice<V>>)
    requires cs != [] && if cs[0].Force? then |cs| == 3 else (cs[0].Wait? || cs[0].Get?) && |cs| == 2
    ensures var a := Solo(Poisoned, data, Idle);
      StaysPrivate(a, cs) && Alone(a, cs) == Solo(Poisoned, data, if cs[0].Get? then Idle else Panicked)
  {
    hide Alone;
    StepsAlone(Solo(Poisoned, data, Idle), cs);
    assert cs[..|cs|] == cs;
  }

  /** The thread that runs the closure, on its own. */
  lemma {:induction false} RunsAlone<V>(cs: seq<Choice<V>>)
    requires |cs| >= 2 && cs[1].Result? && |cs| == if cs[1].v.Some? then 5 else 2
    ensures var a := Solo(Running, Func, Call);
      StaysPrivate(a, cs) && Alone(a, cs) ==
        if cs[1].v.Some? then Solo(Complete, Value(cs[1].v.value), Has(cs[1].v.value))
          else Solo(Poisoned, Gone, Panicked)
  {
    hide Alone;
    StepsAlone(Solo(Running, Func, Call), cs);
    assert cs[..|cs|] == cs;
  }

  /**
   In every interleaving, whatever the others do: once the value is there, `force` and `get` return it and `wait`
   returns; once the closure has panicked, `force` and `wait` panic and `get` has nothing; and the thread that runs the
   closure returns what it computed and leaves it there, or poisons the cell.
   */
  lemma {:induction false} Calls<V>(n: nat, events: seq<(nat, Choice<V>)>, more: seq<(nat, Choice<V>)>, t: nat)
    requires t < n && more != [] && more[|more| - 1].0 == t && Mine(more, t) != []
    ensures |Run(n, events).threads| == |Run(n, events + more).threads| == n
    ensures var s, s', cs := Run(n, events), Run(n, events + more), Mine(more, t);
      var pc, pc' := s.threads[t], s'.threads[t];
      && (pc.Idle? && s.status.Complete? && |cs| == 3 && (cs[0].Force? || cs[0].Get?) ==>
           pc'.Has? && s.data == s'.data == Value(pc'.v))
      && (pc.Idle? && s.status.Complete? && |cs| == 2 && cs[0].Wait? ==> pc'.Waited?)
      && (pc.Idle? && s.status.Poisoned? && |cs| == 3 && cs[0].Force? ==> pc'.Panicked?)
      && (pc.Idle? && s.status.Poisoned? && |cs| == 2 && cs[0].Wait? ==> pc'.Panicked?)
      && (pc.Idle? && s.status.Poisoned? && |cs| == 2 && cs[0].Get? ==> pc'.Idle?)
      && (pc.Call? && |cs| == 5 && cs[1].Result? && cs[1].v.Some? ==>
           pc' == Has(cs[1].v.value) && s'.status.Complete? && s'.data == Value(cs[1].v.value))
      && (pc.Call? && |cs| == 2 && cs[1].Result? && cs[1].v.None? ==> pc'.Panicked? && s'.status.Poisoned?)
  {
    hide Run, Step, Alone, Inv, Mine, After, StaysPrivate;
    RunKeeps(n, events);
    RunKeeps(n, events + more);
    RunAfter(n, events, more);
    var s, cs := Run(n, events), Mine(more, t);
    var pc := s.threads[t];
    InvFacts(s, t);
    if pc.Idle? && s.status.Complete? && if cs[0].Wait? then |cs| == 2 else (cs[0].Force? || cs[0].Get?) && |cs| == 3 {
      ServedAlone(s.data.v, cs);
      AsIfAlone(s, t, more);
    } else if pc.Idle? && s.status.Poisoned? && if cs[0].Force? then |cs| == 3
      else (cs[0].Wait? || cs[0].Get?) && |cs| == 2 {
      RefusedAlone(s.data, cs);
      AsIfAlone(s, t, more);
    } else if pc.Call? && |cs| >= 2 && cs[1].Result? && |cs| == if cs[1].v.Some? then 5 else 2 {
      RunsAlone(cs);
      AsIfAlone(s, t, more);
    }
  }

  /** Who comes first runs the closure; who comes while it runs waits and then looks again; `get` does not wait. */
  lemma {:induction false} Begins<V>(s: State<V>, t: nat, choice: Choice<V>)
    requires Inv(s) && t < |s.threads|
    ensures var s' := Step(s, t, choice);
      && |s'.threads| == |s.threads|
      && (s.threads[t].Peek? && !s.status.Complete? ==> s'.threads[t].Claim?)
      && (s.threads[t].Claim? && s.status.Incomplete? ==> s'.threads[t].Call? && s'.status.Running?)
      && (s.threads[t].Claim? && s.status.Running? ==> s'.threads[t].Poll?)
      && (s.threads[t].Poll? && !s.status.Poisoned? ==> if s.status.Complete? then s'.threads[t].Claim? else s' == s)
      && (s.threads[t].Watch? && s.status.Running? ==> s' == s)
      && (s.threads[t].Look? && !s.status.Complete? ==> s'.threads[t].Idle?)
  {
    assert Fits(s, s.threads[t]);
  }
}
