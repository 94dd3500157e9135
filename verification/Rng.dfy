/** Initialization by mtCallOnce and the reference-counted global generator, as steps of
    threads on shared variables. Any interleaving is a list of events. */
module Rng {

  const SizeMax: nat := 0xFFFF_FFFF_FFFF_FFFF

  datatype Option<+T> = None | Some(value: T)

  // What a thread can be asked to do: rngCreate, rngClose, rngIsValid
  datatype Job = Create | Close | Check

  datatype Pc =
    | Idle
    | TryOnce                // before the compare-and-swap of mtCallOnce
    | RunFn                  // in rngInit, before the mutex is made
    | FnMutex                // in rngInit, before the destructor is registered
    | FnDone                 // rngInit has returned, the trigger is still taken
    | AfterOnce              // mtCallOnce has returned
    | Waiting(job: Job)      // for the mutex
    | Inside(job: Job)       // the mutex is held
    | Polling                // in rngCreate, with a new state block
    | Leaving                // before the mutex is released

  // held: how many times the thread has created the generator and not closed it
  datatype Thread = Thread(pc: Pc, held: nat)

  // The variables the threads share: the trigger, the mutex and its owner, _inited, _ctr and
  // whether _state is not null. The last four fields are history.
  datatype Shared = Shared(
    once: nat,
    mutex: bool,
    inited: bool,
    owner: Option<nat>,
    ctr: int,
    state: bool,
    fnStarts: nat,
    fnFinished: bool,
    creates: nat,
    closes: nat)

  datatype State = State(v: Shared, threads: seq<Thread>)

  // A call, or one more step of the current call; ok is what the environment answers.
  datatype Event = Call(job: Job) | Go(ok: bool)

  // ---------------------------------------------------------------- one step of a thread

  // Calling: a caller closes only what it has created.
  function CallStep(v: Shared, th: Thread, job: Job): Thread
  {
    match job
    case Create => th.(pc := TryOnce)
    case Close => if th.held > 0 then th.(pc := Waiting(Close)) else th
    case Check => if v.inited then th.(pc := Waiting(Check)) else th
  }

  // mtCallOnce: mtAtomicCmpSwap(once, 0, SIZE_MAX) and what follows from the value it
  // returns; then rngInit, where making the mutex or registering the destructor may fail.
  function OnceStep(v: Shared, th: Thread, ok: bool): (Shared, Thread)
  {
    match th.pc
    case TryOnce =>
      if v.once == 0 then (v.(once := SizeMax, fnStarts := v.fnStarts + 1), th.(pc := RunFn))
      else if v.once == SizeMax then (v, th)
      else (v, th.(pc := AfterOnce))
    case RunFn => if ok then (v.(mutex := true), th.(pc := FnMutex)) else (v.(fnFinished := true), th.(pc := FnDone))
    case FnMutex => (v.(inited := ok, mutex := ok, fnFinished := true), th.(pc := FnDone))
    case FnDone => (v.(once := 1), th.(pc := AfterOnce))
    case AfterOnce => (v, th.(pc := if v.inited then Waiting(Create) else Idle))
    case _ => (v, th)
  }

  // rngCreate under the mutex: another reference, or a new state that needs enough entropy.
  function CreateStep(v: Shared, th: Thread, ok: bool): (Shared, Thread)
  {
    if th.pc.Polling? then
      if ok then (v.(ctr := 1, creates := v.creates + 1), Thread(Leaving, th.held + 1))
      else (v.(state := false), th.(pc := Leaving))
    else if v.ctr != 0 then (v.(ctr := v.ctr + 1, creates := v.creates + 1), Thread(Leaving, th.held + 1))
    else if ok then (v.(state := true), th.(pc := Polling))
    else (v, th.(pc := Leaving))
  }

  function CloseStep(v: Shared, th: Thread): (Shared, Thread)
  {
    var c := v.ctr - 1;
    (v.(ctr := c, state := if c == 0 then false else v.state, closes := v.closes + 1),
     Thread(Leaving, if th.held > 0 then th.held - 1 else 0))
  }

  // What rngIsValid returns.
  predicate IsValid(v: Shared)
  {
    v.ctr != 0 && v.state
  }

  function Local(v: Shared, t: nat, th: Thread, e: Event): (Shared, Thread)
  {
    var ok := e.Go? && e.ok;
    match th.pc
    case Idle => (v, if e.Call? then CallStep(v, th, e.job) else th)
    case Waiting(job) => if v.owner.None? then (v.(owner := Some(t)), th.(pc := Inside(job))) else (v, th)
    case Inside(job) =>
      if job.Create? then CreateStep(v, th, ok)
      else if job.Close? then CloseStep(v, th)
      else (v, th.(pc := Leaving))
    case Polling => CreateStep(v, th, ok)
    case Leaving => (v.(owner := None), th.(pc := Idle))
    case _ => OnceStep(v, th, ok)
  }

  function Step(s: State, t: nat, e: Event): (s': State)
    requires t < |s.threads|
    ensures |s'.threads| == |s.threads|
  {
    var (v, th) := Local(s.v, t, s.threads[t], e);
    State(v, s.threads[t := th])
  }

  function Start(n: nat): State
  {
    State(Shared(0, false, false, None, 0, false, 0, false, 0, 0), seq(n, _ => Thread(Idle, 0)))
  }

  // The state after a list of events; an event names a thread.
  function Exec(n: nat, run: seq<(nat, Event)>): (s: State)
    requires forall i :: 0 <= i < |run| ==> run[i].0 < n
    ensures |s.threads| == n
  {
    if run == [] then Start(n)
    else Step(Exec(n, run[..|run| - 1]), run[|run| - 1].0, run[|run| - 1].1)
  }

  // ---------------------------------------------------------------- the invariant

  predicate InFn(pc: Pc)
  {
    pc.RunFn? || pc.FnMutex? || pc.FnDone?
  }

  predicate HasMutex(pc: Pc)
  {
    pc.Inside? || pc.Polling? || pc.Leaving?
  }

  ghost function Sum(threads: seq<Thread>): nat
  {
    if threads == [] then 0 else Sum(threads[..|threads| - 1]) + threads[|threads| - 1].held
  }

  // The trigger and rngInit: what the shared variables say, and what a thread may rely on.
  predicate OnceVars(v: Shared)
  {
    && (v.once == 0 || v.once == 1 || v.once == SizeMax)
    && v.fnStarts == (if v.once == 0 then 0 else 1)
    && (v.once == 0 ==> !v.fnFinished) && (v.once == 1 ==> v.fnFinished)
    && (v.inited ==> v.fnFinished && v.mutex)
  }

  predicate OnceOk(v: Shared, th: Thread)
  {
    && (InFn(th.pc) ==> v.once == SizeMax)
    && (th.pc.RunFn? || th.pc.FnMutex? ==> !v.inited && !v.fnFinished)
    && (th.pc.FnMutex? ==> v.mutex)
    && (th.pc.FnDone? ==> v.fnFinished)
    && (th.pc.AfterOnce? ==> v.once == 1)
    && (th.pc.Waiting? || HasMutex(th.pc) || th.held > 0 ==> v.inited)
  }

  // Two threads in rngInit are one.
  predicate OnlyOne(s: State, t: nat, u: nat)
    requires t < |s.threads| && u < |s.threads|
  {
    InFn(s.threads[t].pc) && InFn(s.threads[u].pc) ==> t == u
  }

  ghost predicate OnceInv(s: State)
  {
    && OnceVars(s.v)
    && (forall t :: 0 <= t < |s.threads| ==> OnceOk(s.v, s.threads[t]))
    && (forall t, u :: 0 <= t < |s.threads| && 0 <= u < |s.threads| ==> OnlyOne(s, t, u))
    && (s.v.once == SizeMax ==> exists t :: 0 <= t < |s.threads| && InFn(s.threads[t].pc))
  }

  // The mutex: its owner is the thread inside.
  predicate Owns(v: Shared, t: nat, th: Thread)
  {
    HasMutex(th.pc) <==> v.owner == Some(t)
  }

  // The generator, as the thread inside sees it.
  predicate CountOk(v: Shared, th: Thread)
  {
    && (th.pc.Polling? ==> v.state && v.ctr == 0)
    && (th.pc.Inside? || th.pc.Leaving? ==> (v.state <==> v.ctr > 0))
    && (th.pc == Waiting(Close) || th.pc == Inside(Close) ==> th.held > 0)
  }

  ghost predicate MutexInv(s: State)
  {
    && (forall t :: 0 <= t < |s.threads| ==> Owns(s.v, t, s.threads[t]))
    && (forall t :: 0 <= t < |s.threads| ==> CountOk(s.v, s.threads[t]))
    && (s.v.owner.None? ==> (s.v.state <==> s.v.ctr > 0))
  }

  ghost predicate CountInv(s: State)
  {
    s.v.ctr == Sum(s.threads) == s.v.creates - s.v.closes
  }

  ghost predicate Inv(s: State)
  {
    OnceInv(s) && MutexInv(s) && CountInv(s)
  }

  // ---------------------------------------------------------------- sums

  lemma {:induction false} SumUpdate(threads: seq<Thread>, t: nat, th: Thread)
    requires t < |threads|
    ensures Sum(threads[t := th]) == Sum(threads) - threads[t].held + th.held
  {
    var n := |threads| - 1;
    if t < n {
      SumUpdate(threads[..n], t, th);
      assert threads[t := th][..n] == threads[..n][t := th];
    } else {
      assert threads[t := th][..n] == threads[..n];
    }
  }

  lemma {:induction false} SumAtLeast(threads: seq<Thread>, t: nat)
    requires t < |threads|
    ensures Sum(threads) >= threads[t].held
  {
    var n := |threads| - 1;
    if t < n {
      SumAtLeast(threads[..n], t);
    }
  }

  lemma {:induction false} SumNothing(n: nat)
    ensures Sum(Start(n).threads) == 0
  {
    if n > 0 {
      SumNothing(n - 1);
      assert Start(n).threads[..n - 1] == Start(n - 1).threads;
    }
  }

  // ---------------------------------------------------------------- every step keeps it

  lemma StartInv(n: nat)
    ensures Inv(Start(n))
  {
    SumNothing(n);
  }

  // A step as the thread that makes it sees the trigger, and as another thread u does.
  lemma OnceLocal(v: Shared, t: nat, th: Thread, e: Event)
    requires OnceVars(v) && OnceOk(v, th)
    ensures var (w, th') := Local(v, t, th, e);
            && OnceVars(w) && OnceOk(w, th')
            && (InFn(th'.pc) ==> InFn(th.pc) || v.once == 0)
            && (w.once == SizeMax ==> InFn(th'.pc) || (v.once == SizeMax && !InFn(th.pc)))
  {
    hide OnceStep, CallStep, CreateStep, CloseStep;
    var ok := e.Go? && e.ok;
    if e.Call? && th.pc == Idle {
      OnceCall(v, th, e.job);
    }
    if OnceSteps(th.pc) {
      OnceStepKeeps(v, th, ok);
    }
    if th.pc.Inside? || th.pc.Polling? {
      OnceUntouched(v, th, ok);
    }
  }

  predicate OnceSteps(pc: Pc)
  {
    pc.TryOnce? || InFn(pc) || pc.AfterOnce?
  }

  lemma OnceCall(v: Shared, th: Thread, job: Job)
    requires th.pc == Idle && OnceOk(v, th)
    ensures var th' := CallStep(v, th, job); OnceOk(v, th') && !InFn(th'.pc)
  {
  }

  lemma OnceStepKeeps(v: Shared, th: Thread, ok: bool)
    requires OnceVars(v) && OnceOk(v, th) && OnceSteps(th.pc)
    ensures var (w, th') := OnceStep(v, th, ok);
            && OnceVars(w) && OnceOk(w, th')
            && (InFn(th'.pc) ==> InFn(th.pc) || v.once == 0)
            && (w.once == SizeMax ==> InFn(th'.pc) || (v.once == SizeMax && !InFn(th.pc)))
  {
  }

  lemma OnceUntouched(v: Shared, th: Thread, ok: bool)
    requires OnceVars(v) && OnceOk(v, th) && (th.pc.Inside? || th.pc.Polling?)
    ensures var (w, th') := CreateStep(v, th, ok);
            OnceVars(w) && OnceOk(w, th') && !InFn(th'.pc) && w.once == v.once
    ensures var (w, th') := CloseStep(v, th);
            OnceVars(w) && OnceOk(w, th') && !InFn(th'.pc) && w.once == v.once
  {
  }

  lemma OnceOther(v: Shared, t: nat, th: Thread, e: Event, u: Thread)
    requires OnceVars(v) && OnceOk(v, th) && OnceOk(v, u) && !(InFn(th.pc) && InFn(u.pc))
    ensures OnceOk(Local(v, t, th, e).0, u)
  {
  }

  lemma OnceKept(s: State, t: nat, e: Event)
    requires Inv(s) && t < |s.threads|
    ensures OnceInv(Step(s, t, e))
  {
    hide Local, OnceVars, OnceOk, MutexInv, CountInv;
    var s' := Step(s, t, e);
    OnceLocal(s.v, t, s.threads[t], e);
    forall u | 0 <= u < |s'.threads|
      ensures OnceOk(s'.v, s'.threads[u])
    {
      if u != t {
        assert OnlyOne(s, t, u);
        OnceOther(s.v, t, s.threads[t], e, s.threads[u]);
      }
    }
    forall u, w | 0 <= u < |s'.threads| && 0 <= w < |s'.threads|
      ensures OnlyOne(s', u, w)
    {
      assert OnlyOne(s, u, w);
      FnTaken(s.v, s.threads[u]);
      FnTaken(s.v, s.threads[w]);
    }
    if s'.v.once == SizeMax {
      if InFn(s'.threads[t].pc) {
      } else {
        var r :| 0 <= r < |s.threads| && InFn(s.threads[r].pc);
        assert InFn(s'.threads[r].pc);
      }
    }
  }

  lemma FnTaken(v: Shared, th: Thread)
    requires OnceOk(v, th)
    ensures InFn(th.pc) ==> v.once != 0
  {
  }

  lemma MutexLocal(v: Shared, t: nat, th: Thread, e: Event)
    requires OnceVars(v) && OnceOk(v, th) && Owns(v, t, th) && CountOk(v, th) && v.ctr >= th.held
    requires v.owner.None? ==> (v.state <==> v.ctr > 0)
    ensures var (w, th') := Local(v, t, th, e);
            && Owns(w, t, th') && CountOk(w, th')
            && (w.owner.None? ==> (w.state <==> w.ctr > 0))
            && w.ctr - v.ctr == th'.held - th.held == (w.creates - v.creates) - (w.closes - v.closes)
            && (w.owner != v.owner ==> v.owner == Some(t) || (w.owner == Some(t) && v.owner == None))
            && (w.owner != v.owner && v.owner == Some(t) ==> w.owner == None)
            && (w.ctr != v.ctr || w.state != v.state ==> HasMutex(th.pc))
  {
    hide OnceStep, CallStep, CreateStep, CloseStep, OnceVars;
    var ok := e.Go? && e.ok;
    if e.Call? && th.pc == Idle {
      MutexCall(v, th, e.job);
    }
    if OnceSteps(th.pc) {
      MutexUntouched(v, th, ok);
    }
    if th.pc.Inside? || th.pc.Polling? {
      MutexHeld(v, th, ok);
    }
  }

  lemma MutexCall(v: Shared, th: Thread, job: Job)
    requires th.pc == Idle && CountOk(v, th)
    ensures var th' := CallStep(v, th, job); CountOk(v, th') && !HasMutex(th'.pc) && th'.held == th.held
  {
  }

  lemma MutexUntouched(v: Shared, th: Thread, ok: bool)
    requires OnceSteps(th.pc) && CountOk(v, th)
    ensures var (w, th') := OnceStep(v, th, ok);
            && CountOk(w, th') && !HasMutex(th.pc) && !HasMutex(th'.pc) && th'.held == th.held
            && w == v.(once := w.once, fnStarts := w.fnStarts, fnFinished := w.fnFinished, inited := w.inited, mutex := w.mutex)
  {
  }

  lemma MutexHeld(v: Shared, th: Thread, ok: bool)
    requires CountOk(v, th) && v.ctr >= th.held
    ensures th.pc.Polling? || th.pc == Inside(Create) ==>
              var (w, th') := CreateStep(v, th, ok);
              && CountOk(w, th') && HasMutex(th'.pc) && w.owner == v.owner
              && w.ctr - v.ctr == th'.held - th.held == (w.creates - v.creates) - (w.closes - v.closes)
    ensures th.pc == Inside(Close) ==>
              var (w, th') := CloseStep(v, th);
              && CountOk(w, th') && HasMutex(th'.pc) && w.owner == v.owner
              && w.ctr - v.ctr == th'.held - th.held == (w.creates - v.creates) - (w.closes - v.closes)
  {
  }

  lemma MutexKept(s: State, t: nat, e: Event)
    requires Inv(s) && t < |s.threads|
    ensures MutexInv(Step(s, t, e)) && CountInv(Step(s, t, e))
  {
    hide Local, OnceVars, OnceOk, Sum;
    var s' := Step(s, t, e);
    SumUpdate(s.threads, t, s'.threads[t]);
    SumAtLeast(s.threads, t);
    MutexLocal(s.v, t, s.threads[t], e);
    forall u: nat | u < |s'.threads|
      ensures Owns(s'.v, u, s'.threads[u]) && CountOk(s'.v, s'.threads[u])
    {
      assert Owns(s.v, u, s.threads[u]) && CountOk(s.v, s.threads[u]);
      if u != t {
        MutexOther(s.v, s'.v, t, s.threads[t], u, s.threads[u]);
      }
    }
  }

  // What the thread u sees of a step of the thread t.
  lemma MutexOther(v: Shared, w: Shared, t: nat, th: Thread, u: nat, thu: Thread)
    requires u != t && Owns(v, t, th) && Owns(v, u, thu) && CountOk(v, thu)
    requires w.owner != v.owner ==> v.owner == Some(t) || (w.owner == Some(t) && v.owner == None)
    requires w.owner != v.owner && v.owner == Some(t) ==> w.owner == None
    requires w.ctr != v.ctr || w.state != v.state ==> HasMutex(th.pc)
    ensures Owns(w, u, thu) && CountOk(w, thu)
  {
  }

  lemma {:induction false} Reachable(n: nat, run: seq<(nat, Event)>)
    requires forall i :: 0 <= i < |run| ==> run[i].0 < n
    ensures Inv(Exec(n, run))
  {
    hide Inv, Step;
    if run == [] {
      StartInv(n);
    } else {
      Reachable(n, run[..|run| - 1]);
      StepKept(Exec(n, run[..|run| - 1]), run[|run| - 1].0, run[|run| - 1].1);
    }
  }

  lemma StepKept(s: State, t: nat, e: Event)
    requires Inv(s) && t < |s.threads|
    ensures Inv(Step(s, t, e))
  {
    hide OnceInv, MutexInv, CountInv, Step;
    OnceKept(s, t, e);
    MutexKept(s, t, e);
  }

  // ---------------------------------------------------------------- what it means

  /** In every interleaving rngInit starts at most once, no thread is past mtCallOnce before
      it has finished, and the mutex that a thread waits for exists. */
  lemma InitializedOnce(n: nat, run: seq<(nat, Event)>, t: nat)
    requires (forall i :: 0 <= i < |run| ==> run[i].0 < n) && t < n
    ensures var s := Exec(n, run);
            var th := s.threads[t];
            && s.v.fnStarts <= 1
            && (th.pc.AfterOnce? || th.pc.Waiting? || HasMutex(th.pc) || th.held > 0
                ==> s.v.fnStarts == 1 && s.v.fnFinished)
            && (th.pc.Waiting? || HasMutex(th.pc) ==> s.v.inited && s.v.mutex)
  {
    hide Exec, MutexInv, CountInv;
    Reachable(n, run);
    assert OnceOk(Exec(n, run).v, Exec(n, run).threads[t]);
  }

  /** A thread spins in mtCallOnce only while another thread runs rngInit. */
  lemma SpinsForAnother(n: nat, run: seq<(nat, Event)>, t: nat, e: Event) returns (u: nat)
    requires (forall i :: 0 <= i < |run| ==> run[i].0 < n) && t < n
    requires var s := Exec(n, run); s.threads[t].pc.TryOnce? && Step(s, t, e).threads[t].pc.TryOnce?
    ensures u < n && u != t && InFn(Exec(n, run).threads[u].pc)
  {
    hide Exec, MutexInv, CountInv;
    Reachable(n, run);
    var s := Exec(n, run);
    u :| 0 <= u < |s.threads| && InFn(s.threads[u].pc);
  }

  /** In every interleaving, whenever the mutex is free: the state exists exactly when the
      counter is positive, and the counter is successful creates minus closes, also after
      creates that failed. */
  lemma CountsReferences(n: nat, run: seq<(nat, Event)>)
    requires forall i :: 0 <= i < |run| ==> run[i].0 < n
    ensures var s := Exec(n, run);
            && s.v.ctr == s.v.creates - s.v.closes == Sum(s.threads)
            && (s.v.owner.None? ==> (s.v.state <==> s.v.ctr > 0))
  {
    hide Exec, OnceInv, Sum;
    Reachable(n, run);
  }

  /** A close finds a positive counter and a state, and rngIsValid answers TRUE to a thread
      that holds the generator; in general it answers whether anyone does. */
  lemma HeldIsValid(n: nat, run: seq<(nat, Event)>, t: nat)
    requires (forall i :: 0 <= i < |run| ==> run[i].0 < n) && t < n
    ensures var s := Exec(n, run);
            && (s.threads[t].pc.Inside? ==> (IsValid(s.v) <==> Sum(s.threads) > 0))
            && (s.threads[t].pc == Inside(Close) ==> IsValid(s.v))
            && (s.threads[t].pc.Inside? && s.threads[t].held > 0 ==> IsValid(s.v))
  {
    hide Exec, OnceInv, Sum;
    Reachable(n, run);
    SumAtLeast(Exec(n, run).threads, t);
    assert CountOk(Exec(n, run).v, Exec(n, run).threads[t]);
  }

  /** How a create ends, in every interleaving. With a positive counter it takes one more
      reference, whatever the environment answers. With the counter 0 it makes the state and
      takes the first reference when both answers are favourable, and otherwise leaves neither
      state nor reference behind. It is given up before the mutex exactly when the
      initialization has failed. */
  lemma CreateOutcome(n: nat, run: seq<(nat, Event)>, t: nat, e: Event)
    requires (forall i :: 0 <= i < |run| ==> run[i].0 < n) && t < n
    ensures var s := Exec(n, run);
            var s' := Step(s, t, e);
            var th, th' := s.threads[t], s'.threads[t];
            && (th.pc == Inside(Create) && s.v.ctr > 0 ==>
                th'.pc == Leaving && th'.held == th.held + 1 && s'.v.ctr == s.v.ctr + 1 && s'.v.state)
            && (th.pc == Inside(Create) && s.v.ctr <= 0 ==>
                th'.held == th.held && s'.v.ctr == 0
                && if e == Go(true) then th'.pc == Polling && s'.v.state else th'.pc == Leaving && !s'.v.state)
            && (th.pc == Polling ==>
                th'.pc == Leaving
                && if e == Go(true) then th'.held == th.held + 1 && s'.v.ctr == 1 && s'.v.state
                   else th'.held == th.held && s'.v.ctr == 0 && !s'.v.state)
            && (th.pc == AfterOnce ==> th'.held == th.held && th'.pc == if s.v.inited then Waiting(Create) else Idle)
  {
    hide Exec, OnceInv, Sum;
    Reachable(n, run);
    var s := Exec(n, run);
    SumAtLeast(s.threads, t);
    assert CountOk(s.v, s.threads[t]);
  }

  /** Alone and with favourable answers, a thread that calls rngCreate ends with the generator,
      and rngClose then takes the state away. */
  lemma AloneCreatesAndCloses(n: nat, t: nat)
    requires t < n
    ensures var create := [(t, Call(Create))] + seq(9, _ => (t, Go(true)));
            var s := Exec(n, create);
            && s.threads[t] == Thread(Idle, 1) && s.v.ctr == 1 && s.v.state && s.v.inited && s.v.owner == None
            && var s' := Exec(n, create + ([(t, Call(Close))] + seq(3, _ => (t, Go(true)))));
               s'.threads[t] == Thread(Idle, 0) && s'.v.ctr == 0 && !s'.v.state && s'.v.owner == None
  {
    hide Exec;
    var g := (t, Go(true));
    var a, b := [(t, Call(Create))] + seq(9, _ => g), [(t, Call(Close))] + seq(3, _ => g);
    assert a == [(t, Call(Create)), g, g, g, g, g, g, g, g, g] && b == [(t, Call(Close)), g, g, g];
    var s := ExecEmpty(n);
    var r, v := Initialize(n, t, s.v);
    var r', v' := Make(n, r, t, v);
    assert r' == a;
    var r'', v'' := Unmake(n, r', t, v');
    assert r'' == a + b;
  }

  lemma Initialize(n: nat, t: nat, v0: Shared) returns (r: seq<(nat, Event)>, v: Shared)
    requires t < n && v0 == Start(n).v
    ensures var g := (t, Go(true)); r == [(t, Call(Create)), g, g, g, g, g]
    ensures v == v0.(once := 1, mutex := true, inited := true, fnStarts := 1, fnFinished := true)
    ensures (forall i :: 0 <= i < |r| ==> r[i].0 < n) && Exec(n, r).v == v && Exec(n, r).threads[t] == Thread(Waiting(Create), 0)
  {
    hide Exec, CreateStep, CloseStep;
    var s := ExecEmpty(n);
    var th := Thread(Idle, 0);
    r, v := [], v0;
    r, v, th := Then(n, r, t, Call(Create), v, th);
    r, v, th := Then(n, r, t, Go(true), v, th);
    r, v, th := Then(n, r, t, Go(true), v, th);
    r, v, th := Then(n, r, t, Go(true), v, th);
    r, v, th := Then(n, r, t, Go(true), v, th);
    r, v, th := Then(n, r, t, Go(true), v, th);
  }

  lemma Make(n: nat, r0: seq<(nat, Event)>, t: nat, v0: Shared) returns (r: seq<(nat, Event)>, v: Shared)
    requires t < n && (forall i :: 0 <= i < |r0| ==> r0[i].0 < n) && v0.ctr == 0 && v0.owner == None
    requires Exec(n, r0).v == v0 && Exec(n, r0).threads[t] == Thread(Waiting(Create), 0)
    ensures var g := (t, Go(true)); r == r0 + [g, g, g, g]
    ensures v == v0.(ctr := 1, state := true, creates := v0.creates + 1)
    ensures (forall i :: 0 <= i < |r| ==> r[i].0 < n) && Exec(n, r).v == v && Exec(n, r).threads[t] == Thread(Idle, 1)
  {
    hide Exec, OnceStep;
    var th := Thread(Waiting(Create), 0);
    r, v := r0, v0;
    r, v, th := Then(n, r, t, Go(true), v, th);
    r, v, th := Then(n, r, t, Go(true), v, th);
    r, v, th := Then(n, r, t, Go(true), v, th);
    r, v, th := Then(n, r, t, Go(true), v, th);
  }

  lemma Unmake(n: nat, r0: seq<(nat, Event)>, t: nat, v0: Shared) returns (r: seq<(nat, Event)>, v: Shared)
    requires t < n && (forall i :: 0 <= i < |r0| ==> r0[i].0 < n) && v0.ctr == 1 && v0.owner == None
    requires Exec(n, r0).v == v0 && Exec(n, r0).threads[t] == Thread(Idle, 1)
    ensures var g := (t, Go(true)); r == r0 + [(t, Call(Close)), g, g, g]
    ensures v == v0.(ctr := 0, state := false, closes := v0.closes + 1)
    ensures (forall i :: 0 <= i < |r| ==> r[i].0 < n) && Exec(n, r).v == v && Exec(n, r).threads[t] == Thread(Idle, 0)
  {
    hide Exec, OnceStep;
    var th := Thread(Idle, 1);
    r, v := r0, v0;
    r, v, th := Then(n, r, t, Call(Close), v, th);
    r, v, th := Then(n, r, t, Go(true), v, th);
    r, v, th := Then(n, r, t, Go(true), v, th);
    r, v, th := Then(n, r, t, Go(true), v, th);
  }

  lemma ExecEmpty(n: nat) returns (s: State)
    ensures s == Start(n) == Exec(n, [])
  {
    s := Start(n);
  }

  // One more event of the thread t.
  lemma Then(n: nat, run: seq<(nat, Event)>, t: nat, e: Event, v: Shared, th: Thread)
      returns (more: seq<(nat, Event)>, w: Shared, th': Thread)
    requires t < n && forall i :: 0 <= i < |run| ==> run[i].0 < n
    requires Exec(n, run).v == v && Exec(n, run).threads[t] == th
    ensures more == run + [(t, e)] && (w, th') == Local(v, t, th, e)
    ensures forall i :: 0 <= i < |more| ==> more[i].0 < n
    ensures Exec(n, more).v == w && Exec(n, more).threads[t] == th'
  {
    hide Local;
    more := run + [(t, e)];
    assert more[..|more| - 1] == run;
    w := Local(v, t, th, e).0;
    th' := Local(v, t, th, e).1;
  }

  /** Two threads are never inside together. */
  lemma MutualExclusion(n: nat, run: seq<(nat, Event)>, t: nat, u: nat)
    requires (forall i :: 0 <= i < |run| ==> run[i].0 < n) && t < n && u < n
    ensures var s := Exec(n, run); HasMutex(s.threads[t].pc) && HasMutex(s.threads[u].pc) ==> t == u
  {
    hide Exec, OnceInv, CountInv;
    Reachable(n, run);
    var s := Exec(n, run);
    assert Owns(s.v, t, s.threads[t]) && Owns(s.v, u, s.threads[u]);
  }
}
