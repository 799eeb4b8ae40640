/**
 The writer's `acked` watermark under concurrent ACKNACK handlers: each handler loads the
 watermark, then retries a compare-and-exchange, which may fail spuriously, until its own
 confirmed number is no longer the larger one. The loads are relaxed, so what a load or a failed
 exchange sees may be out of date: it is any number up to the present one. Only a successful exchange
 is sure of it.
 */
module AckWatermark {
  import opened Wrappers
  import P = Protocol

  type ThreadId = nat

  datatype Pc = Loading | Looping(cur: nat) | Done

  datatype Thread = Thread(confirmed: nat, pc: Pc)

  datatype State = State(acked: nat, threads: map<ThreadId, Thread>)

  datatype Step =
    | Load(t: ThreadId, seen: nat)
    | Exchange(t: ThreadId)
    | FailExchange(t: ThreadId, seen: nat)
    | Leave(t: ThreadId)

  predicate Enabled(s: State, step: Step) {
    && step.t in s.threads
    && var th := s.threads[step.t];
    match step
    case Load(_, seen) => th.pc.Loading? && seen <= s.acked
    case Exchange(_) => th.pc.Looping? && th.confirmed > th.pc.cur && s.acked == th.pc.cur
    case FailExchange(_, seen) => th.pc.Looping? && th.confirmed > th.pc.cur && seen <= s.acked
    case Leave(_) => th.pc.Looping? && th.confirmed <= th.pc.cur
  }

  function Apply(s: State, step: Step): State
    requires Enabled(s, step)
  {
    var th := s.threads[step.t];
    match step
    case Load(t, seen) => s.(threads := s.threads[t := th.(pc := Looping(seen))])
    case Exchange(t) => State(th.confirmed, s.threads[t := th.(pc := Done)])
    case FailExchange(t, seen) => s.(threads := s.threads[t := th.(pc := Looping(seen))])
    case Leave(t) => s.(threads := s.threads[t := th.(pc := Done)])
  }

  function Exec(s: State, steps: seq<Step>): Option<State> {
    if steps == [] then Some(s)
    else
      match Exec(s, steps[..|steps| - 1])
      case None => None
      case Some(m) =>
        var last := steps[|steps| - 1];
        if Enabled(m, last) then Some(Apply(m, last)) else None
  }

  ghost predicate Settled(s: State, t: ThreadId)
    requires t in s.threads
  {
    match s.threads[t].pc
    case Loading => true
    case Looping(cur) => cur <= s.acked
    case Done => s.threads[t].confirmed <= s.acked
  }

  ghost predicate Inv(s: State, s0: State) {
    && s.threads.Keys == s0.threads.Keys
    && (forall t <- s.threads :: s.threads[t].confirmed == s0.threads[t].confirmed && Settled(s, t))
    && s0.acked <= s.acked
    && (s.acked == s0.acked || exists t :: t in s0.threads && s.acked == s0.threads[t].confirmed)
  }

  lemma StepKeepsInv(s: State, s0: State, step: Step)
    requires Inv(s, s0) && Enabled(s, step)
    ensures Inv(Apply(s, step), s0) && s.acked <= Apply(s, step).acked
  {
    assert Settled(s, step.t);
    var s' := Apply(s, step);
    forall t <- s'.threads
      ensures Settled(s, t)
    {
      assert Settled(s, t);
    }
  }

  lemma {:induction false} ExecKeepsInv(s0: State, steps: seq<Step>)
    requires (forall t <- s0.threads :: s0.threads[t].pc.Loading?) && Exec(s0, steps).Some?
    ensures Inv(Exec(s0, steps).value, s0)
  {
    if steps != [] {
      var init := steps[..|steps| - 1];
      ExecKeepsInv(s0, init);
      StepKeepsInv(Exec(s0, init).value, s0, steps[|steps| - 1]);
    }
  }

  /** Under every interleaving, once every handler is through, the watermark is the largest of its
      old value and all the confirmed numbers: no update is lost. */
  lemma EndsAtTheMaximum(s0: State, steps: seq<Step>, s: State)
    requires (forall t <- s0.threads :: s0.threads[t].pc.Loading?) && Exec(s0, steps) == Some(s)
    requires forall t <- s.threads :: s.threads[t].pc.Done?
    ensures s0.acked <= s.acked
    ensures forall t <- s0.threads :: s0.threads[t].confirmed <= s.acked
    ensures s.acked == s0.acked || exists t :: t in s0.threads && s.acked == s0.threads[t].confirmed
  {
    ExecKeepsInv(s0, steps);
    forall t <- s0.threads
      ensures s0.threads[t].confirmed <= s.acked
    {
      assert Settled(s, t);
    }
  }

  /** A handler that runs alone leaves what the protocol's step leaves, however its exchanges fail. */
  lemma OneHandlerAgrees(acked: nat, base: nat, t: ThreadId, steps: seq<Step>, s: State)
    requires base > 0 && Exec(State(acked, map[t := Thread(base - 1, Loading)]), steps) == Some(s)
    requires forall u <- s.threads :: s.threads[u].pc.Done?
    ensures s.acked == P.AdvanceAcked(acked, base)
  {
    var s0 := State(acked, map[t := Thread(base - 1, Loading)]);
    assert t in s0.threads;
    EndsAtTheMaximum(s0, steps, s);
  }

  /** And it can get through, in two steps. */
  lemma OneHandlerFinishes(acked: nat, base: nat, t: ThreadId) returns (steps: seq<Step>, s: State)
    requires base > 0
    ensures Exec(State(acked, map[t := Thread(base - 1, Loading)]), steps) == Some(s)
    ensures forall u <- s.threads :: s.threads[u].pc.Done?
  {
    var s0 := State(acked, map[t := Thread(base - 1, Loading)]);
    var load, last := Load(t, acked), if base - 1 > acked then Exchange(t) else Leave(t);
    steps := [load, last];
    assert steps[..1] == [load] && [load][..0] == [];
    assert Exec(s0, []) == Some(s0);
    assert Exec(s0, [load]) == Some(Apply(s0, load));
    s := Apply(Apply(s0, load), last);
  }
}
