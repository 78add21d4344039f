/** Safety of the native handle lifecycle, over every run of every environment. */
module LifecycleSafety {
  import opened Handles
  import opened Lifecycle
  import opened LifecycleInvariant
  import opened LifecycleSteps
  import opened LifecycleLedger

  ghost predicate Safe(s: State) {
    Inv(s) && LedgerInv(s)
  }

  lemma InitSafe(word: nat)
    requires 1 < word
    ensures Safe(Init(word))
  {
  }

  /** One step of any environment, whatever the native library and libjs answer: no freed wrapper is touched, no
      callback is removed that is not pending, and no other environment notices. */
  lemma StepSafe(s: State, e: Env, c: Choice)
    requires Safe(s)
    ensures var o := Step(s, e, c);
      o.Next? && Safe(o.s) && Kept(s, o.s, e)
  {
    assert OwnInv(s, e);
    if c.Resume? { KeepsAdvance(s, e, c.ok); LedgerAdvance(s, e, c.ok); }
    else if PcOf(s, e).Idle? { KeepsBegin(s, e, c); LedgerBegin(s, e, c); }
    else { KeepsNothing(s, e); }
    var t := Step(s, e, c).s;
    forall f ensures EnvInv(t, f) {
      if f != e { OtherEnvironment(s, t, e, f); }
    }
  }

  lemma {:induction false} RunFrom(s: State, moves: seq<Move>)
    requires Safe(s)
    ensures var o := Run(s, moves); o.Next? && Safe(o.s)
    decreases |moves|
  {
    if moves != [] {
      StepSafe(s, moves[0].env, moves[0].choice);
      RunFrom(Step(s, moves[0].env, moves[0].choice).s, moves[1..]);
    }
  }

  /** A state some run from the start reaches. */
  ghost predicate Reachable(s: State) {
    exists word, moves :: 1 < word && Run(Init(word), moves) == Next(s)
  }

  lemma {:induction false} RunAppend(s: State, moves: seq<Move>, m: Move)
    requires s.word > 0
    ensures var o := Run(s, moves);
      Run(s, moves + [m]) == if o.Fault? then Fault else Step(o.s, m.env, m.choice)
    decreases |moves|
  {
    if moves == [] {
      assert [] + [m] == [m] && [m][1..] == [];
    } else {
      var o := Step(s, moves[0].env, moves[0].choice);
      assert (moves + [m])[1..] == moves[1..] + [m];
      if o.Next? { RunAppend(o.s, moves[1..], m); }
    }
  }

  lemma ReachesOn(word: nat, moves: seq<Move>, s: State, m: Move, t: State)
    requires 1 < word && s.word > 0 && Run(Init(word), moves) == Next(s) && Step(s, m.env, m.choice) == Next(t)
    ensures Reachable(t)
  {
    RunAppend(Init(word), moves, m);
    assert Run(Init(word), moves + [m]) == Next(t);
  }

  /** A step from a reachable state leads to one. */
  lemma OneMoreStep(s: State, m: Move)
    requires Reachable(s) && s.word > 0
    ensures var o := Step(s, m.env, m.choice); o.Next? && Reachable(o.s)
  {
    ReachableSafe(s);
    StepSafe(s, m.env, m.choice);
    var word, moves :| 1 < word && Run(Init(word), moves) == Next(s);
    ReachesOn(word, moves, s, m, Step(s, m.env, m.choice).s);
  }

  lemma ReachableSafe(s: State)
    requires Reachable(s)
    ensures Safe(s)
  {
    var word, moves :| 1 < word && Run(Init(word), moves) == Next(s);
    InitSafe(word);
    RunFrom(Init(word), moves);
  }

  /** No run faults: memory is never read or freed after it was freed, and libjs is never asked to remove a
      callback that is not pending. */
  lemma NoRunFaults(word: nat, moves: seq<Move>)
    requires 1 < word
    ensures Run(Init(word), moves).Next?
  {
    InitSafe(word);
    RunFrom(Init(word), moves);
  }
}
