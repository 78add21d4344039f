/** The callbacks and finalizers of the registry class do what the state machine does when nothing interleaves. */
module LifecycleAgreement {
  import opened Handles
  import opened Lifecycle
  import opened LifecycleInvariant
  import opened LifecycleProgress
  import opened LifecycleSafety
  import R = HandleOutcomes

  ghost function Seen(s: State): R.Native {
    R.Native(s.mem, s.list, s.hooks, s.trace, s.nextId)
  }

  /** Four steps of one environment, which is as long as these operations take; an idle environment stays idle. */
  ghost function Solo(s: State, e: Env, ok: bool): Outcome
    requires s.word > 0
  {
    var r := Move(e, Resume(ok));
    Run(s, [r] + ([r] + ([r] + [r])))
  }

  lemma IdleRun(s: State, e: Env, ok: bool)
    requires s.word > 0 && Resident(s.list, s.mem) && PcOf(s, e).Idle?
    ensures var r := Move(e, Resume(ok));
      && Run(s, [r]) == Next(s) && Run(s, [r] + [r]) == Next(s) && Run(s, [r] + ([r] + [r])) == Next(s)
      && Run(s, []) == Next(s)
  {
    var r := Move(e, Resume(ok));
    assert [r][1..] == [];
    RunCons(s, r, [r]);
    RunCons(s, r, [r] + [r]);
  }

  /** From the unlinking of an entry to the end of the operation. */
  lemma UnlinkRun(s: State, e: Env, a: Addr, ok: bool)
    requires s.word > 0 && Resident(s.list, s.mem) && Descending(s.list, s.mem) && a in s.mem
    requires PcOf(s, e) == Unlinking(a)
    ensures var r := Move(e, Resume(ok));
      var o := Run(s, [r] + [r]);
      o.Next? && PcOf(o.s, e).Idle? && Seen(o.s) == R.Gone(Seen(s), a, s.hooks, [])
  {
    UnlinkAndFree(s, e, a, ok);
  }

  lemma NodeTeardownRun(s: State, e: Env, id: nat, ok: bool)
    requires s.word > 0 && R.Sound(Seen(s)) && PcOf(s, e) == NodeTeardown(id)
    ensures var o := Solo(s, e, ok);
      o.Next? && PcOf(o.s, e).Idle? && Seen(o.s) == R.NodeTornDown(Seen(s), id, ok)
  {
    var r := Move(e, Resume(ok));
    var found := FindTeardown(s.list, s.mem, id, Node);
    var t := Goto(s, e, if found.Some? then NodeTeardownStopping(found.value) else Idle);
    assert Step(s, e, Resume(ok)) == Next(t);
    RunCons(s, r, [r] + ([r] + [r]));
    if found.None? {
      IdleRun(t, e, ok);
    } else {
      NodeTeardownRest(t, e, found.value, ok);
    }
  }

  ghost function NodeStopped(t: State, e: Env, a: Addr, ok: bool): State
    requires a in t.mem
  {
    var w := t.mem[a].(hooked := false);
    Store(t, e, a, StoppedAndFreed(w, ok), StopEvents(w, ok, true),
          if StoppedAndFreed(w, ok).freed then Unlinking(a) else Idle)
  }

  lemma NodeStoppedStep(t: State, e: Env, a: Addr, ok: bool)
    requires t.word > 0 && Resident(t.list, t.mem) && PcOf(t, e) == NodeTeardownStopping(a) && a in t.mem
    ensures Step(t, e, Resume(ok)) == Next(NodeStopped(t, e, a, ok))
  {
  }

  lemma NodeStoppedSeen(t: State, e: Env, a: Addr, ok: bool)
    requires R.Sound(Seen(t)) && a in t.list
    ensures var u, w := NodeStopped(t, e, a, ok), t.mem[a].(hooked := false);
      && R.Sound(Seen(u)) && a in u.mem
      && (u.mem[a].freed ==> R.Gone(Seen(u), a, u.hooks, []) == R.Gone(Seen(t), a, t.hooks, StopEvents(w, ok, true)))
      && (!u.mem[a].freed ==> Seen(u) == R.Kept(Seen(t), a, w, StopEvents(w, ok, true)))
  {
    var u := NodeStopped(t, e, a, ok);
    R.StoredThenFreed(t.mem, a, u.mem[a], u.mem[a]);
  }

  lemma NodeTeardownRest(t: State, e: Env, a: Addr, ok: bool)
    requires t.word > 0 && R.Sound(Seen(t)) && PcOf(t, e) == NodeTeardownStopping(a) && a in t.list
    ensures var r := Move(e, Resume(ok));
      var o := Run(t, [r] + ([r] + [r]));
      var w := t.mem[a].(hooked := false);
      && o.Next? && PcOf(o.s, e).Idle?
      && Seen(o.s) == if StoppedAndFreed(w, ok).freed then R.Gone(Seen(t), a, t.hooks, StopEvents(w, ok, true))
                      else R.Kept(Seen(t), a, w, StopEvents(w, ok, true))
  {
    var r, u := Move(e, Resume(ok)), NodeStopped(t, e, a, ok);
    NodeStoppedStep(t, e, a, ok);
    NodeStoppedSeen(t, e, a, ok);
    RunCons(t, r, [r] + [r]);
    if u.mem[a].freed { UnlinkRun(u, e, a, ok); } else { IdleRun(u, e, ok); }
  }

  /** From every reachable state in which libjs runs the callback of a node. */
  lemma NodeTeardownAgrees(s: State, e: Env, id: nat, ok: bool)
    requires Reachable(s) && s.word > 0 && PcOf(s, e) == NodeTeardown(id)
    ensures R.Sound(Seen(s))
    ensures var o := Solo(s, e, ok);
      o.Next? && PcOf(o.s, e).Idle? && Seen(o.s) == R.NodeTornDown(Seen(s), id, ok)
  {
    ReachableSafe(s);
    NodeTeardownRun(s, e, id, ok);
  }

  /** From every reachable state in which libjs runs a finalizer. */
  lemma FinalizerAgrees(s: State, e: Env, x: External, ok: bool)
    requires Reachable(s) && s.word > 0 && PcOf(s, e) == Finalizing(x)
    ensures R.Sound(Seen(s))
    ensures var o := Solo(s, e, ok);
      && o.Next? && PcOf(o.s, e).Idle?
      && Seen(o.s) == if x.kind == Node then R.NodeFinalized(Seen(s), e, x.addr, x.id, ok)
                      else R.SignerFinalized(Seen(s), e, x.addr, x.id)
  {
    ReachableSafe(s);
    assert EnvInv(s, e);
    FinalizerRun(s, e, x, ok);
  }

  lemma FinalizerRun(s: State, e: Env, x: External, ok: bool)
    requires s.word > 0 && R.Sound(Seen(s)) && PcOf(s, e) == Finalizing(x)
    requires x.addr in s.list && s.mem[x.addr].env == e && s.mem[x.addr].hooked ==> HookOf(s.mem[x.addr]) in s.hooks
    ensures var o := Solo(s, e, ok);
      && o.Next? && PcOf(o.s, e).Idle?
      && Seen(o.s) == if x.kind == Node then R.NodeFinalized(Seen(s), e, x.addr, x.id, ok)
                      else R.SignerFinalized(Seen(s), e, x.addr, x.id)
  {
    var r := Move(e, Resume(ok));
    var found := FindFinalizer(s.list, s.mem, e, x.addr, x.id, x.kind);
    var t := Goto(s, e, if found.None? then Idle else FinalizingPc(x.kind, x.addr));
    assert Step(s, e, Resume(ok)) == Next(t);
    RunCons(s, r, [r] + ([r] + [r]));
    if found.None? {
      IdleRun(t, e, ok);
    } else if x.kind == Node {
      NodeFinalizerRest(t, e, x.addr, ok);
    } else {
      SignerFinalizerRest(t, e, x.addr, ok);
    }
  }

  ghost function NodeGone(t: State, e: Env, a: Addr, ok: bool): State
    requires a in t.mem
  {
    var w := t.mem[a];
    var w' := StoppedAndFreed(w, ok);
    if w'.freed then
      Store(t.(hooks := R.Unhooked(t.hooks, w)), e, a, w'.(hooked := false), StopEvents(w, ok, false), Unlinking(a))
    else Store(t, e, a, w', StopEvents(w, ok, false), Idle)
  }

  lemma NodeGoneStep(t: State, e: Env, a: Addr, ok: bool)
    requires t.word > 0 && Resident(t.list, t.mem) && PcOf(t, e) == FinalizingNode(a) && a in t.mem
    requires t.mem[a].hooked ==> HookOf(t.mem[a]) in t.hooks
    ensures Step(t, e, Resume(ok)) == Next(NodeGone(t, e, a, ok))
  {
  }

  lemma NodeGoneSeen(t: State, e: Env, a: Addr, ok: bool)
    requires R.Sound(Seen(t)) && a in t.list
    ensures var u, w := NodeGone(t, e, a, ok), t.mem[a];
      && R.Sound(Seen(u)) && a in u.mem
      && (u.mem[a].freed ==>
            R.Gone(Seen(u), a, u.hooks, []) == R.Gone(Seen(t), a, R.Unhooked(t.hooks, w), StopEvents(w, ok, false)))
      && (!u.mem[a].freed ==> Seen(u) == R.Kept(Seen(t), a, w, StopEvents(w, ok, false)))
  {
    var u := NodeGone(t, e, a, ok);
    R.StoredThenFreed(t.mem, a, u.mem[a], u.mem[a]);
  }

  lemma NodeFinalizerRest(t: State, e: Env, a: Addr, ok: bool)
    requires t.word > 0 && R.Sound(Seen(t)) && PcOf(t, e) == FinalizingNode(a) && a in t.list
    requires t.mem[a].hooked ==> HookOf(t.mem[a]) in t.hooks
    ensures var r := Move(e, Resume(ok));
      var o := Run(t, [r] + ([r] + [r]));
      var w := t.mem[a];
      && o.Next? && PcOf(o.s, e).Idle?
      && Seen(o.s) ==
         if StoppedAndFreed(w, ok).freed then R.Gone(Seen(t), a, R.Unhooked(t.hooks, w), StopEvents(w, ok, false))
         else R.Kept(Seen(t), a, w, StopEvents(w, ok, false))
  {
    var r, u := Move(e, Resume(ok)), NodeGone(t, e, a, ok);
    NodeGoneStep(t, e, a, ok);
    NodeGoneSeen(t, e, a, ok);
    RunCons(t, r, [r] + [r]);
    if u.mem[a].freed { UnlinkRun(u, e, a, ok); } else { IdleRun(u, e, ok); }
  }

  ghost function SignerGone(t: State, e: Env, a: Addr, ok: bool): State
    requires a in t.mem
  {
    var w := t.mem[a];
    Store(t.(hooks := R.Unhooked(t.hooks, w)), e, a, w.(freed := true, hooked := false),
          ActEvents(SignerDestroy, w, ok), Unlinking(a))
  }

  lemma SignerGoneStep(t: State, e: Env, a: Addr, ok: bool)
    requires t.word > 0 && Resident(t.list, t.mem) && PcOf(t, e) == FinalizingSigner(a) && a in t.mem
    requires t.mem[a].hooked ==> HookOf(t.mem[a]) in t.hooks
    ensures Step(t, e, Resume(ok)) == Next(SignerGone(t, e, a, ok))
  {
  }

  lemma SignerGoneSeen(t: State, e: Env, a: Addr, ok: bool)
    requires R.Sound(Seen(t)) && a in t.list
    ensures var u, w := SignerGone(t, e, a, ok), t.mem[a];
      R.Gone(Seen(u), a, u.hooks, []) ==
        R.Gone(Seen(t), a, R.Unhooked(t.hooks, w), if w.freed then [] else [SignerFree(w.obj)])
  {
    var u := SignerGone(t, e, a, ok);
    R.StoredThenFreed(t.mem, a, u.mem[a], u.mem[a]);
  }

  lemma SignerFinalizerRest(t: State, e: Env, a: Addr, ok: bool)
    requires t.word > 0 && R.Sound(Seen(t)) && PcOf(t, e) == FinalizingSigner(a) && a in t.list
    requires t.mem[a].hooked ==> HookOf(t.mem[a]) in t.hooks
    ensures var r := Move(e, Resume(ok));
      var o := Run(t, [r] + ([r] + [r]));
      var w := t.mem[a];
      && o.Next? && PcOf(o.s, e).Idle?
      && Seen(o.s) == R.Gone(Seen(t), a, R.Unhooked(t.hooks, w), if w.freed then [] else [SignerFree(w.obj)])
  {
    var r := Move(e, Resume(ok));
    var u := SignerGone(t, e, a, ok);
    SignerGoneStep(t, e, a, ok);
    RunCons(t, r, [r] + [r]);
    UnlinkRun(u, e, a, ok);
    SignerGoneSeen(t, e, a, ok);
  }

  // ---------- What the entry points and the teardown of a signer ask of the native library ----------

  /** The native calls of an entry point on a wrapper with these flags. */
  ghost predicate Asked(op: Op, w: Wrapper, ok: bool, events: seq<Event>) {
    match op
    case NodeShutdown => events == if w.freed || w.attempted then [] else [NodeStop(w.env, w.obj, ok, false)]
    case NodeDestroy =>
      events == if w.freed then [] else if w.attempted then [NodeFree(w.obj)]
                else if ok then [NodeStop(w.env, w.obj, true, false), NodeFree(w.obj)]
                else [NodeStop(w.env, w.obj, false, false)]
    case NodeUse => events == if w.freed || w.attempted then [] else [NodeCall(w.obj)]
    case SignerShutdown => events == if w.freed then [] else [SignerStop(w.env, w.obj, ok, false)]
    case SignerDestroy => events == if w.freed then [] else [SignerFree(w.obj)]
    case SignerUse => events == if w.freed then [] else [SignerCall(w.obj)]
  }

  lemma ActingStep(t: State, e: Env, op: Op, a: Addr, ok: bool)
    requires t.word > 0 && Resident(t.list, t.mem) && PcOf(t, e) == JsActing(op, a) && a in t.mem
    ensures var o := Step(t, e, Resume(ok));
      && o.Next? && PcOf(o.s, e).Idle? && o.s.list == t.list && o.s.hooks == t.hooks
      && |o.s.trace| >= |t.trace| && o.s.trace[..|t.trace|] == t.trace
      && Asked(op, t.mem[a], ok, o.s.trace[|t.trace|..])
      && o.s.mem == t.mem[a := o.s.mem[a]] && o.s.mem[a].freed == (t.mem[a].freed || op.SignerDestroy? ||
           (op.NodeDestroy? && (t.mem[a].attempted || ok)))
  {
    var u := Step(t, e, Resume(ok)).s;
    assert u.trace[|t.trace|..] == ActEvents(op, t.mem[a], ok);
  }

  lemma CallStep(s: State, x: External, op: Op)
    requires s.word > 0 && Resident(s.list, s.mem) && PcOf(s, x.env).Idle? && x in s.live && x.env !in s.closing
    ensures Step(s, x.env, Call(op, x)) == Next(Goto(s, x.env, JsLookup(op, x)))
  {
  }

  lemma LookupStep(t: State, x: External, op: Op, ok: bool)
    requires t.word > 0 && Resident(t.list, t.mem) && PcOf(t, x.env) == JsLookup(op, x)
    requires Owns(t.list, t.mem, x.env, x.addr, OpKind(op))
    ensures Step(t, x.env, Resume(ok)) == Next(Goto(t, x.env, JsActing(op, x.addr)))
  {
  }

  lemma CallRun(s: State, x: External, op: Op, ok: bool)
    requires s.word > 0 && Resident(s.list, s.mem) && PcOf(s, x.env).Idle? && x in s.live && x.env !in s.closing
    requires Owns(s.list, s.mem, x.env, x.addr, OpKind(op))
    ensures var t := Goto(Goto(s, x.env, JsLookup(op, x)), x.env, JsActing(op, x.addr));
      Run(s, [Move(x.env, Call(op, x))] + ([Move(x.env, Resume(ok))] + [Move(x.env, Resume(ok))])) ==
      Step(t, x.env, Resume(ok))
  {
    var e, r := x.env, Move(x.env, Resume(ok));
    var looking := Goto(s, e, JsLookup(op, x));
    CallStep(s, x, op);
    RunCons(s, Move(e, Call(op, x)), [r] + [r]);
    LookupStep(looking, x, op, ok);
    RunCons(looking, r, [r]);
    RunOne(Goto(looking, e, JsActing(op, x.addr)), r);
  }

  /** Where JavaScript calls an entry point on a handle that it can reach, in an environment that is not closing, the
      native library is asked just that, once the handle has been looked up. */
  lemma CallsAct(s: State, x: External, op: Op, ok: bool)
    requires Reachable(s) && s.word > 0 && PcOf(s, x.env).Idle? && x in s.live && x.env !in s.closing
    requires x.kind == OpKind(op)
    ensures var o := Run(s, [Move(x.env, Call(op, x))] + ([Move(x.env, Resume(ok))] + [Move(x.env, Resume(ok))]));
      && o.Next? && PcOf(o.s, x.env).Idle? && o.s.list == s.list && o.s.hooks == s.hooks
      && x.addr in s.mem && |o.s.trace| >= |s.trace| && o.s.trace[..|s.trace|] == s.trace
      && Asked(op, s.mem[x.addr], ok, o.s.trace[|s.trace|..])
  {
    assert Resident(s.list, s.mem) && Tracks(s, x) by {
      ReachableSafe(s);
      assert EnvInv(s, x.env);
    }
    CallRun(s, x, op, ok);
    ActingStep(Goto(Goto(s, x.env, JsLookup(op, x)), x.env, JsActing(op, x.addr)), x.env, op, x.addr, ok);
  }

  /** After its drain has succeeded, the teardown of a signer asks the native library to revoke it, and frees it only
      after that. */
  lemma TeardownRevokes(s: State, e: Env, a: Addr, ok: bool)
    requires Reachable(s) && s.word > 0 && PcOf(s, e) == SignerStopping(a)
    ensures var o := Step(s, e, Resume(ok));
      && o.Next? && a in s.mem
      && o.s.trace == s.trace +
           (if s.mem[a].freed then []
            else if ok then [SignerStop(e, s.mem[a].obj, true, true), SignerFree(s.mem[a].obj)]
            else [SignerStop(e, s.mem[a].obj, false, true)])
      && a in o.s.mem && (o.s.mem[a].freed <==> s.mem[a].freed || ok)
  {
    assert Resident(s.list, s.mem) && a in s.mem && s.mem[a].env == e by {
      ReachableSafe(s);
      assert EnvInv(s, e);
      assert PcInv(s, e, SignerStopping(a));
    }
    assert Step(s, e, Resume(ok)) == AdvanceTeardown(s, e, SignerStopping(a), ok);
  }
}
