/** Every operation of the binding finishes, whatever the other environments do meanwhile, and so does teardown. */
module LifecycleProgress {
  import opened Common
  import opened Handles
  import opened Lifecycle
  import opened LifecycleInvariant
  import opened LifecycleSteps
  import opened LifecycleLedger
  import opened LifecycleSafety
  import opened LifecycleCallbacks

  /** The wrappers of the environment's nodes with an identity above the cursor: what the drain has left to do. */
  ghost function Above(mem: Memory, e: Env, cursor: int): set<Addr> {
    set a | a in mem && IsNode(mem[a], e) && mem[a].id > cursor
  }

  /** How many more steps the operation in progress can take. */
  ghost function RankAt(mem: Memory, e: Env, pc: Pc): nat {
    match pc
    case Idle => 0
    case Freeing(_) => 1
    case UndoStopping(_) => 2
    case UndoUnlinking(_) => 3
    case Exporting(_) => 4
    case Hooking(_) => 5
    case Registering(_) => 6
    case Unlinking(_) => 2
    case NodeTeardownStopping(_) => 3
    case NodeTeardown(_) => 4
    case SignerStopping(_) => 3
    case FinalizingNode(_) => 3
    case FinalizingSigner(_) => 3
    case Finalizing(_) => 4
    case JsActing(_, _) => 1
    case JsLookup(_, _) => 2
    case SignerTeardown(_) => 5 * |Above(mem, e, 0)| + 5
    case Scanning(_, cursor, _) => 5 * |Above(mem, e, cursor)| + 4
    case DrainFinding(_, id, _) => 5 * |Above(mem, e, id - 1)| + 3
    case DrainStopping(_, id, _, _) => 5 * |Above(mem, e, id - 1)| + 2
    case DrainUnlinking(_, id, _, _) => 5 * |Above(mem, e, id - 1)| + 1
    case DrainFreeing(_, id, _, _) => 5 * |Above(mem, e, id - 1)|
  }

  ghost function Rank(s: State, e: Env): nat {
    RankAt(s.mem, e, PcOf(s, e))
  }

  lemma Smaller<T>(a: set<T>, b: set<T>)
    requires a <= b
    ensures |a| <= |b|
    ensures a != b ==> |a| < |b|
  {
    assert b == a + (b - a);
  }

  /** The identity of the node of this environment at an address. */
  ghost function NodeAt(mem: Memory, e: Env, a: Addr): Option<nat> {
    if a in mem && IsNode(mem[a], e) then Some(mem[a].id) else None
  }

  ghost predicate SameNodes(m: Memory, n: Memory, e: Env) {
    forall a :: NodeAt(m, e, a) == NodeAt(n, e, a)
  }

  lemma SameAbove(m: Memory, n: Memory, e: Env, cursor: int)
    requires SameNodes(m, n, e)
    ensures Above(m, e, cursor) == Above(n, e, cursor)
  {
    forall a ensures a in Above(m, e, cursor) <==> a in Above(n, e, cursor) {
      assert NodeAt(m, e, a) == NodeAt(n, e, a);
    }
  }

  lemma SameRank(m: Memory, n: Memory, e: Env, pc: Pc)
    requires SameNodes(m, n, e)
    ensures RankAt(m, e, pc) == RankAt(n, e, pc)
  {
    if pc.Scanning? { SameAbove(m, n, e, pc.cursor); }
    else if pc.DrainFinding? || pc.DrainStopping? || pc.DrainUnlinking? || pc.DrainFreeing? {
      SameAbove(m, n, e, pc.id - 1);
    }
    else { SameAbove(m, n, e, 0); }
  }

  lemma ViewHasSameNodes(s: State, t: State, f: Env)
    requires SameView(s, t, f)
    ensures SameNodes(s.mem, t.mem, f)
  {
    forall a ensures NodeAt(s.mem, f, a) == NodeAt(t.mem, f, a) {
      assert Mine(s, f, a) <==> Mine(t, f, a);
    }
  }

  /** Nothing another environment does prolongs an operation. */
  lemma OthersDoNotDelay(s: State, e: Env, c: Choice, f: Env)
    requires Reachable(s) && s.word > 0 && e != f
    ensures var o := Step(s, e, c); o.Next? && Rank(o.s, f) == Rank(s, f)
  {
    ReachableSafe(s);
    StepSafe(s, e, c);
    ViewHasSameNodes(s, Step(s, e, c).s, f);
    SameRank(s.mem, Step(s, e, c).s.mem, f, PcOf(s, f));
  }

  // ---------- Its own steps ----------

  lemma NothingBetween(s: State, e: Env, signer: Addr, cursor: nat, stopped: bool)
    requires Resident(s.list, s.mem) && AllocatedInv(s, e, Scanning(signer, cursor, stopped))
    requires NextNode(s.list, s.mem, e, cursor) != 0
    ensures Above(s.mem, e, NextNode(s.list, s.mem, e, cursor) - 1) == Above(s.mem, e, cursor)
  {
    var id := NextNode(s.list, s.mem, e, cursor);
    forall a | a in Above(s.mem, e, cursor) ensures a in Above(s.mem, e, id - 1) {
      assert Mine(s, e, a);
    }
  }

  lemma ScanningRank(s: State, e: Env, signer: Addr, cursor: nat, stopped: bool)
    requires Resident(s.list, s.mem) && AllocatedInv(s, e, Scanning(signer, cursor, stopped))
    ensures RankAt(s.mem, e, Scanned(signer, NextNode(s.list, s.mem, e, cursor), stopped)) <
      RankAt(s.mem, e, Scanning(signer, cursor, stopped))
  {
    if NextNode(s.list, s.mem, e, cursor) != 0 { NothingBetween(s, e, signer, cursor, stopped); }
  }

  lemma DrainedNode(mem: Memory, e: Env, id: nat, node: Addr)
    requires node in mem && IsNode(mem[node], e) && mem[node].id == id
    ensures |Above(mem, e, id)| < |Above(mem, e, id - 1)|
  {
    assert node in Above(mem, e, id - 1) && node !in Above(mem, e, id);
    Smaller(Above(mem, e, id), Above(mem, e, id - 1));
  }

  /** A step that stores into wrappers without changing whose they are. */
  lemma StoredNodes(m: Memory, a: Addr, w: Wrapper, e: Env)
    requires a in m && HookOf(w) == HookOf(m[a])
    ensures SameNodes(m, m[a := w], e)
  {
  }

  lemma DrainStoppingRank(s: State, e: Env, pc: Pc, ok: bool)
    requires Resident(s.list, s.mem) && pc.DrainStopping? && PcInv(s, e, pc) && PcOf(s, e) == pc
    ensures var o := AdvanceDrain(s, e, pc, ok); o.Next? && Rank(o.s, e) < Rank(s, e)
  {
    var w' := StoppedAndFreed(s.mem[pc.node], ok);
    StoredNodes(s.mem, pc.node, w', e);
    var next :=
      if w'.freed then DrainUnlinking(pc.signer, pc.id, pc.node, pc.stopped) else Scanning(pc.signer, pc.id, false);
    SameRank(s.mem, s.mem[pc.node := w'], e, next);
    DrainedNode(s.mem, e, pc.id, pc.node);
  }

  lemma DrainFindingRank(s: State, e: Env, pc: Pc, ok: bool)
    requires Resident(s.list, s.mem) && pc.DrainFinding? && PcInv(s, e, pc) && PcOf(s, e) == pc
    ensures var o := AdvanceDrain(s, e, pc, ok); o.Next? && Rank(o.s, e) < Rank(s, e)
  {
    var a :| Listed(s, e, a, Node) && s.mem[a].id == pc.id;
    DrainedNode(s.mem, e, pc.id, a);
  }

  lemma DrainFreeingRank(s: State, e: Env, pc: Pc, ok: bool)
    requires Resident(s.list, s.mem) && pc.DrainFreeing? && PcInv(s, e, pc) && PcOf(s, e) == pc
    requires s.mem[pc.node].id == pc.id
    ensures var o := AdvanceDrain(s, e, pc, ok); o.Next? && Rank(o.s, e) < Rank(s, e)
  {
    DrainedNode(s.mem, e, pc.id, pc.node);
    var rest := s.mem - {pc.node};
    assert Above(rest, e, pc.id) <= Above(s.mem, e, pc.id);
    Smaller(Above(rest, e, pc.id), Above(s.mem, e, pc.id));
  }

  lemma DrainRank(s: State, e: Env, pc: Pc, ok: bool)
    requires OwnInv(s, e) && PcOf(s, e) == pc
    requires pc.Scanning? || pc.DrainFinding? || pc.DrainStopping? || pc.DrainUnlinking? || pc.DrainFreeing?
    requires AdvanceDrain(s, e, pc, ok).Next?
    ensures Rank(AdvanceDrain(s, e, pc, ok).s, e) < Rank(s, e)
  {
    if pc.Scanning? { ScanningRank(s, e, pc.signer, pc.cursor, pc.stopped); }
    else if pc.DrainFinding? { DrainFindingRank(s, e, pc, ok); }
    else if pc.DrainStopping? { DrainStoppingRank(s, e, pc, ok); }
    else if pc.DrainFreeing? { DrainFreeingRank(s, e, pc, ok); }
  }

  lemma TeardownRank(s: State, e: Env, pc: Pc, ok: bool)
    requires OwnInv(s, e) && PcOf(s, e) == pc
    requires pc.NodeTeardown? || pc.NodeTeardownStopping? || pc.SignerTeardown? || pc.SignerStopping?
    requires AdvanceTeardown(s, e, pc, ok).Next?
    ensures Rank(AdvanceTeardown(s, e, pc, ok).s, e) < Rank(s, e)
  {
    if pc.SignerTeardown? {
      var found := FindTeardown(s.list, s.mem, pc.id, Signer);
      if found.Some? {
        StoredNodes(s.mem, found.value, s.mem[found.value].(hooked := false), e);
        SameAbove(s.mem, s.mem[found.value := s.mem[found.value].(hooked := false)], e, 0);
      }
    }
  }

  lemma WrapRank(s: State, e: Env, pc: Pc, ok: bool)
    requires s.word > 0 && PcOf(s, e) == pc
    requires pc.Registering? || pc.Hooking? || pc.Exporting? || pc.UndoStopping?
    requires AdvanceWrap(s, e, pc, ok).Next?
    ensures Rank(AdvanceWrap(s, e, pc, ok).s, e) < Rank(s, e)
  {
  }

  lemma FinalizerRank(s: State, e: Env, pc: Pc, ok: bool)
    requires Resident(s.list, s.mem) && PcOf(s, e) == pc
    requires pc.Finalizing? || pc.FinalizingNode? || pc.FinalizingSigner?
    requires AdvanceFinalizer(s, e, pc, ok).Next?
    ensures Rank(AdvanceFinalizer(s, e, pc, ok).s, e) < Rank(s, e)
  {
  }

  lemma AdvanceRank(s: State, e: Env, ok: bool)
    requires OwnInv(s, e) && Advance(s, e, ok).Next? && !PcOf(s, e).Idle?
    ensures Rank(Advance(s, e, ok).s, e) < Rank(s, e)
  {
    var pc := PcOf(s, e);
    if pc.Registering? || pc.Hooking? || pc.Exporting? || pc.UndoStopping? { WrapRank(s, e, pc, ok); }
    else if pc.UndoUnlinking? || pc.Unlinking? || pc.Freeing? {}
    else if pc.NodeTeardown? || pc.NodeTeardownStopping? || pc.SignerTeardown? || pc.SignerStopping? {
      TeardownRank(s, e, pc, ok);
    }
    else if pc.Finalizing? || pc.FinalizingNode? || pc.FinalizingSigner? { FinalizerRank(s, e, pc, ok); }
    else if pc.JsLookup? || pc.JsActing? {}
    else { DrainRank(s, e, pc, ok); }
  }

  /** Each step of an operation brings it nearer its end: the drain of an environment's nodes terminates although
      the list it walks may change between its scans. */
  lemma OperationsTerminate(s: State, e: Env, ok: bool)
    requires Reachable(s) && s.word > 0 && !PcOf(s, e).Idle?
    ensures var o := Step(s, e, Resume(ok)); o.Next? && Rank(o.s, e) < Rank(s, e)
  {
    ReachableSafe(s);
    StepSafe(s, e, Resume(ok));
    assert OwnInv(s, e);
    AdvanceRank(s, e, ok);
  }

  // ---------- Teardown of an environment ----------

  ghost function Pending(s: State, e: Env): set<Hook> {
    set h | h in s.hooks && h.env == e
  }

  ghost predicate NoNewHooks(s: State, o: Outcome) {
    o.Next? ==> o.s.hooks <= s.hooks && o.s.closing == s.closing
  }

  lemma TeardownAddsNoHook(s: State, e: Env, pc: Pc, ok: bool)
    requires Resident(s.list, s.mem)
    requires pc.NodeTeardown? || pc.NodeTeardownStopping? || pc.SignerTeardown? || pc.SignerStopping?
    ensures NoNewHooks(s, AdvanceTeardown(s, e, pc, ok))
  {
  }

  lemma FinalizerAddsNoHook(s: State, e: Env, pc: Pc, ok: bool)
    requires Resident(s.list, s.mem) && (pc.Finalizing? || pc.FinalizingNode? || pc.FinalizingSigner?)
    ensures NoNewHooks(s, AdvanceFinalizer(s, e, pc, ok))
  {
  }

  lemma DrainAddsNoHook(s: State, e: Env, pc: Pc, ok: bool)
    requires Resident(s.list, s.mem)
    requires pc.Scanning? || pc.DrainFinding? || pc.DrainStopping? || pc.DrainUnlinking? || pc.DrainFreeing?
    ensures NoNewHooks(s, AdvanceDrain(s, e, pc, ok))
  {
  }

  lemma AdvanceAddsNoHook(s: State, e: Env, ok: bool)
    requires Resident(s.list, s.mem) && s.word > 0 && PcInv(s, e, PcOf(s, e)) && e in s.closing
    requires Advance(s, e, ok).Next?
    ensures NoNewHooks(s, Advance(s, e, ok))
  {
    var pc := PcOf(s, e);
    if pc.NodeTeardown? || pc.NodeTeardownStopping? || pc.SignerTeardown? || pc.SignerStopping? {
      TeardownAddsNoHook(s, e, pc, ok);
    }
    else if pc.Finalizing? || pc.FinalizingNode? || pc.FinalizingSigner? { FinalizerAddsNoHook(s, e, pc, ok); }
    else if pc.Scanning? || pc.DrainFinding? || pc.DrainStopping? || pc.DrainUnlinking? || pc.DrainFreeing? {
      DrainAddsNoHook(s, e, pc, ok);
    }
  }

  /** Once an environment is closing, every callback libjs runs for it leaves fewer pending, and each of its steps
      that follows leaves no more: its teardown is a finite sequence of operations that each terminate. */
  lemma TeardownTerminates(s: State, e: Env, c: Choice)
    requires Reachable(s) && s.word > 0 && e in s.closing
    requires if c.Resume? then !PcOf(s, e).Idle?
             else PcOf(s, e).Idle? && c.Fire? && c.hook in s.hooks && c.hook.env == e
    ensures var o := Step(s, e, c);
      && o.Next? && e in o.s.closing
      && (c.Fire? ==> |Pending(o.s, e)| < |Pending(s, e)|)
      && (c.Resume? ==> |Pending(o.s, e)| <= |Pending(s, e)| && Rank(o.s, e) < Rank(s, e))
  {
    ReachableSafe(s);
    StepSafe(s, e, c);
    var t := Step(s, e, c).s;
    assert OwnInv(s, e);
    if c.Resume? {
      AdvanceAddsNoHook(s, e, c.ok);
      OperationsTerminate(s, e, c.ok);
      assert Pending(t, e) <= Pending(s, e);
      Smaller(Pending(t, e), Pending(s, e));
    } else {
      assert t == FiredState(s, e, c.hook);
      assert c.hook in Pending(s, e) && c.hook !in Pending(t, e);
      Smaller(Pending(t, e), Pending(s, e));
    }
  }

  // ---------- Retrying after a failure ----------

  lemma RunCons(s: State, m: Move, rest: seq<Move>)
    requires s.word > 0 && Step(s, m.env, m.choice).Next?
    ensures Run(s, [m] + rest) == Run(Step(s, m.env, m.choice).s, rest)
  {
    assert ([m] + rest)[1..] == rest;
  }

  ghost function FinalizingPc(kind: Kind, a: Addr): Pc {
    if kind == Node then FinalizingNode(a) else FinalizingSigner(a)
  }

  /** A later state of the same run in which no signer was stopped in between. */
  ghost predicate Unrevoked(s: State, t: State) {
    |s.trace| <= |t.trace| && forall i :: |s.trace| <= i < |t.trace| ==> !t.trace[i].SignerStop?
  }

  /** The callback of an entry is pending no more, and the others are as they were. */
  ghost predicate WithoutCallback(s: State, t: State, a: Addr)
    requires a in s.mem
  {
    (HookOf(s.mem[a]) in s.hooks ==> s.mem[a].hooked) ==> t.hooks == s.hooks - {HookOf(s.mem[a])}
  }

  lemma RetryLookup(s: State, e: Env, x: External)
    requires Safe(s) && PcOf(s, e) == Finalizing(x) && x.env == e && Tracks(s, x)
    ensures Step(s, e, Resume(true)) == Next(Goto(s, e, FinalizingPc(x.kind, x.addr)))
  {
  }

  lemma RetryFree(s: State, e: Env, kind: Kind, a: Addr)
    requires Safe(s) && PcOf(s, e) == FinalizingPc(kind, a) && Listed(s, e, a, kind)
    ensures var o := Step(s, e, Resume(true));
      && o.Next? && Safe(o.s) && PcOf(o.s, e) == Unlinking(a) && a in o.s.list && a in o.s.mem
      && o.s.mem[a].obj == s.mem[a].obj && o.s.mem[a].freed && Unrevoked(s, o.s) && WithoutCallback(s, o.s, a)
  {
    var o := Step(s, e, Resume(true));
    assert o.Next? && Safe(o.s) && Resident(s.list, s.mem) && s.word > 0 by { StepSafe(s, e, Resume(true)); }
    FinalizerStep(s, e, kind, a);
    FinalizerSucceeds(s, e, kind, a);
  }

  lemma FinalizerStep(s: State, e: Env, kind: Kind, a: Addr)
    requires s.word > 0 && Resident(s.list, s.mem) && PcOf(s, e) == FinalizingPc(kind, a)
    ensures Step(s, e, Resume(true)) == AdvanceFinalizer(s, e, FinalizingPc(kind, a), true)
  {
  }

  lemma FinalizerSucceeds(s: State, e: Env, kind: Kind, a: Addr)
    requires Resident(s.list, s.mem) && a in s.mem && a in s.list
    requires AdvanceFinalizer(s, e, FinalizingPc(kind, a), true).Next?
    ensures var t := AdvanceFinalizer(s, e, FinalizingPc(kind, a), true).s;
      && PcOf(t, e) == Unlinking(a) && a in t.list && a in t.mem
      && t.mem[a].obj == s.mem[a].obj && t.mem[a].freed && Unrevoked(s, t) && WithoutCallback(s, t, a)
  {
  }

  lemma UnlinkStep(s: State, e: Env, a: Addr, ok: bool)
    requires s.word > 0 && Resident(s.list, s.mem) && PcOf(s, e) == Unlinking(a)
    ensures Step(s, e, Resume(ok)) == Next(Unlinked(s, e, a, Freeing(a)))
  {
  }

  lemma FreeStep(s: State, e: Env, a: Addr, ok: bool)
    requires s.word > 0 && Resident(s.list, s.mem) && PcOf(s, e) == Freeing(a) && a in s.mem
    ensures Step(s, e, Resume(ok)) == Next(Released(s, e, a, Idle))
  {
  }

  lemma RunOne(s: State, m: Move)
    requires s.word > 0
    ensures Run(s, [m]) == Step(s, m.env, m.choice)
  {
    assert [m][1..] == [];
    var o := Step(s, m.env, m.choice);
    if o.Next? { assert Run(o.s, []) == Next(o.s); }
  }

  /** The two steps that end an operation on a wrapper: it leaves the registry and is released. */
  lemma UnlinkAndFree(s: State, e: Env, a: Addr, ok: bool)
    requires s.word > 0 && Resident(s.list, s.mem) && Descending(s.list, s.mem) && PcOf(s, e) == Unlinking(a)
    requires a in s.mem
    ensures var r := Move(e, Resume(ok));
      Run(s, [r] + [r]) == Next(Released(Unlinked(s, e, a, Freeing(a)), e, a, Idle))
    ensures a !in Remove(s.list, a)
  {
    var r, t := Move(e, Resume(ok)), Unlinked(s, e, a, Freeing(a));
    RemoveExactly(s.list, s.mem, a);
    UnlinkStep(s, e, a, ok);
    RunCons(s, r, [r]);
    FreeStep(t, e, a, ok);
    RunOne(t, r);
  }

  lemma RetryFromFound(s: State, e: Env, kind: Kind, a: Addr)
    requires Safe(s) && PcOf(s, e) == FinalizingPc(kind, a) && Listed(s, e, a, kind)
    ensures var r := Move(e, Resume(true));
      var o := Run(s, [r] + ([r] + [r]));
      && o.Next? && PcOf(o.s, e).Idle? && a !in o.s.list && a !in o.s.mem
      && Frees(o.s.trace, s.mem[a].obj) == 1 && Unrevoked(s, o.s) && WithoutCallback(s, o.s, a)
  {
    var r := Move(e, Resume(true));
    RetryFree(s, e, kind, a);
    var t := Step(s, e, Resume(true)).s;
    RunCons(s, r, [r] + [r]);
    UnlinkAndFree(t, e, a, true);
    assert Accounted(t.trace, t.mem[a]);
  }

  lemma RetryFromStart(s: State, e: Env, x: External)
    requires Safe(s) && PcOf(s, e) == Finalizing(x) && x.env == e && Tracks(s, x)
    ensures var r := Move(e, Resume(true));
      var o := Run(s, [r] + ([r] + ([r] + [r])));
      && o.Next? && PcOf(o.s, e).Idle? && x.addr !in o.s.list && x.addr !in o.s.mem
      && Frees(o.s.trace, s.mem[x.addr].obj) == 1 && Unrevoked(s, o.s) && WithoutCallback(s, o.s, x.addr)
  {
    var r := Move(e, Resume(true));
    StepSafe(s, e, Resume(true));
    RetryLookup(s, e, x);
    RunCons(s, r, [r] + ([r] + [r]));
    RetryFromFound(Goto(s, e, FinalizingPc(x.kind, x.addr)), e, x.kind, x.addr);
  }

  lemma CollectStep(s: State, x: External)
    requires Safe(s) && PcOf(s, x.env).Idle?
    ensures var t := CollectedState(s, x.env, x);
      Step(s, x.env, Collect(x)) == Next(t) && Safe(t) && (Tracks(s, x) ==> Tracks(t, x))
  {
    StepSafe(s, x.env, Collect(x));
  }

  /** Whatever teardown retained can be retried: a later finalizer of a registered handle, with a native library that
      answers Ok, frees its native object if that has not been done, unregisters and releases the wrapper, takes its
      callback back, and stops no signer. */
  lemma RetainedCanBeFinalized(s: State, x: External)
    requires Reachable(s) && s.word > 0 && PcOf(s, x.env).Idle? && Tracks(s, x)
    ensures var r := Move(x.env, Resume(true));
      var o := Run(s, [Move(x.env, Collect(x))] + ([r] + ([r] + ([r] + [r]))));
      && o.Next? && PcOf(o.s, x.env).Idle? && x.addr !in o.s.list && x.addr !in o.s.mem
      && Frees(o.s.trace, s.mem[x.addr].obj) == 1 && Unrevoked(s, o.s)
      && o.s.hooks == s.hooks - {Hook(x.env, x.kind, x.id)}
  {
    ReachableSafe(s);
    ReachableCallbacks(s, x.env);
    var r := Move(x.env, Resume(true));
    CollectStep(s, x);
    RunCons(s, Move(x.env, Collect(x)), [r] + ([r] + ([r] + [r])));
    RetryFromStart(CollectedState(s, x.env, x), x.env, x);
  }
}
