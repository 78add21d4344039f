/** What the lifecycle protocol guarantees in every reachable state and along every run. */
module LifecycleTheorems {
  import opened Handles
  import opened Lifecycle
  import opened LifecycleInvariant
  import opened LifecycleSteps
  import opened LifecycleLedger
  import opened LifecycleSafety

  // ---------- Registry, callbacks and externals ----------

  /** Between operations the allocated wrappers of an environment are exactly its registered entries, and an entry
      whose flag says so has its callback pending. */
  lemma WrappersAreRegistered(s: State, e: Env)
    requires Reachable(s) && PcOf(s, e).Idle?
    ensures forall a :: Mine(s, e, a) <==> a in s.list && a in s.mem && s.mem[a].env == e
    ensures forall a :: Mine(s, e, a) && s.mem[a].hooked ==> HookOf(s.mem[a]) in s.hooks
    ensures forall h, a :: h in s.hooks && a in s.list && a in s.mem && s.mem[a].id == h.id ==> HookOf(s.mem[a]) == h
  {
    ReachableSafe(s);
    assert EnvInv(s, e);
  }

  /** A handle that JavaScript can still reach passes `owns_handle` and names the generation it was created for. */
  lemma ExternalsAreOwned(s: State, x: External)
    requires Reachable(s) && x in s.live && x.env !in s.closing
    ensures Resident(s.list, s.mem) && Owns(s.list, s.mem, x.env, x.addr, x.kind) && s.mem[x.addr].id == x.id
    ensures forall y :: y in s.live && y.env !in s.closing && y.addr == x.addr ==> y == x
  {
    ReachableSafe(s);
    assert EnvInv(s, x.env);
    assert Tracks(s, x);
    forall y | y in s.live && y.env !in s.closing && y.addr == x.addr ensures y == x {
      assert EnvInv(s, y.env);
      assert Tracks(s, y);
    }
  }

  /** An environment's step is invisible to the others: their wrappers, entries, callbacks, handles and progress. */
  lemma EnvironmentsAreIsolated(s: State, e: Env, c: Choice, f: Env)
    requires Reachable(s) && s.word > 0 && e != f
    ensures var o := Step(s, e, c); o.Next? && SameView(s, o.s, f)
  {
    ReachableSafe(s);
    StepSafe(s, e, c);
  }

  // ---------- Identities ----------

  /** `id` was issued and names no entry. */
  ghost predicate Dead(s: State, id: nat) {
    Issued(s, id) && forall a :: a in s.list && a in s.mem ==> s.mem[a].id != id
  }

  lemma {:induction false} DeadStaysDead(s: State, moves: seq<Move>, id: nat)
    requires Safe(s) && Dead(s, id)
    ensures var o := Run(s, moves); o.Next? && Dead(o.s, id)
    decreases |moves|
  {
    if moves != [] {
      StepSafe(s, moves[0].env, moves[0].choice);
      var t := Step(s, moves[0].env, moves[0].choice).s;
      assert Evolves(s, t);
      DeadStaysDead(t, moves[1..], id);
    }
  }

  /** Identities are issued in increasing order, so no two registrations of a run share one, and the list holds them
      in decreasing order. */
  lemma IdentitiesAreFresh(s: State, i: nat, j: nat)
    requires Reachable(s) && i < j < |s.trace| && s.trace[i].Issue? && s.trace[j].Issue?
    ensures 0 < s.trace[i].id < s.trace[j].id < s.word
    ensures Resident(s.list, s.mem) && Descending(s.list, s.mem)
  {
    ReachableSafe(s);
    assert Admissible(s.trace[..i], s.trace[i]) && Admissible(s.trace[..j], s.trace[j]);
    assert s.trace[..j][i] == s.trace[i];
    assert s.trace[j] in s.trace;
  }

  /** Once the counter has wrapped to 0 nothing is ever registered again. */
  lemma {:induction false} ExhaustedForever(s: State, moves: seq<Move>)
    requires Safe(s) && s.nextId == 0
    ensures var o := Run(s, moves);
      && o.Next? && o.s.nextId == 0
      && (forall a :: a in o.s.list ==> a in s.list)
      && (forall ev :: ev in o.s.trace && ev.Issue? ==> ev in s.trace)
    decreases |moves|
  {
    if moves != [] {
      StepSafe(s, moves[0].env, moves[0].choice);
      var t := Step(s, moves[0].env, moves[0].choice).s;
      ExhaustedStep(s, moves[0].env, t);
      ExhaustedForever(t, moves[1..]);
    }
  }

  lemma ExhaustedStep(s: State, e: Env, t: State)
    requires s.nextId == 0 && Resident(s.list, s.mem) && Evolves(s, t) && TraceGrows(s, t, e)
    ensures t.nextId == 0
    ensures forall a :: a in t.list ==> a in s.list
    ensures forall ev :: ev in t.trace && ev.Issue? ==> ev in s.trace
  {
    assert forall i :: 0 <= i < |s.trace| ==> t.trace[..|s.trace|][i] == t.trace[i];
  }

  /** The state without what an environment is doing and without which handles JavaScript holds. */
  ghost predicate SameNative(s: State, t: State) {
    && t.mem == s.mem && t.list == s.list && t.nextId == s.nextId && t.trace == s.trace && t.wrapped == s.wrapped
  }

  /** A late or duplicate finalizer of a dead generation changes nothing, even when its address is in use again by
      the same environment for the same kind of handle. */
  lemma LateFinalizer(s: State, x: External, ok: bool)
    requires Reachable(s) && s.word > 0 && PcOf(s, x.env).Idle? && Dead(s, x.id)
    ensures var o := Run(s, [Move(x.env, Collect(x)), Move(x.env, Resume(ok))]);
      o.Next? && SameNative(s, o.s) && o.s.hooks == s.hooks && PcOf(o.s, x.env).Idle?
  {
    ReachableSafe(s);
    LateFinalizerStep(CollectedState(s, x.env, x), x, ok);
    RunTwo(s, Move(x.env, Collect(x)), Move(x.env, Resume(ok)));
  }

  lemma LateFinalizerStep(t: State, x: External, ok: bool)
    requires t.word > 0 && Resident(t.list, t.mem) && Dead(t, x.id) && PcOf(t, x.env) == Finalizing(x)
    ensures Step(t, x.env, Resume(ok)) == Next(Goto(t, x.env, Idle))
  {
  }

  /** A pending callback whose entry is gone, which the drain leaves behind, is a no-op. */
  lemma StaleCallback(s: State, h: Hook, ok: bool)
    requires Reachable(s) && s.word > 0 && PcOf(s, h.env).Idle? && h.env in s.closing && h in s.hooks && Dead(s, h.id)
    ensures var o := Run(s, [Move(h.env, Fire(h)), Move(h.env, Resume(ok))]);
      o.Next? && SameNative(s, o.s) && o.s.hooks == s.hooks - {h} && PcOf(o.s, h.env).Idle?
  {
    ReachableSafe(s);
    StaleCallbackStep(FiredState(s, h.env, h), h, ok);
    RunTwo(s, Move(h.env, Fire(h)), Move(h.env, Resume(ok)));
  }

  lemma StaleCallbackStep(t: State, h: Hook, ok: bool)
    requires t.word > 0 && Resident(t.list, t.mem) && Dead(t, h.id)
    requires PcOf(t, h.env) == if h.kind == Node then NodeTeardown(h.id) else SignerTeardown(h.id)
    ensures Step(t, h.env, Resume(ok)) == Next(Goto(t, h.env, Idle))
  {
  }

  lemma RunTwo(s: State, m: Move, n: Move)
    requires s.word > 0 && Step(s, m.env, m.choice).Next?
    ensures var t := Step(s, m.env, m.choice).s;
      Run(s, [m, n]) == Step(t, n.env, n.choice)
  {
    var t := Step(s, m.env, m.choice).s;
    assert [m, n][1..] == [n];
    assert [n][1..] == [];
    var o := Step(t, n.env, n.choice);
    if o.Next? { assert Run(o.s, []) == Next(o.s); }
  }

  // ---------- Native objects ----------

  /** For a wrapped node: after a successful shutdown there is neither another shutdown nor another call. */
  lemma StoppedOnce(s: State, o: Obj, i: nat, j: nat)
    requires Reachable(s) && o in s.wrapped && i < j < |s.trace|
    requires s.trace[i].NodeStop? && s.trace[i].obj == o && s.trace[i].ok
    ensures s.trace[j].NodeStop? || s.trace[j].NodeCall? ==> s.trace[j].obj != o
  {
    ReachableSafe(s);
    assert Admissible(s.trace[..j], s.trace[j]) || Discarded(s.trace[j], s.lost);
    assert s.trace[..j][i] == s.trace[i];
  }

  lemma SeenBefore(trace: seq<Event>, j: nat, k: nat)
    requires j < k <= |trace|
    ensures trace[j] in trace[..k] && multiset(trace[..k])[trace[j]] >= 1
  {
    assert trace[..k][j] == trace[j];
  }

  lemma StoppedAt(trace: seq<Event>, j: nat, o: Obj) returns (i: nat)
    requires j <= |trace| && Stopped(trace[..j], o)
    ensures i < j && trace[i].NodeStop? && trace[i].obj == o && trace[i].ok
  {
    var p :| p in trace[..j] && p.NodeStop? && p.obj == o && p.ok;
    i :| 0 <= i < j && trace[..j][i] == p;
  }

  /** In a legal trace nothing about a node or a signer follows its free, when all events about it are of its kind. */
  lemma NothingAfterFree(trace: seq<Event>, lost: set<Obj>, o: Obj, j: nat, k: nat)
    requires Legal(trace, lost) && o !in lost && j < k < |trace|
    requires trace[j] == NodeFree(o) || trace[j] == SignerFree(o)
    requires About(trace[k], o) ==> EventKind(trace[k]) == EventKind(trace[j])
    ensures !About(trace[k], o)
  {
    SeenBefore(trace, j, k);
    assert Frees(trace[..k], o) >= 1;
    assert Admissible(trace[..k], trace[k]) || Discarded(trace[k], lost);
    if trace[j].NodeFree? {
      assert Admissible(trace[..j], trace[j]);
      var i := StoppedAt(trace, j, o);
      SeenBefore(trace, i, k);
      assert Stopped(trace[..k], o);
    }
  }

  lemma KindOfEvents(s: State, o: Obj)
    requires Safe(s) && o in s.wrapped
    ensures o !in s.lost && Frees(s.trace, o) <= 1
    ensures forall ev :: ev in s.trace && About(ev, o) ==> EventKind(ev) == s.wrapped[o].kind
  {
    if Held(s, o, s.wrapped[o]) { assert Accounted(s.trace, s.mem[s.wrapped[o].addr]); }
  }

  /** For a wrapped object: it is freed at most once, a node only after a shutdown that returned Ok, and a signer is
      neither used nor stopped afterwards. */
  lemma FreedOnce(s: State, o: Obj, j: nat)
    requires Reachable(s) && o in s.wrapped && j < |s.trace|
    requires s.trace[j] == NodeFree(o) || s.trace[j] == SignerFree(o)
    ensures Frees(s.trace, o) == 1
    ensures EventKind(s.trace[j]) == s.wrapped[o].kind
    ensures s.wrapped[o].kind == Node ==>
      exists i :: 0 <= i < j && s.trace[i].NodeStop? && s.trace[i].obj == o && s.trace[i].ok
    ensures forall k :: j < k < |s.trace| ==> !About(s.trace[k], o)
  {
    ReachableSafe(s);
    KindOfEvents(s, o);
    assert s.trace[j] in s.trace && About(s.trace[j], o);
    assert multiset(s.trace)[s.trace[j]] >= 1;
    assert Admissible(s.trace[..j], s.trace[j]);
    if s.wrapped[o].kind == Node {
      var i := StoppedAt(s.trace, j, o);
    }
    forall k | j < k < |s.trace| ensures !About(s.trace[k], o) {
      assert s.trace[k] in s.trace;
      NothingAfterFree(s.trace, s.lost, o, j, k);
    }
  }

  /** No wrapped native object is forgotten: while it has not been freed, a wrapper of its environment holds it. */
  lemma NothingIsForgotten(s: State, o: Obj)
    requires Reachable(s) && o in s.wrapped
    ensures Frees(s.trace, o) <= 1
    ensures Frees(s.trace, o) == 0 ==> Held(s, o, s.wrapped[o]) && !s.mem[s.wrapped[o].addr].freed
    ensures Frees(s.trace, o) == 0 && PcOf(s, s.wrapped[o].env).Idle? ==> s.wrapped[o].addr in s.list
  {
    ReachableSafe(s);
    if Held(s, o, s.wrapped[o]) {
      assert Accounted(s.trace, s.mem[s.wrapped[o].addr]);
      assert EnvInv(s, s.wrapped[o].env);
      assert Mine(s, s.wrapped[o].env, s.wrapped[o].addr);
    }
  }

  // ---------- Teardown ----------

  /** Along any run, with any failures: once teardown has revoked a signer of an environment it stops none of its
      nodes, so every node stop made by teardown precedes every signer stop made by it. A later node stop belongs to
      the teardown of another environment at the same pointer. */
  lemma NodesStopBeforeSigners(s: State, e: Env, i: nat, j: nat)
    requires Reachable(s) && i < |s.trace| && j < |s.trace|
    requires s.trace[i].NodeStop? && s.trace[i].env == e && s.trace[i].teardown
    requires IsRevocation(s.trace[j], e)
    ensures i < j || exists k :: j < k < i && s.trace[k] == Opened(e)
  {
    ReachableSafe(s);
    var prev := s.trace[..i];
    assert Admissible(prev, s.trace[i]) || Discarded(s.trace[i], s.lost);
    assert forall k :: 0 <= k < i ==> prev[k] == s.trace[k];
    if j < i && forall k :: j < k < i ==> s.trace[k] != Opened(e) {
      RevokedAt(prev, j, e);
    }
  }

  lemma RevokedAt(trace: seq<Event>, j: nat, e: Env)
    requires j < |trace| && IsRevocation(trace[j], e) && forall k :: j < k < |trace| ==> trace[k] != Opened(e)
    ensures Revoked(trace, e)
  {
    assert Latest(trace, j, e);
  }

  /** The step in which teardown stops a signer finds no wrapper of a node of that environment left, freed or not. */
  lemma NeverRevokedUnderNodes(s: State, e: Env, c: Choice)
    requires Reachable(s) && s.word > 0
    requires var o := Step(s, e, c);
      o.Next? && |s.trace| < |o.s.trace| && IsRevocation(o.s.trace[|s.trace|], e)
    ensures NoNodes(s, e)
  {
    ReachableSafe(s);
    StepSafe(s, e, c);
    assert TraceGrows(s, Step(s, e, c).s, e);
  }

  /** A wrapper of the environment as it is now, not of an earlier one at the same pointer. */
  ghost predicate Current(s: State, e: Env, a: Addr) {
    Mine(s, e, a) && s.mem[a].id >= FirstOf(s, e)
  }

  lemma IdleEntry(s: State, e: Env, a: Addr)
    requires EntriesInv(s, e, Idle) && Mine(s, e, a)
    ensures a in s.list
    ensures HookOf(s.mem[a]) in s.hooks || Leftover(s, e, a) || (e in s.closing && FailedTeardown(s.trace, e))
  {
  }

  /** When its callbacks have run, in whatever order and after whatever history, and no native stop made by its
      teardown failed, nothing of the environment is left and each object it wrapped was freed exactly once. If
      teardown revoked a signer, no node that an earlier teardown at this pointer retained is left either. */
  lemma TeardownLeavesNothing(s: State, e: Env)
    requires Reachable(s)
    requires e in s.closing && PcOf(s, e).Idle? && (forall h :: h in s.hooks ==> h.env != e)
    requires !FailedTeardown(s.trace, e)
    ensures forall a :: !Current(s, e, a)
    ensures forall o ::
      o in s.wrapped && s.wrapped[o].env == e && s.wrapped[o].id >= FirstOf(s, e) ==> Frees(s.trace, o) == 1
    ensures Revoked(s.trace, e) ==> NoNodes(s, e)
  {
    ReachableSafe(s);
    assert EnvInv(s, e);
    forall a ensures !Current(s, e, a) {
      if Current(s, e, a) { IdleEntry(s, e, a); }
    }
    forall o | o in s.wrapped && s.wrapped[o].env == e && s.wrapped[o].id >= FirstOf(s, e)
      ensures Frees(s.trace, o) == 1
    {
      assert !Current(s, e, s.wrapped[o].addr);
    }
  }

  /** What teardown could not finish is still owned: an unfreed object stays registered and held, and either its
      callback is pending, or a native stop made by a teardown failed: by one at this pointer for what an earlier
      environment left behind, and by the environment's own otherwise. */
  lemma FailureKeepsOwnership(s: State, e: Env, o: Obj)
    requires Reachable(s) && PcOf(s, e).Idle?
    requires o in s.wrapped && s.wrapped[o].env == e && Frees(s.trace, o) == 0
    ensures var a := s.wrapped[o].addr;
      && a in s.list && a in s.mem && s.mem[a].obj == o && !s.mem[a].freed
      && (HookOf(s.mem[a]) in s.hooks || EverFailed(s.trace, e))
      && (HookOf(s.mem[a]) in s.hooks || s.mem[a].id < FirstOf(s, e) || (e in s.closing && FailedTeardown(s.trace, e)))
  {
    NothingIsForgotten(s, o);
    ReachableSafe(s);
    assert EnvInv(s, e);
    IdleEntry(s, e, s.wrapped[o].addr);
    FailureOnce(s.trace, e);
  }

  /** A pointer given to a new environment brings along only what a failed native stop retained: registered, without a
      callback, and out of reach of JavaScript. */
  lemma ReopenedFindsLeftovers(s: State, e: Env)
    requires Reachable(s) && s.word > 0
    requires e in s.closing && PcOf(s, e).Idle? && (forall h :: h in s.hooks ==> h.env != e)
    ensures Step(s, e, Reopen) == Next(ReopenedState(s, e)) && Reachable(ReopenedState(s, e))
    ensures var t := ReopenedState(s, e);
      && (forall a :: !Current(t, e, a))
      && (forall a :: Mine(t, e, a) ==> a in t.list && !t.mem[a].hooked && EverFailed(t.trace, e))
      && (forall x :: x in t.live ==> x.env != e)
  {
    ReachableSafe(s);
    assert EnvInv(s, e);
    forall a | Mine(s, e, a) ensures a in s.list && !s.mem[a].hooked && Leftover(ReopenedState(s, e), e, a) {
      IdleEntry(s, e, a);
      ReopenedFailures(s, e, a);
    }
    OneMoreStep(s, Move(e, Reopen));
  }

  /** A finalizer never revokes a signer. */
  lemma FinalizersDoNotRevoke(s: State, e: Env, ok: bool, i: nat)
    requires Reachable(s) && s.word > 0
    requires PcOf(s, e).Finalizing? || PcOf(s, e).FinalizingNode? || PcOf(s, e).FinalizingSigner?
    requires var o := Step(s, e, Resume(ok)); o.Next? && |s.trace| <= i < |o.s.trace|
    ensures !Step(s, e, Resume(ok)).s.trace[i].SignerStop?
  {
    ReachableSafe(s);
    FinalizerEvents(s, e, PcOf(s, e), ok);
  }

  lemma FinalizerEvents(s: State, e: Env, pc: Pc, ok: bool)
    requires Resident(s.list, s.mem) && (pc.Finalizing? || pc.FinalizingNode? || pc.FinalizingSigner?)
    requires AdvanceFinalizer(s, e, pc, ok).Next?
    ensures var t := AdvanceFinalizer(s, e, pc, ok).s;
      |s.trace| <= |t.trace| && forall i :: |s.trace| <= i < |t.trace| ==> !t.trace[i].SignerStop?
  {
  }
}
