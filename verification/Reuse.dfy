/** A run that reuses everything at once: the environment pointer, the address and the kind of a handle. */
module LifecycleReuse {
  import opened Common
  import opened Handles
  import opened Lifecycle
  import opened LifecycleInvariant
  import opened LifecycleSteps
  import opened LifecycleSafety
  import opened LifecycleProgress
  import opened LifecycleTheorems
  import opened LifecycleDrain
  import R = HandleOutcomes

  /** An environment without wrappers and callbacks, which is not in the binding. */
  ghost predicate Fresh(s: State, e: Env) {
    && Reachable(s) && s.word > 0 && PcOf(s, e).Idle?
    && (forall a :: !Mine(s, e, a)) && (forall h :: h in s.hooks ==> h.env != e)
  }

  /** It holds one signer, wrapped as `x`. */
  ghost predicate HoldsSigner(s: State, x: External) {
    && Reachable(s) && s.word > 0 && PcOf(s, x.env).Idle? && x in s.live && Tracks(s, x) && x.kind == Signer
    && s.mem[x.addr].hooked && !s.mem[x.addr].freed
    && (forall a :: Mine(s, x.env, a) ==> a == x.addr)
    && (forall h :: h in s.hooks && h.env == x.env ==> h == Hook(x.env, Signer, x.id))
    && Hook(x.env, Signer, x.id) in s.hooks
  }

  // ---------- Wrapping ----------

  lemma AllocateStep(s: State, e: Env, a: Addr)
    requires Fresh(s, e) && e !in s.closing && a !in s.mem && a != NULL
    ensures Reachable(AllocatedState(s, e, Signer, a))
  {
    ReachableSafe(s);
    OneMoreStep(s, Move(e, Wrap(Signer, Some(a))));
  }

  lemma RegisterStep(s: State, e: Env, a: Addr)
    requires Reachable(s) && s.word > 0 && PcOf(s, e) == Registering(a) && a in s.mem && s.nextId != 0
    ensures Reachable(RegisteredState(s, e, a))
  {
    ReachableSafe(s);
    OneMoreStep(s, Move(e, Resume(true)));
  }

  lemma HookStep(s: State, e: Env, a: Addr)
    requires Reachable(s) && s.word > 0 && PcOf(s, e) == Hooking(a) && a in s.mem
    ensures Reachable(HookedState(s, e, a))
  {
    ReachableSafe(s);
    OneMoreStep(s, Move(e, Resume(true)));
  }

  lemma ExportStep(s: State, e: Env, a: Addr)
    requires Reachable(s) && s.word > 0 && PcOf(s, e) == Exporting(a) && a in s.mem
    ensures Reachable(ExportedState(s, e, a))
  {
    ReachableSafe(s);
    OneMoreStep(s, Move(e, Resume(true)));
  }

  ghost function WrappedState(s: State, e: Env, a: Addr): State
    requires s.word > 0
  {
    ExportedState(HookedState(RegisteredState(AllocatedState(s, e, Signer, a), e, a), e, a), e, a)
  }

  /** What a successful wrap comes to. */
  lemma WrappedFields(s: State, e: Env, a: Addr)
    requires s.word > 0
    ensures var t, w := WrappedState(s, e, a), Wrapper(e, Signer, s.nextId, s.nextObj, false, false, true);
      && t.mem == s.mem[a := w] && t.list == [a] + s.list && t.hooks == s.hooks + {HookOf(w)}
      && t.live == s.live + {External(e, a, Signer, s.nextId)} && PcOf(t, e).Idle?
      && t.nextId == Successor(s.nextId, s.word) && t.word == s.word && t.closing == s.closing
  {
    var w := Wrapper(e, Signer, 0, s.nextObj, false, false, false);
    assert s.mem[a := w][a := w.(id := s.nextId)] == s.mem[a := w.(id := s.nextId)];
    assert s.mem[a := w.(id := s.nextId)][a := w.(id := s.nextId, hooked := true)] ==
      s.mem[a := w.(id := s.nextId, hooked := true)];
  }

  lemma WrapReaches(s: State, e: Env, a: Addr)
    requires Fresh(s, e) && e !in s.closing && a !in s.mem && a != NULL && s.nextId != 0
    ensures Reachable(WrappedState(s, e, a))
  {
    var s1 := AllocatedState(s, e, Signer, a);
    AllocateStep(s, e, a);
    var s2 := RegisteredState(s1, e, a);
    RegisterStep(s1, e, a);
    HookStep(s2, e, a);
    ExportStep(HookedState(s2, e, a), e, a);
  }

  lemma WrapsSigner(s: State, e: Env, a: Addr) returns (t: State)
    requires Fresh(s, e) && e !in s.closing && a !in s.mem && a != NULL && s.nextId != 0
    ensures HoldsSigner(t, External(e, a, Signer, s.nextId)) && e !in t.closing
    ensures t.mem.Keys == s.mem.Keys + {a} && t.list == [a] + s.list && t.nextId == Successor(s.nextId, s.word)
    ensures t.word == s.word
    ensures forall b :: b in s.mem ==> t.mem[b] == s.mem[b]
  {
    t := WrappedState(s, e, a);
    WrapReaches(s, e, a);
    WrappedFields(s, e, a);
    forall b | Mine(t, e, b) ensures b == a {
      if b != a { assert Mine(s, e, b); }
    }
  }

  // ---------- Its teardown ----------

  /** What becomes of the state when libjs has run the callback of the one signer. */
  ghost predicate TornDown(s: State, t: State, x: External) {
    && Reachable(t) && t.word == s.word && PcOf(t, x.env).Idle? && x.env in t.closing
    && t.nextId == s.nextId && t.hooks == s.hooks - {Hook(x.env, Signer, x.id)}
    && x.addr in s.mem && t.mem == s.mem - {x.addr} && t.list == Remove(s.list, x.addr)
  }

  lemma CloseAndFire(s: State, x: External) returns (t: State)
    requires HoldsSigner(s, x)
    ensures t == FiredState(ClosedState(s, x.env), x.env, Hook(x.env, Signer, x.id)) && Reachable(t)
  {
    ReachableSafe(s);
    OneMoreStep(s, Move(x.env, Close));
    var m := ClosedState(s, x.env);
    ReachableSafe(m);
    OneMoreStep(m, Move(x.env, Fire(Hook(x.env, Signer, x.id))));
    t := FiredState(m, x.env, Hook(x.env, Signer, x.id));
  }

  lemma OnwardTo(s: State, t: State, e: Env, stops: nat -> bool, ok: bool)
    requires Reachable(s) && OwnStep(s, t, e, stops, ok)
    ensures Reachable(t)
  {
    OneMoreStep(s, Move(e, Resume(Answer(PcOf(s, e), stops, ok))));
  }

  lemma FoundSigner(s: State, x: External)
    requires RegistryInv(s) && Tracks(s, x) && x.kind == Signer
    ensures FindTeardown(s.list, s.mem, x.id, Signer) == Some(x.addr)
  {
    FoundIs(s, x.id, Signer, x.addr);
  }

  lemma NothingToDrain(s: State, e: Env, a: Addr)
    requires Resident(s.list, s.mem) && (forall b :: Mine(s, e, b) ==> b == a) && a in s.mem && s.mem[a].kind == Signer
    ensures NextNode(s.list, s.mem, e, 0) == 0
  {
    var id := NextNode(s.list, s.mem, e, 0);
    if id != 0 {
      var b :| b in s.list && IsNode(s.mem[b], e) && s.mem[b].id == id;
      assert Mine(s, e, b);
      assert false;
    }
  }

  lemma RevokesSigner(s: State, x: External, stops: nat -> bool) returns (t: State)
    requires Reachable(s) && InTeardown(s, x.env, x.addr) && PcOf(s, x.env) == Scanning(x.addr, 0, true)
    requires NextNode(s.list, s.mem, x.env, 0) == 0 && !s.mem[x.addr].freed
    ensures Reachable(t) && PcOf(t, x.env).Idle?
    ensures t.word == s.word && t.closing == s.closing && t.nextId == s.nextId && t.hooks == s.hooks
    ensures t.mem == s.mem - {x.addr} && t.list == Remove(s.list, x.addr)
  {
    var e, a := x.env, x.addr;
    var u := Goto(s, e, SignerStopping(a));
    ScanStep(s, e, a, 0, true, stops, true);
    OnwardTo(s, u, e, stops, true);
    var v := SignerStoppedState(u, e, a, true);
    SignerStopStep(u, e, a, stops, true);
    OnwardTo(u, v, e, stops, true);
    t := EndsOperation(v, e, a);
    R.StoredThenFreed(s.mem, a, v.mem[a], v.mem[a]);
  }

  lemma EndsOperation(v: State, e: Env, a: Addr) returns (t: State)
    requires Reachable(v) && v.word > 0 && PcOf(v, e) == Unlinking(a) && a in v.mem
    ensures t == Released(Unlinked(v, e, a, Freeing(a)), e, a, Idle) && Reachable(t)
  {
    ReachableSafe(v);
    RemoveExactly(v.list, v.mem, a);
    UnlinkStep(v, e, a, true);
    OneMoreStep(v, Move(e, Resume(true)));
    var w := Unlinked(v, e, a, Freeing(a));
    FreeStep(w, e, a, true);
    OneMoreStep(w, Move(e, Resume(true)));
    t := Released(w, e, a, Idle);
  }

  /** The callback finds its signer, and no node to drain. */
  lemma FindsSigner(s: State, x: External, stops: nat -> bool) returns (t: State)
    requires HoldsSigner(s, x)
    ensures Reachable(t) && InTeardown(t, x.env, x.addr) && PcOf(t, x.env) == Scanning(x.addr, 0, true)
    ensures NextNode(t.list, t.mem, x.env, 0) == 0 && !t.mem[x.addr].freed
    ensures t.word == s.word && t.closing == s.closing + {x.env} && t.nextId == s.nextId
    ensures t.hooks == s.hooks - {Hook(x.env, Signer, x.id)} && t.list == s.list
    ensures x.addr in s.mem && t.mem == s.mem[x.addr := s.mem[x.addr].(hooked := false)]
  {
    var e := x.env;
    var s1 := CloseAndFire(s, x);
    ReachableSafe(s);
    ReachableSafe(s1);
    FoundSigner(s, x);
    t := LookedUp(s1, e, x.id);
    LookupStep(s1, e, x.id, stops, true);
    OnwardTo(s1, t, e, stops, true);
    LookedUpSeen(s1, e, x.addr);
    forall b | Mine(t, e, b) ensures b == x.addr { assert Mine(s, e, b); }
    NothingToDrain(t, e, x.addr);
  }

  lemma TearsDownSigner(s: State, x: External) returns (t: State)
    requires HoldsSigner(s, x)
    ensures TornDown(s, t, x)
  {
    var stops := (n: nat) => true;
    var u := FindsSigner(s, x, stops);
    t := RevokesSigner(u, x, stops);
    R.StoredThenFreed(s.mem, x.addr, u.mem[x.addr], u.mem[x.addr]);
  }

  // ---------- Reuse ----------

  /** The teardown of an environment is over, and nothing of it is left. */
  ghost predicate Over(s: State, e: Env) {
    && Reachable(s) && s.word > 0 && PcOf(s, e).Idle? && e in s.closing
    && (forall a :: !Mine(s, e, a)) && (forall h :: h in s.hooks ==> h.env != e)
  }

  lemma ReopenReaches(s: State, e: Env)
    requires Over(s, e)
    ensures Reachable(ReopenedState(s, e))
  {
    ReopenedFindsLeftovers(s, e);
  }

  lemma Reopens(s: State, e: Env)
    requires Over(s, e)
    ensures var t := ReopenedState(s, e);
      Fresh(t, e) && e !in t.closing && t.mem == s.mem && t.list == s.list && t.nextId == s.nextId && t.word == s.word
  {
    ReopenReaches(s, e);
    assert forall a :: Mine(ReopenedState(s, e), e, a) ==> Mine(s, e, a);
  }

  lemma BackAgain(s: State, s1: State, s2: State, e: Env, a: Addr)
    requires a !in s.mem && s1.mem.Keys == s.mem.Keys + {a} && (forall b :: b in s.mem ==> s1.mem[b] == s.mem[b])
    requires s1.list == [a] + s.list && TornDown(s1, s2, External(e, a, Signer, s.nextId))
    ensures s2.mem == s.mem && s2.list == s.list
  {
    RemovesOnly(s, s1, a);
    SameAgain(s, s1, a);
  }

  lemma LeavesNothing(s: State, t: State, x: External)
    requires HoldsSigner(s, x) && TornDown(s, t, x)
    ensures Over(t, x.env)
  {
    forall a ensures !Mine(t, x.env, a) {
      if a in s.mem && s.mem[a].env == x.env { assert Mine(s, x.env, a); }
    }
  }

  /** Wrapping a signer and tearing its environment down leaves nothing but a used identity. */
  lemma ComesAndGoes(s: State, e: Env, a: Addr) returns (t: State)
    requires Fresh(s, e) && e !in s.closing && a !in s.mem && a != NULL && 0 < s.nextId < s.nextId + 1 < s.word
    ensures Over(t, e) && t.mem == s.mem && t.list == s.list && t.nextId == s.nextId + 1 && t.word == s.word
  {
    var x := External(e, a, Signer, s.nextId);
    var s1 := WrapsSigner(s, e, a);
    t := TearsDownSigner(s1, x);
    BackAgain(s, s1, t, e, a);
    LeavesNothing(s1, t, x);
  }

  /** In the environment opened next, a signer at the same address. */
  lemma ComesBack(s: State, e: Env, a: Addr) returns (t: State)
    requires Over(s, e) && a !in s.mem && a != NULL && 0 < s.nextId < s.nextId + 1 < s.word
    ensures HoldsSigner(t, External(e, a, Signer, s.nextId)) && e !in t.closing
    ensures t.list == [a] + s.list && t.nextId == s.nextId + 1 && t.word == s.word
    ensures forall b :: b in s.mem ==> b in t.mem && t.mem[b] == s.mem[b]
  {
    Reopens(s, e);
    t := WrapsSigner(ReopenedState(s, e), e, a);
  }

  /** No entry has the next identity. */
  lemma NextIsUnused(s: State)
    requires Reachable(s) && s.nextId != 0
    ensures Resident(s.list, s.mem) && forall b :: b in s.list ==> s.mem[b].id != s.nextId
  {
    ReachableSafe(s);
    assert forall b :: b in s.list ==> Issued(s, s.mem[b].id);
  }

  lemma SameAgain(s: State, s1: State, a: Addr)
    requires a !in s.mem && s1.mem.Keys == s.mem.Keys + {a} && forall b :: b in s.mem ==> s1.mem[b] == s.mem[b]
    ensures s1.mem - {a} == s.mem
  {
  }

  lemma RemovesOnly(s: State, s1: State, a: Addr)
    requires s1.list == [a] + s.list
    ensures Remove(s1.list, a) == s.list
  {
  }

  lemma OtherIdentities(s: State, t: State, a: Addr, id: nat)
    requires Resident(s.list, s.mem) && t.list == [a] + s.list && a in t.mem && t.mem[a].id != id
    requires forall b :: b in s.list ==> s.mem[b].id != id
    requires forall b :: b in s.mem ==> b in t.mem && t.mem[b] == s.mem[b]
    ensures forall b :: b in t.list && b in t.mem ==> t.mem[b].id != id
  {
    forall b | b in t.list && b in t.mem ensures t.mem[b].id != id {
      if b != a { assert b in s.list; }
    }
  }

  /** The run of the fixture: an environment wraps a signer and is torn down; its pointer is used for a new environment,
      which wraps a signer that malloc puts at the same address.  The old external still names that environment, address
      and kind, but a dead generation; the new one is alive. */
  lemma EverythingReused(s: State, e: Env, a: Addr) returns (t: State, x: External, y: External)
    requires Fresh(s, e) && e !in s.closing && a !in s.mem && a != NULL
    requires 0 < s.nextId < s.nextId + 2 < s.word
    ensures HoldsSigner(t, y) && e !in t.closing
    ensures x.env == y.env == e && x.addr == y.addr == a && x.kind == y.kind && x.id != y.id && Dead(t, x.id)
  {
    x, y := External(e, a, Signer, s.nextId), External(e, a, Signer, s.nextId + 1);
    var u := ComesAndGoes(s, e, a);
    t := ComesBack(u, e, a);
    NextIsUnused(s);
    OtherIdentities(u, t, a, x.id);
  }
}
