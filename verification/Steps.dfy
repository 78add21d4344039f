/** Every step keeps the invariant, and leaves the other environments as they are. */
module LifecycleSteps {
  import opened Common
  import opened Handles
  import opened Lifecycle
  import opened LifecycleInvariant

  /** Nothing of environment `e` has changed. */
  ghost predicate SameView(s: State, t: State, e: Env) {
    && (forall a :: Mine(s, e, a) <==> Mine(t, e, a))
    && (forall a :: Mine(s, e, a) ==> s.mem[a] == t.mem[a] && (a in s.list <==> a in t.list))
    && (forall h :: h in s.hooks && h.env == e <==> h in t.hooks && h.env == e)
    && (forall x :: x in s.live && x.env == e <==> x in t.live && x.env == e)
    && (forall a :: Mine(s, e, a) ==> (s.mem[a].obj in s.wrapped <==> s.mem[a].obj in t.wrapped))
    && PcOf(s, e) == PcOf(t, e)
    && (e in s.closing <==> e in t.closing)
    && FirstOf(s, e) == FirstOf(t, e)
  }

  /** Entries only leave the registry, or enter it with the next identity. */
  ghost predicate Evolves(s: State, t: State) {
    && (forall id :: Issued(s, id) ==> Issued(t, id))
    && (s.nextId == 0 ==> t.nextId == 0)
    && (forall a :: a in t.list ==> a in t.mem)
    && (forall a :: a in t.list ==>
          || (a in s.list && a in s.mem && HookOf(t.mem[a]) == HookOf(s.mem[a]))
          || (s.nextId != 0 && t.mem[a].id == s.nextId))
  }

  /** The trace is only extended: with stops of the environment's own objects, with revocations only when it has no
      node left, and with a new identity only while there are any. */
  ghost predicate TraceGrows(s: State, t: State, e: Env) {
    && |s.trace| <= |t.trace| && t.trace[..|s.trace|] == s.trace
    && (forall i :: |s.trace| <= i < |t.trace| ==>
          && ((t.trace[i].NodeStop? || t.trace[i].SignerStop?) ==> t.trace[i].env == e)
          && (IsRevocation(t.trace[i], e) ==> e in s.closing && NoNodes(s, e))
          && (t.trace[i].Issue? ==> s.nextId != 0)
          && (t.trace[i].Opened? ==> t.trace[i].env == e))
  }

  ghost predicate NoOpening(s: State, t: State) {
    forall i :: |s.trace| <= i < |t.trace| ==> !t.trace[i].Opened?
  }

  lemma LatestStays(s: State, t: State, e: Env, f: Env, i: nat)
    requires TraceGrows(s, t, e) && (f != e || NoOpening(s, t)) && Latest(s.trace, i, f)
    ensures Latest(t.trace, i, f) && t.trace[i] == s.trace[i]
  {
    assert forall k :: 0 <= k < |s.trace| ==> t.trace[..|s.trace|][k] == t.trace[k];
  }

  lemma LatestWas(s: State, t: State, e: Env, f: Env, i: nat)
    requires TraceGrows(s, t, e) && i < |s.trace| && Latest(t.trace, i, f)
    ensures Latest(s.trace, i, f) && t.trace[i] == s.trace[i]
  {
    assert forall k :: 0 <= k < |s.trace| ==> t.trace[..|s.trace|][k] == t.trace[k];
  }

  /** Failures are remembered, those of an environment until its pointer is given to a new one. */
  lemma FailureStays(s: State, t: State, e: Env, f: Env)
    requires TraceGrows(s, t, e)
    ensures EverFailed(s.trace, f) ==> EverFailed(t.trace, f)
    ensures FailedTeardown(s.trace, f) && (f != e || NoOpening(s, t)) ==> FailedTeardown(t.trace, f)
  {
    if ev :| ev in s.trace && IsTeardownFailure(ev, f) {
      assert ev in t.trace[..|s.trace|];
    }
    if f != e || NoOpening(s, t) {
      if i: nat :| Latest(s.trace, i, f) && IsTeardownFailure(s.trace[i], f) {
        LatestStays(s, t, e, f, i);
      }
    }
  }

  lemma RevokedBefore(s: State, t: State, e: Env, f: Env)
    requires TraceGrows(s, t, e) && Revoked(t.trace, f)
    ensures Revoked(s.trace, f) || (f == e && e in s.closing && NoNodes(s, e))
  {
    var i: nat :| Latest(t.trace, i, f) && IsRevocation(t.trace[i], f);
    if i < |s.trace| { LatestWas(s, t, e, f, i); }
  }

  lemma OtherPc(s: State, t: State, e: Env, f: Env, pc: Pc)
    requires Resident(s.list, s.mem) && Resident(t.list, t.mem)
    requires e != f && SameView(s, t, f) && Evolves(s, t)
    requires FailedTeardown(s.trace, f) ==> FailedTeardown(t.trace, f)
    requires PcInv(s, f, pc)
    ensures PcInv(t, f, pc)
  {
  }

  lemma OtherEntries(s: State, t: State, e: Env, f: Env, pc: Pc)
    requires e != f && SameView(s, t, f)
    requires FailedTeardown(s.trace, f) ==> FailedTeardown(t.trace, f)
    requires EverFailed(s.trace, f) ==> EverFailed(t.trace, f)
    requires AllocatedInv(s, f, pc) && HookedInv(s, f, pc) && RetainedInv(s, f, pc) && ReachableInv(s, f)
    ensures AllocatedInv(t, f, pc) && HookedInv(t, f, pc) && RetainedInv(t, f, pc) && ReachableInv(t, f)
  {
    if f !in t.closing {
      forall x | x in t.live && x.env == f ensures Tracks(t, x) {
        assert Tracks(s, x) && Mine(s, f, x.addr);
      }
    }
  }

  lemma OtherFiring(s: State, t: State, f: Env, pc: Pc)
    requires Resident(s.list, s.mem) && Resident(t.list, t.mem)
    requires Evolves(s, t) && FiringInv(s, f, pc) && PcInv(s, f, pc)
    ensures FiringInv(t, f, pc)
  {
  }

  /** An environment's part of the invariant depends on its own view only. */
  lemma OtherEnvironment(s: State, t: State, e: Env, f: Env)
    requires Resident(s.list, s.mem) && Resident(t.list, t.mem)
    requires e != f && SameView(s, t, f) && Evolves(s, t) && TraceGrows(s, t, e)
    requires EnvInv(s, f)
    ensures EnvInv(t, f)
  {
    var pc := PcOf(s, f);
    FailureStays(s, t, e, f);
    OtherPc(s, t, e, f, pc);
    OtherEntries(s, t, e, f, pc);
    OtherFiring(s, t, f, pc);
    if Revoked(t.trace, f) { RevokedBefore(s, t, e, f); }
  }

  // ---------- A step that leaves the registry and the callbacks alone ----------

  /** Wrappers keep their identity and their callback, and nothing is freed twice. */
  ghost predicate SameEntries(s: State, t: State) {
    && t.mem.Keys == s.mem.Keys
    && (forall a :: a in s.mem ==> HookOf(t.mem[a]) == HookOf(s.mem[a]) && t.mem[a].obj == s.mem[a].obj)
    && (forall a :: a in s.mem && s.mem[a].freed ==> t.mem[a].freed)
  }

  ghost predicate Quiet(s: State, t: State, e: Env) {
    && SameEntries(s, t)
    && (forall a :: a in s.mem ==> t.mem[a].hooked == s.mem[a].hooked)
    && (forall a :: a in s.mem && s.mem[a].env != e ==> t.mem[a] == s.mem[a])
    && t.list == s.list && t.nextId == s.nextId && t.word == s.word
    && t.hooks == s.hooks && t.live == s.live && t.wrapped == s.wrapped && t.closing == s.closing
    && t.nextObj == s.nextObj && t.first == s.first
    && (forall f :: f != e ==> PcOf(t, f) == PcOf(s, f))
    && TraceGrows(s, t, e) && NoOpening(s, t)
  }

  /** What moving from `pc` to `next` has to hand over for the entries of the environment. */
  ghost predicate HandsOver(s: State, t: State, e: Env, pc: Pc, next: Pc) {
    && (forall a :: Mine(s, e, a) && Loose(pc, a) ==> Loose(next, a))
    && (forall a :: Mine(s, e, a) && a in s.list && s.mem[a].hooked
                        && (Firing(pc, a, s.mem[a]) || pc == UndoUnlinking(a)) ==>
          Firing(next, a, s.mem[a]) || next == UndoUnlinking(a))
    && (forall a :: Mine(s, e, a) && a in s.list && !s.mem[a].hooked && (Firing(pc, a, s.mem[a]) || Focus(pc, a)) ==>
          Firing(next, a, s.mem[a]) || Focus(next, a) || (e in t.closing && FailedTeardown(t.trace, e)))
  }

  lemma QuietReachable(s: State, t: State, e: Env)
    requires Quiet(s, t, e) && ReachableInv(s, e)
    ensures ReachableInv(t, e)
  {
    if e !in t.closing {
      forall x | x in t.live && x.env == e ensures Tracks(t, x) {
        assert Tracks(s, x);
      }
    }
  }

  lemma QuietHooked(s: State, t: State, e: Env, pc: Pc, next: Pc)
    requires Quiet(s, t, e) && HandsOver(s, t, e, pc, next)
    requires AllocatedInv(s, e, pc) && HookedInv(s, e, pc)
    ensures AllocatedInv(t, e, next) && HookedInv(t, e, next)
  {
  }

  lemma QuietRetained(s: State, t: State, e: Env, pc: Pc, next: Pc)
    requires Quiet(s, t, e) && HandsOver(s, t, e, pc, next)
    requires RetainedInv(s, e, pc)
    ensures RetainedInv(t, e, next)
  {
    FailureStays(s, t, e, e);
  }

  lemma QuietEntries(s: State, t: State, e: Env, pc: Pc, next: Pc)
    requires Quiet(s, t, e) && HandsOver(s, t, e, pc, next)
    requires EntriesInv(s, e, pc)
    ensures EntriesInv(t, e, next)
  {
    QuietReachable(s, t, e);
    QuietHooked(s, t, e, pc, next);
    QuietRetained(s, t, e, pc, next);
    if Revoked(t.trace, e) { RevokedBefore(s, t, e, e); }
  }

  lemma QuietRegistry(s: State, t: State, e: Env)
    requires RegistryInv(s) && HooksInv(s) && ObjectsInv(s) && Quiet(s, t, e)
    ensures RegistryInv(t) && HooksInv(t) && ObjectsInv(t) && Evolves(s, t)
  {
  }

  lemma QuietOthers(s: State, t: State, e: Env, f: Env)
    requires Quiet(s, t, e) && e != f
    ensures SameView(s, t, f)
  {
  }

  ghost predicate OwnInv(s: State, e: Env) {
    RegistryInv(s) && HooksInv(s) && ObjectsInv(s) && EnvInv(s, e)
  }

  /** What a step keeps: the registry, its own environment, and every other environment's view. */
  ghost predicate Kept(s: State, t: State, e: Env) {
    && OwnInv(t, e)
    && Evolves(s, t) && TraceGrows(s, t, e)
    && forall f :: f != e ==> SameView(s, t, f)
  }

  lemma QuietKeeps(s: State, t: State, e: Env)
    requires OwnInv(s, e)
    requires Quiet(s, t, e) && HandsOver(s, t, e, PcOf(s, e), PcOf(t, e))
    requires PcInv(t, e, PcOf(t, e)) && !PcOf(t, e).NodeTeardown? && !PcOf(t, e).SignerTeardown?
    ensures Kept(s, t, e)
  {
    QuietRegistry(s, t, e);
    QuietEntries(s, t, e, PcOf(s, e), PcOf(t, e));
    forall f | f != e ensures SameView(s, t, f) { QuietOthers(s, t, e, f); }
  }

  lemma GotoPc(s: State, e: Env, pc: Pc, next: Pc)
    requires PcInv(s, e, pc)
    ensures PcInv(Goto(s, e, next), e, pc)
  {
  }

  lemma GotoKeeps(s: State, e: Env, next: Pc)
    requires OwnInv(s, e)
    requires HandsOver(s, s, e, PcOf(s, e), next)
    requires PcInv(s, e, next) && !next.NodeTeardown? && !next.SignerTeardown?
    ensures Kept(s, Goto(s, e, next), e)
  {
    GotoPc(s, e, next, next);
    QuietKeeps(s, Goto(s, e, next), e);
  }

  lemma StoreIsQuiet(s: State, e: Env, a: Addr, w: Wrapper, events: seq<Event>, next: Pc)
    requires Mine(s, e, a) && HookOf(w) == HookOf(s.mem[a]) && w.obj == s.mem[a].obj && w.hooked == s.mem[a].hooked
    requires s.mem[a].freed ==> w.freed
    requires forall ev :: ev in events ==> IsCall(ev) && ((ev.NodeStop? || ev.SignerStop?) ==> ev.env == e)
    requires forall ev :: ev in events && IsRevocation(ev, e) ==> e in s.closing && NoNodes(s, e)
    ensures Quiet(s, Store(s, e, a, w, events, next), e)
  {
    var t := Store(s, e, a, w, events, next);
    assert forall i :: |s.trace| <= i < |t.trace| ==> t.trace[i] == events[i - |s.trace|];
  }

  lemma StoreKeeps(s: State, e: Env, a: Addr, w: Wrapper, events: seq<Event>, next: Pc)
    requires OwnInv(s, e)
    requires Mine(s, e, a) && HookOf(w) == HookOf(s.mem[a]) && w.obj == s.mem[a].obj && w.hooked == s.mem[a].hooked
    requires s.mem[a].freed ==> w.freed
    requires forall ev :: ev in events ==> IsCall(ev) && ((ev.NodeStop? || ev.SignerStop?) ==> ev.env == e)
    requires forall ev :: ev in events && IsRevocation(ev, e) ==> e in s.closing && NoNodes(s, e)
    requires var t := Store(s, e, a, w, events, next);
      && HandsOver(s, t, e, PcOf(s, e), next)
      && PcInv(t, e, next) && !next.NodeTeardown? && !next.SignerTeardown?
    ensures Kept(s, Store(s, e, a, w, events, next), e)
  {
    StoreIsQuiet(s, e, a, w, events, next);
    QuietKeeps(s, Store(s, e, a, w, events, next), e);
  }

  // ---------- A step that clears a callback ----------

  ghost function ClearHook(s: State, a: Addr): State
    requires a in s.mem
  {
    s.(mem := s.mem[a := s.mem[a].(hooked := false)], hooks := s.hooks - {HookOf(s.mem[a])})
  }

  lemma ClearHookRegistry(s: State, e: Env, a: Addr)
    requires RegistryInv(s) && HooksInv(s) && ObjectsInv(s) && Mine(s, e, a) && a in s.list
    ensures var t := ClearHook(s, a);
      RegistryInv(t) && HooksInv(t) && ObjectsInv(t) && Evolves(s, t) && TraceGrows(s, t, e)
  {
    var t := ClearHook(s, a);
    forall h, b | h in t.hooks && b in t.list && t.mem[b].id == h.id
      ensures HookOf(t.mem[b]) == h && t.mem[b].hooked
    {
      assert HookOf(s.mem[b]) == h && s.mem[b].hooked;
    }
  }

  lemma ClearHookEntries(s: State, e: Env, a: Addr, pc: Pc)
    requires Resident(s.list, s.mem) && Descending(s.list, s.mem)
    requires Mine(s, e, a) && a in s.list && (Focus(pc, a) || Firing(pc, a, s.mem[a]))
    requires EntriesInv(s, e, pc)
    ensures EntriesInv(ClearHook(s, a), e, pc)
  {
    var t := ClearHook(s, a);
    forall b | Mine(t, e, b) && b in t.list && t.mem[b].hooked
      ensures HookOf(t.mem[b]) in t.hooks || Firing(pc, b, t.mem[b]) || pc == UndoUnlinking(b)
    {
      if s.mem[b].id == s.mem[a].id { SameIdentity(s.list, s.mem, a, b); }
    }
    if e !in t.closing {
      forall x | x in t.live && x.env == e ensures Tracks(t, x) { assert Tracks(s, x); }
    }
  }

  lemma ClearHookOthers(s: State, e: Env, a: Addr, f: Env)
    requires Mine(s, e, a) && e != f
    ensures SameView(s, ClearHook(s, a), f)
  {
  }

  lemma ClearHookKeeps(s: State, e: Env, a: Addr)
    requires OwnInv(s, e) && Mine(s, e, a) && a in s.list
    requires Focus(PcOf(s, e), a) || Firing(PcOf(s, e), a, s.mem[a])
    requires PcInv(ClearHook(s, a), e, PcOf(s, e)) && FiringInv(ClearHook(s, a), e, PcOf(s, e))
    ensures Kept(s, ClearHook(s, a), e)
  {
    ClearHookRegistry(s, e, a);
    ClearHookEntries(s, e, a, PcOf(s, e));
    forall f | f != e ensures SameView(s, ClearHook(s, a), f) { ClearHookOthers(s, e, a, f); }
  }

  lemma KeptTwice(s: State, m: State, t: State, e: Env)
    requires Kept(s, m, e) && Kept(m, t, e) && m.nextId == s.nextId && m.closing == s.closing
    requires NoNodes(m, e) ==> NoNodes(s, e)
    ensures Kept(s, t, e)
  {
    GrowsTwice(s, m, t, e);
    EvolvesTwice(s, m, t);
    forall f | f != e ensures SameView(s, t, f) {
      ViewTwice(s, m, t, f);
    }
  }

  lemma EvolvesTwice(s: State, m: State, t: State)
    requires Evolves(s, m) && Evolves(m, t) && m.nextId == s.nextId
    ensures Evolves(s, t)
  {
  }

  lemma GrowsTwice(s: State, m: State, t: State, e: Env)
    requires TraceGrows(s, m, e) && TraceGrows(m, t, e) && m.nextId == s.nextId && m.closing == s.closing
    requires NoNodes(m, e) ==> NoNodes(s, e)
    ensures TraceGrows(s, t, e)
  {
    assert forall i :: 0 <= i < |s.trace| ==>
      t.trace[..|m.trace|][i] == m.trace[i] && m.trace[..|s.trace|][i] == s.trace[i];
    assert forall i :: |s.trace| <= i < |m.trace| ==> t.trace[..|m.trace|][i] == m.trace[i];
  }

  lemma ViewTwice(s: State, m: State, t: State, f: Env)
    requires SameView(s, m, f) && SameView(m, t, f)
    ensures SameView(s, t, f)
  {
  }

  // ---------- A step that unlinks an entry, and one that frees a wrapper ----------

  ghost function Unlinked(s: State, e: Env, a: Addr, next: Pc): State {
    Goto(s.(list := Remove(s.list, a)), e, next)
  }

  lemma UnlinkRegistry(s: State, e: Env, a: Addr, next: Pc)
    requires RegistryInv(s) && HooksInv(s) && ObjectsInv(s)
    ensures var t := Unlinked(s, e, a, next);
      RegistryInv(t) && HooksInv(t) && ObjectsInv(t) && Evolves(s, t) && TraceGrows(s, t, e)
  {
    RemoveExactly(s.list, s.mem, a);
  }

  lemma UnlinkEntries(s: State, e: Env, a: Addr, pc: Pc, next: Pc)
    requires RegistryInv(s) && EntriesInv(s, e, pc)
    requires Mine(s, e, a) && a in s.list && Loose(next, a)
    requires e !in s.closing ==> NoLive(s, e, a)
    requires forall b :: Mine(s, e, b) ==> !Loose(pc, b)
    requires forall b :: Mine(s, e, b) && b != a ==> !Firing(pc, b, s.mem[b]) && (Focus(pc, b) ==> Focus(next, b))
    requires forall b :: b != a ==> pc != UndoUnlinking(b)
    ensures EntriesInv(Unlinked(s, e, a, next), e, next)
  {
    RemoveExactly(s.list, s.mem, a);
    var t := Unlinked(s, e, a, next);
    if e !in t.closing {
      forall x | x in t.live && x.env == e ensures Tracks(t, x) { assert Tracks(s, x); }
    }
  }

  lemma UnlinkOthers(s: State, e: Env, a: Addr, next: Pc, f: Env)
    requires RegistryInv(s) && Mine(s, e, a) && e != f
    ensures SameView(s, Unlinked(s, e, a, next), f)
  {
    RemoveExactly(s.list, s.mem, a);
  }

  lemma UnlinkKeeps(s: State, e: Env, a: Addr, next: Pc)
    requires OwnInv(s, e) && Mine(s, e, a) && a in s.list && Loose(next, a)
    requires e !in s.closing ==> NoLive(s, e, a)
    requires forall b :: Mine(s, e, b) ==> !Loose(PcOf(s, e), b)
    requires forall b ::
      Mine(s, e, b) && b != a ==> !Firing(PcOf(s, e), b, s.mem[b]) && (Focus(PcOf(s, e), b) ==> Focus(next, b))
    requires forall b :: b != a ==> PcOf(s, e) != UndoUnlinking(b)
    requires PcInv(Unlinked(s, e, a, next), e, next)
    ensures Kept(s, Unlinked(s, e, a, next), e)
  {
    UnlinkRegistry(s, e, a, next);
    UnlinkEntries(s, e, a, PcOf(s, e), next);
    forall f | f != e ensures SameView(s, Unlinked(s, e, a, next), f) { UnlinkOthers(s, e, a, next, f); }
  }

  ghost function Released(s: State, e: Env, a: Addr, next: Pc): State {
    Goto(s.(mem := s.mem - {a}), e, next)
  }

  lemma ReleaseRegistry(s: State, e: Env, a: Addr, next: Pc)
    requires RegistryInv(s) && HooksInv(s) && ObjectsInv(s) && a !in s.list
    ensures var t := Released(s, e, a, next);
      RegistryInv(t) && HooksInv(t) && ObjectsInv(t) && Evolves(s, t) && TraceGrows(s, t, e)
  {
  }

  lemma ReleaseEntries(s: State, e: Env, a: Addr, pc: Pc, next: Pc)
    requires EntriesInv(s, e, pc) && Mine(s, e, a) && a !in s.list
    requires forall b :: Mine(s, e, b) && Loose(pc, b) ==> b == a
    requires forall b :: Mine(s, e, b) ==> !Firing(pc, b, s.mem[b]) && (Focus(pc, b) ==> Focus(next, b))
    requires forall b :: pc != UndoUnlinking(b)
    ensures EntriesInv(Released(s, e, a, next), e, next)
  {
    var t := Released(s, e, a, next);
    if e !in t.closing {
      forall x | x in t.live && x.env == e ensures Tracks(t, x) { assert Tracks(s, x); }
    }
  }

  lemma ReleaseOthers(s: State, e: Env, a: Addr, next: Pc, f: Env)
    requires Mine(s, e, a) && e != f
    ensures SameView(s, Released(s, e, a, next), f)
  {
  }

  lemma ReleaseKeeps(s: State, e: Env, a: Addr, next: Pc)
    requires OwnInv(s, e) && Mine(s, e, a) && a !in s.list
    requires forall b :: Mine(s, e, b) && Loose(PcOf(s, e), b) ==> b == a
    requires forall b :: Mine(s, e, b) ==> !Firing(PcOf(s, e), b, s.mem[b]) && (Focus(PcOf(s, e), b) ==> Focus(next, b))
    requires forall b :: PcOf(s, e) != UndoUnlinking(b)
    requires PcInv(Released(s, e, a, next), e, next) && !next.NodeTeardown? && !next.SignerTeardown?
    ensures Kept(s, Released(s, e, a, next), e)
  {
    ReleaseRegistry(s, e, a, next);
    ReleaseEntries(s, e, a, PcOf(s, e), next);
    forall f | f != e ensures SameView(s, Released(s, e, a, next), f) { ReleaseOthers(s, e, a, next, f); }
  }

  // ---------- The entry points and the drain ----------

  lemma KeepsLookup(s: State, e: Env, op: Op, x: External)
    requires OwnInv(s, e) && PcOf(s, e) == JsLookup(op, x)
    ensures Kept(s, Goto(s, e, if Owns(s.list, s.mem, e, x.addr, OpKind(op)) then JsActing(op, x.addr) else Idle), e)
  {
    GotoKeeps(s, e, if Owns(s.list, s.mem, e, x.addr, OpKind(op)) then JsActing(op, x.addr) else Idle);
  }

  lemma KeepsActing(s: State, e: Env, op: Op, a: Addr, ok: bool)
    requires OwnInv(s, e) && PcOf(s, e) == JsActing(op, a)
    ensures a in s.mem && Kept(s, Store(s, e, a, Acted(op, s.mem[a], ok), ActEvents(op, s.mem[a], ok), Idle), e)
  {
    StoreKeeps(s, e, a, Acted(op, s.mem[a], ok), ActEvents(op, s.mem[a], ok), Idle);
  }

  lemma KeepsCall(s: State, e: Env, ok: bool)
    requires OwnInv(s, e)
    requires PcOf(s, e).JsLookup? || PcOf(s, e).JsActing?
    ensures var o := AdvanceCall(s, e, PcOf(s, e), ok); o.Next? && Kept(s, o.s, e)
  {
    match PcOf(s, e)
    case JsLookup(op, x) => KeepsLookup(s, e, op, x);
    case JsActing(op, a) => KeepsActing(s, e, op, a, ok);
  }

  lemma ScanningPc(s: State, e: Env, signer: Addr, cursor: nat, stopped: bool)
    requires Resident(s.list, s.mem)
    requires PcInv(s, e, Scanning(signer, cursor, stopped)) && AllocatedInv(s, e, Scanning(signer, cursor, stopped))
    ensures PcInv(s, e, Scanned(signer, NextNode(s.list, s.mem, e, cursor), stopped))
  {
    var id := NextNode(s.list, s.mem, e, cursor);
    if id != 0 {
      var a :| a in s.list && IsNode(s.mem[a], e) && s.mem[a].id == id;
      assert Listed(s, e, a, Node);
    }
  }

  lemma ScanningHands(s: State, e: Env, signer: Addr, cursor: nat, id: nat, stopped: bool)
    requires PcInv(s, e, Scanning(signer, cursor, stopped))
    ensures HandsOver(s, s, e, Scanning(signer, cursor, stopped), Scanned(signer, id, stopped))
  {
  }

  lemma KeepsScanning(s: State, e: Env, signer: Addr, cursor: nat, stopped: bool, ok: bool)
    requires OwnInv(s, e)
    requires PcOf(s, e) == Scanning(signer, cursor, stopped)
    ensures var o := AdvanceDrain(s, e, PcOf(s, e), ok); o.Next? && Kept(s, o.s, e)
  {
    ScanningPc(s, e, signer, cursor, stopped);
    ScanningHands(s, e, signer, cursor, NextNode(s.list, s.mem, e, cursor), stopped);
    GotoKeeps(s, e, Scanned(signer, NextNode(s.list, s.mem, e, cursor), stopped));
  }

  lemma FoundIs(s: State, id: nat, kind: Kind, a: Addr)
    requires RegistryInv(s) && a in s.list && s.mem[a].id == id && s.mem[a].kind == kind
    ensures FindTeardown(s.list, s.mem, id, kind) == Some(a)
  {
    var found := FindTeardown(s.list, s.mem, id, kind);
    SameIdentity(s.list, s.mem, found.value, a);
  }

  lemma DrainFound(s: State, e: Env, signer: Addr, id: nat, stopped: bool, a: Addr)
    requires OwnInv(s, e) && PcOf(s, e) == DrainFinding(signer, id, stopped) && Listed(s, e, a, Node)
    requires s.mem[a].id == id
    ensures Kept(s, Goto(s, e, DrainStopping(signer, id, a, stopped)), e)
  {
    GotoKeeps(s, e, DrainStopping(signer, id, a, stopped));
  }

  lemma KeepsDrainFinding(s: State, e: Env, signer: Addr, id: nat, stopped: bool, ok: bool)
    requires OwnInv(s, e)
    requires PcOf(s, e) == DrainFinding(signer, id, stopped)
    ensures var o := AdvanceDrain(s, e, PcOf(s, e), ok); o.Next? && Kept(s, o.s, e)
  {
    var a :| Listed(s, e, a, Node) && s.mem[a].id == id;
    FoundIs(s, id, Node, a);
    DrainFound(s, e, signer, id, stopped, a);
  }

  /** A failed native stop, recorded in the trace. */
  lemma FailureRecorded(s: State, e: Env, a: Addr, w: Wrapper, ev: Event, next: Pc)
    requires IsTeardownFailure(ev, e)
    ensures FailedTeardown(Store(s, e, a, w, [ev], next).trace, e)
  {
    var t := Store(s, e, a, w, [ev], next);
    assert Latest(t.trace, |s.trace|, e) && t.trace[|s.trace|] == ev;
  }

  lemma KeepsDrainFailure(s: State, e: Env, signer: Addr, id: nat, node: Addr, stopped: bool)
    requires OwnInv(s, e)
    requires PcOf(s, e) == DrainStopping(signer, id, node, stopped)
    requires !StoppedAndFreed(s.mem[node], false).freed
    ensures var o := AdvanceDrain(s, e, PcOf(s, e), false); o.Next? && Kept(s, o.s, e)
  {
    var w := s.mem[node];
    FailureRecorded(s, e, node, w, NodeStop(e, w.obj, false, true), Scanning(signer, id, false));
    StoreKeeps(s, e, node, w, [NodeStop(e, w.obj, false, true)], Scanning(signer, id, false));
  }

  lemma FailureAppended(trace: seq<Event>, events: seq<Event>, e: Env)
    requires FailedTeardown(trace, e) && forall ev :: ev in events ==> IsCall(ev)
    ensures FailedTeardown(trace + events, e)
  {
    var i: nat :| Latest(trace, i, e) && IsTeardownFailure(trace[i], e);
    var t := trace + events;
    assert forall k :: |trace| <= k < |t| ==> t[k] in events;
    assert forall k :: 0 <= k < |trace| ==> t[k] == trace[k];
    assert Latest(t, i, e);
  }

  lemma RevokedAppended(trace: seq<Event>, events: seq<Event>, e: Env)
    requires Revoked(trace + events, e) && forall ev :: ev in events ==> !IsRevocation(ev, e)
    ensures Revoked(trace, e)
  {
    var t := trace + events;
    var i: nat :| Latest(t, i, e) && IsRevocation(t[i], e);
    assert forall k :: |trace| <= k < |t| ==> t[k] in events;
    assert forall k :: 0 <= k < |trace| ==> t[k] == trace[k];
    assert Latest(trace, i, e);
  }

  lemma DrainSuccessPc(s: State, e: Env, signer: Addr, id: nat, node: Addr, stopped: bool, w: Wrapper,
                       events: seq<Event>)
    requires PcInv(s, e, DrainStopping(signer, id, node, stopped))
    requires HookOf(w) == HookOf(s.mem[node]) && w.freed && (forall ev :: ev in events ==> IsCall(ev))
    ensures PcInv(Store(s, e, node, w, events, DrainUnlinking(signer, id, node, stopped)), e,
                  DrainUnlinking(signer, id, node, stopped))
  {
    var t := Store(s, e, node, w, events, DrainUnlinking(signer, id, node, stopped));
    if !stopped {
      FailureAppended(s.trace, events, e);
    }
  }

  lemma DrainSuccessHands(s: State, t: State, e: Env, signer: Addr, id: nat, node: Addr, stopped: bool)
    ensures HandsOver(s, t, e, DrainStopping(signer, id, node, stopped), DrainUnlinking(signer, id, node, stopped))
  {
  }

  lemma StopEventsOwn(w: Wrapper, ok: bool, teardown: bool)
    ensures forall ev ::
      ev in StopEvents(w, ok, teardown) ==> IsCall(ev) && !ev.SignerStop? && (ev.NodeStop? ==> ev.env == w.env)
  {
  }

  lemma KeepsDrainStored(s: State, e: Env, signer: Addr, id: nat, node: Addr, stopped: bool, ok: bool)
    requires OwnInv(s, e)
    requires PcOf(s, e) == DrainStopping(signer, id, node, stopped)
    requires StoppedAndFreed(s.mem[node], ok).freed
    ensures Kept(s, Store(s, e, node, StoppedAndFreed(s.mem[node], ok), StopEvents(s.mem[node], ok, true),
                          DrainUnlinking(signer, id, node, stopped)), e)
  {
    StopEventsOwn(s.mem[node], ok, true);
    DrainStored(s, e, signer, id, node, stopped, StoppedAndFreed(s.mem[node], ok), StopEvents(s.mem[node], ok, true));
  }

  lemma DrainStored(s: State, e: Env, signer: Addr, id: nat, node: Addr, stopped: bool, w: Wrapper, events: seq<Event>)
    requires OwnInv(s, e) && PcOf(s, e) == DrainStopping(signer, id, node, stopped)
    requires HookOf(w) == HookOf(s.mem[node]) && w.obj == s.mem[node].obj && w.hooked == s.mem[node].hooked && w.freed
    requires forall ev :: ev in events ==> IsCall(ev) && !ev.SignerStop? && (ev.NodeStop? ==> ev.env == e)
    ensures Kept(s, Store(s, e, node, w, events, DrainUnlinking(signer, id, node, stopped)), e)
  {
    DrainSuccessPc(s, e, signer, id, node, stopped, w, events);
    DrainSuccessHands(s, Store(s, e, node, w, events, DrainUnlinking(signer, id, node, stopped)), e, signer, id, node,
                      stopped);
    StoreKeeps(s, e, node, w, events, DrainUnlinking(signer, id, node, stopped));
  }

  lemma KeepsDrainSuccess(s: State, e: Env, signer: Addr, id: nat, node: Addr, stopped: bool, ok: bool)
    requires OwnInv(s, e)
    requires PcOf(s, e) == DrainStopping(signer, id, node, stopped)
    requires StoppedAndFreed(s.mem[node], ok).freed
    ensures var o := AdvanceDrain(s, e, PcOf(s, e), ok); o.Next? && Kept(s, o.s, e)
  {
    KeepsDrainStored(s, e, signer, id, node, stopped, ok);
  }

  lemma KeepsDrainStopping(s: State, e: Env, signer: Addr, id: nat, node: Addr, stopped: bool, ok: bool)
    requires OwnInv(s, e)
    requires PcOf(s, e) == DrainStopping(signer, id, node, stopped)
    ensures var o := AdvanceDrain(s, e, PcOf(s, e), ok); o.Next? && Kept(s, o.s, e)
  {
    if StoppedAndFreed(s.mem[node], ok).freed {
      KeepsDrainSuccess(s, e, signer, id, node, stopped, ok);
    } else {
      KeepsDrainFailure(s, e, signer, id, node, stopped);
    }
  }

  lemma DrainUnlinkingPc(s: State, e: Env, signer: Addr, id: nat, node: Addr, stopped: bool)
    requires RegistryInv(s) && AllocatedInv(s, e, DrainUnlinking(signer, id, node, stopped))
    requires PcInv(s, e, DrainUnlinking(signer, id, node, stopped))
    ensures PcInv(Unlinked(s, e, node, DrainFreeing(signer, id, node, stopped)), e,
                  DrainFreeing(signer, id, node, stopped))
  {
    RemoveExactly(s.list, s.mem, node);
    forall a | Mine(s, e, a) && s.mem[a].kind == Node && a != node ensures s.mem[a].id != id {
      if s.mem[a].id == id { SameIdentity(s.list, s.mem, a, node); }
    }
  }

  lemma KeepsDrainUnlinking(s: State, e: Env, signer: Addr, id: nat, node: Addr, stopped: bool, ok: bool)
    requires OwnInv(s, e)
    requires PcOf(s, e) == DrainUnlinking(signer, id, node, stopped)
    ensures var o := AdvanceDrain(s, e, PcOf(s, e), ok); o.Next? && Kept(s, o.s, e)
  {
    DrainUnlinkingPc(s, e, signer, id, node, stopped);
    UnlinkKeeps(s, e, node, DrainFreeing(signer, id, node, stopped));
  }

  lemma KeepsDrainFreeing(s: State, e: Env, signer: Addr, id: nat, node: Addr, stopped: bool, ok: bool)
    requires OwnInv(s, e)
    requires PcOf(s, e) == DrainFreeing(signer, id, node, stopped)
    ensures var o := AdvanceDrain(s, e, PcOf(s, e), ok); o.Next? && Kept(s, o.s, e)
  {
    ReleaseKeeps(s, e, node, Scanning(signer, id, stopped));
  }

  // ---------- The teardown callbacks ----------

  lemma KeepsNodeTeardown(s: State, e: Env, id: nat, ok: bool)
    requires OwnInv(s, e) && PcOf(s, e) == NodeTeardown(id)
    ensures var o := AdvanceTeardown(s, e, PcOf(s, e), ok); o.Next? && Kept(s, o.s, e)
  {
    var found := FindTeardown(s.list, s.mem, id, Node);
    if found.Some? {
      forall b | Mine(s, e, b) && b in s.list && s.mem[b].id == id ensures b == found.value {
        SameIdentity(s.list, s.mem, b, found.value);
      }
      GotoKeeps(s, e, NodeTeardownStopping(found.value));
    } else {
      GotoKeeps(s, e, Idle);
    }
  }

  lemma UnhookedTeardown(m: State, e: Env, a: Addr, ok: bool)
    requires OwnInv(m, e) && PcOf(m, e) == NodeTeardownStopping(a) && !m.mem[a].hooked
    ensures var w' := StoppedAndFreed(m.mem[a], ok);
      Kept(m, Store(m, e, a, w', StopEvents(m.mem[a], ok, true), if w'.freed then Unlinking(a) else Idle), e)
  {
    var w := m.mem[a];
    var w' := StoppedAndFreed(w, ok);
    if w'.freed {
      StoreKeeps(m, e, a, w', StopEvents(w, ok, true), Unlinking(a));
    } else {
      FailureRecorded(m, e, a, w', NodeStop(e, w.obj, false, true), Idle);
      StoreKeeps(m, e, a, w', StopEvents(w, ok, true), Idle);
    }
  }

  lemma StoreAfterClear(s: State, e: Env, a: Addr, w: Wrapper, events: seq<Event>, next: Pc)
    requires a in s.mem && HookOf(s.mem[a]) !in s.hooks
    ensures Store(ClearHook(s, a), e, a, w, events, next) == Store(s, e, a, w, events, next)
  {
    assert ClearHook(s, a).mem[a := w] == s.mem[a := w];
    assert ClearHook(s, a).hooks == s.hooks;
  }

  lemma KeepsNodeTeardownStopping(s: State, e: Env, a: Addr, ok: bool)
    requires OwnInv(s, e) && PcOf(s, e) == NodeTeardownStopping(a)
    ensures var o := AdvanceTeardown(s, e, PcOf(s, e), ok); o.Next? && Kept(s, o.s, e)
  {
    var m := ClearHook(s, a);
    ClearHookKeeps(s, e, a);
    UnhookedTeardown(m, e, a, ok);
    var w' := StoppedAndFreed(m.mem[a], ok);
    var next := if w'.freed then Unlinking(a) else Idle;
    StoreAfterClear(s, e, a, w', StopEvents(m.mem[a], ok, true), next);
    KeptTwice(s, m, Store(m, e, a, w', StopEvents(m.mem[a], ok, true), next), e);
  }

  lemma UnhookedSigner(m: State, e: Env, id: nat, a: Addr)
    requires OwnInv(m, e) && PcOf(m, e) == SignerTeardown(id)
    requires a in m.list && m.mem[a].id == id && !m.mem[a].hooked
    ensures Kept(m, Store(m, e, a, m.mem[a], [], Scanning(a, 0, true)), e)
  {
    forall b | Mine(m, e, b) && b in m.list && m.mem[b].id == id ensures b == a {
      SameIdentity(m.list, m.mem, b, a);
    }
    StoreKeeps(m, e, a, m.mem[a], [], Scanning(a, 0, true));
  }

  lemma SignerNotFound(s: State, e: Env, id: nat)
    requires OwnInv(s, e) && PcOf(s, e) == SignerTeardown(id)
    requires FindTeardown(s.list, s.mem, id, Signer).None?
    ensures Kept(s, Goto(s, e, Idle), e)
  {
    GotoKeeps(s, e, Idle);
  }

  lemma SignerUnhooked(s: State, e: Env, id: nat, a: Addr)
    requires OwnInv(s, e) && PcOf(s, e) == SignerTeardown(id)
    requires a in s.list && s.mem[a].id == id
    ensures Kept(s, ClearHook(s, a), e) && HookOf(s.mem[a]) !in s.hooks
  {
    ClearHookKeeps(s, e, a);
  }

  lemma SignerFound(s: State, e: Env, id: nat, a: Addr)
    requires OwnInv(s, e) && PcOf(s, e) == SignerTeardown(id)
    requires a in s.list && s.mem[a].id == id
    ensures Kept(s, Store(s, e, a, s.mem[a].(hooked := false), [], Scanning(a, 0, true)), e)
  {
    var m := ClearHook(s, a);
    SignerUnhooked(s, e, id, a);
    UnhookedSigner(m, e, id, a);
    StoreAfterClear(s, e, a, m.mem[a], [], Scanning(a, 0, true));
    KeptTwice(s, m, Store(m, e, a, m.mem[a], [], Scanning(a, 0, true)), e);
  }

  lemma KeepsSignerTeardown(s: State, e: Env, id: nat, ok: bool)
    requires OwnInv(s, e) && PcOf(s, e) == SignerTeardown(id)
    ensures var o := AdvanceTeardown(s, e, PcOf(s, e), ok); o.Next? && Kept(s, o.s, e)
  {
    var found := FindTeardown(s.list, s.mem, id, Signer);
    if found.None? { SignerNotFound(s, e, id); } else { SignerFound(s, e, id, found.value); }
  }

  lemma KeepsSignerStopping(s: State, e: Env, a: Addr, ok: bool)
    requires OwnInv(s, e) && PcOf(s, e) == SignerStopping(a)
    ensures var o := AdvanceTeardown(s, e, PcOf(s, e), ok); o.Next? && Kept(s, o.s, e)
  {
    var w := s.mem[a];
    if w.freed || ok {
      StoreKeeps(s, e, a, w.(freed := true), SignerTeardownEvents(w, ok), Unlinking(a));
    } else {
      FailureRecorded(s, e, a, w, SignerStop(e, w.obj, false, true), Idle);
      StoreKeeps(s, e, a, w, SignerTeardownEvents(w, ok), Idle);
    }
  }

  lemma KeepsUnlinking(s: State, e: Env, a: Addr)
    requires OwnInv(s, e)
    requires PcOf(s, e) == Unlinking(a) || PcOf(s, e) == UndoUnlinking(a)
    ensures Kept(s, Unlinked(s, e, a, if PcOf(s, e).Unlinking? then Freeing(a) else UndoStopping(a)), e)
  {
    RemoveExactly(s.list, s.mem, a);
    UnlinkKeeps(s, e, a, if PcOf(s, e).Unlinking? then Freeing(a) else UndoStopping(a));
  }

  lemma KeepsFreeing(s: State, e: Env, a: Addr)
    requires OwnInv(s, e) && PcOf(s, e) == Freeing(a)
    ensures Kept(s, Released(s, e, a, Idle), e)
  {
    ReleaseKeeps(s, e, a, Idle);
  }

  // ---------- The finalizers ----------

  lemma KeepsFinalizing(s: State, e: Env, x: External, ok: bool)
    requires OwnInv(s, e) && PcOf(s, e) == Finalizing(x)
    ensures var o := AdvanceFinalizer(s, e, PcOf(s, e), ok); o.Next? && Kept(s, o.s, e)
  {
    KeepsFound(s, e, x);
  }

  /** Where a finalizer goes on after its lookup. */
  ghost function FoundPc(s: State, e: Env, x: External): Pc
    requires Resident(s.list, s.mem)
  {
    var found := FindFinalizer(s.list, s.mem, e, x.addr, x.id, x.kind);
    if found.None? then Idle else if x.kind == Node then FinalizingNode(found.value) else FinalizingSigner(found.value)
  }

  lemma FoundIsUnreachable(s: State, e: Env, x: External)
    requires Resident(s.list, s.mem) && ReachableInv(s, e) && PcInv(s, e, Finalizing(x))
    ensures PcInv(s, e, FoundPc(s, e, x))
  {
    if e !in s.closing {
      forall y | y in s.live && y.env == e && y.addr == x.addr ensures Tracks(s, y) {}
    }
  }

  lemma KeepsFound(s: State, e: Env, x: External)
    requires OwnInv(s, e) && PcOf(s, e) == Finalizing(x)
    ensures Kept(s, Goto(s, e, FoundPc(s, e, x)), e)
  {
    FoundIsUnreachable(s, e, x);
    GotoKeeps(s, e, FoundPc(s, e, x));
  }

  ghost predicate Finalized(s: State, e: Env, a: Addr, w: Wrapper, events: seq<Event>) {
    && Mine(s, e, a) && a in s.list
    && (PcOf(s, e) == FinalizingNode(a) || PcOf(s, e) == FinalizingSigner(a))
    && HookOf(w) == HookOf(s.mem[a]) && w.obj == s.mem[a].obj && w.hooked == s.mem[a].hooked && w.freed
    && (forall ev :: ev in events ==> IsCall(ev) && (ev.NodeStop? ==> ev.env == e) && !ev.SignerStop?)
  }

  lemma FinalizedStore(s: State, e: Env, a: Addr, w: Wrapper, events: seq<Event>)
    requires OwnInv(s, e) && Finalized(s, e, a, w, events)
    ensures Kept(s, Store(s, e, a, w, events, Unlinking(a)), e)
  {
    StoreKeeps(s, e, a, w, events, Unlinking(a));
  }

  lemma UnlinkingUnhooked(m: State, e: Env, a: Addr)
    requires OwnInv(m, e) && PcOf(m, e) == Unlinking(a)
    ensures Kept(m, ClearHook(m, a), e)
  {
    ClearHookKeeps(m, e, a);
  }

  lemma ClearAfterStore(s: State, e: Env, a: Addr, w: Wrapper, events: seq<Event>, next: Pc)
    requires HookOf(w) in s.hooks
    ensures ClearHook(Store(s, e, a, w, events, next), a)
         == Store(Unhook(s, HookOf(w)).s, e, a, w.(hooked := false), events, next)
  {
    assert s.mem[a := w][a := w.(hooked := false)] == s.mem[a := w.(hooked := false)];
  }

  lemma UnhookAfterStore(s: State, e: Env, a: Addr, w: Wrapper, events: seq<Event>)
    requires OwnInv(s, e) && Finalized(s, e, a, w, events) && w.hooked
    ensures Unhook(s, HookOf(w)).Next?
    ensures Kept(s, Store(Unhook(s, HookOf(w)).s, e, a, w.(hooked := false), events, Unlinking(a)), e)
  {
    var m := Store(s, e, a, w, events, Unlinking(a));
    FinalizedStore(s, e, a, w, events);
    UnlinkingUnhooked(m, e, a);
    KeptTwice(s, m, ClearHook(m, a), e);
    ClearAfterStore(s, e, a, w, events, Unlinking(a));
  }

  lemma KeepsFailingFinalizer(s: State, e: Env, a: Addr, ok: bool)
    requires OwnInv(s, e) && PcOf(s, e) == FinalizingNode(a) && !StoppedAndFreed(s.mem[a], ok).freed
    ensures var o := AdvanceFinalizer(s, e, PcOf(s, e), ok); o.Next? && Kept(s, o.s, e)
  {
    StoreKeeps(s, e, a, StoppedAndFreed(s.mem[a], ok), StopEvents(s.mem[a], ok, false), Idle);
  }

  lemma KeepsFinalizedNode(s: State, e: Env, a: Addr, ok: bool)
    requires OwnInv(s, e) && PcOf(s, e) == FinalizingNode(a) && StoppedAndFreed(s.mem[a], ok).freed
    ensures var o := AdvanceFinalizer(s, e, PcOf(s, e), ok); o.Next? && Kept(s, o.s, e)
  {
    var w' := StoppedAndFreed(s.mem[a], ok);
    if s.mem[a].hooked {
      UnhookAfterStore(s, e, a, w', StopEvents(s.mem[a], ok, false));
    } else {
      FinalizedStore(s, e, a, w', StopEvents(s.mem[a], ok, false));
    }
  }

  lemma KeepsFinalizingNode(s: State, e: Env, a: Addr, ok: bool)
    requires OwnInv(s, e) && PcOf(s, e) == FinalizingNode(a)
    ensures var o := AdvanceFinalizer(s, e, PcOf(s, e), ok); o.Next? && Kept(s, o.s, e)
  {
    if StoppedAndFreed(s.mem[a], ok).freed { KeepsFinalizedNode(s, e, a, ok); } else {
      KeepsFailingFinalizer(s, e, a, ok);
    }
  }

  lemma KeepsFinalizingSigner(s: State, e: Env, a: Addr, ok: bool)
    requires OwnInv(s, e) && PcOf(s, e) == FinalizingSigner(a)
    ensures var o := AdvanceFinalizer(s, e, PcOf(s, e), ok); o.Next? && Kept(s, o.s, e)
  {
    var w := s.mem[a];
    if w.hooked {
      UnhookAfterStore(s, e, a, w.(freed := true), ActEvents(SignerDestroy, w, ok));
    } else {
      FinalizedStore(s, e, a, w.(freed := true), ActEvents(SignerDestroy, w, ok));
    }
  }

  // ---------- Wrapping ----------

  ghost function RegisteredState(s: State, e: Env, a: Addr): State
    requires a in s.mem && s.word > 0
  {
    Store(s.(list := [a] + s.list, nextId := Successor(s.nextId, s.word)),
          e, a, s.mem[a].(id := s.nextId), [Issue(s.nextId)], Hooking(a))
  }

  lemma RegisterDescends(s: State, e: Env, a: Addr)
    requires RegistryInv(s) && Mine(s, e, a) && a !in s.list && s.nextId != 0
    ensures RegistryInv(RegisteredState(s, e, a))
  {
    var t := RegisteredState(s, e, a);
    assert Successor(s.nextId, s.word) == if s.nextId + 1 == s.word then 0 else s.nextId + 1;
    assert forall i :: 0 < i < |t.list| ==> t.list[i] == s.list[i - 1];
  }

  lemma RegisterHooks(s: State, e: Env, a: Addr)
    requires RegistryInv(s) && HooksInv(s) && Mine(s, e, a) && a !in s.list && s.nextId != 0
    ensures Resident(RegisteredState(s, e, a).list, RegisteredState(s, e, a).mem) && HooksInv(RegisteredState(s, e, a))
  {
    var t := RegisteredState(s, e, a);
    assert Successor(s.nextId, s.word) == if s.nextId + 1 == s.word then 0 else s.nextId + 1;
    assert forall b :: b in t.list <==> b == a || b in s.list;
  }

  lemma RegisterObjects(s: State, e: Env, a: Addr)
    requires ObjectsInv(s) && a in s.mem && s.word > 0
    ensures ObjectsInv(RegisteredState(s, e, a))
  {
  }

  lemma RegisterEvolves(s: State, e: Env, a: Addr)
    requires RegistryInv(s) && Mine(s, e, a) && a !in s.list && s.nextId != 0
    ensures Evolves(s, RegisteredState(s, e, a)) && TraceGrows(s, RegisteredState(s, e, a), e)
  {
    var t := RegisteredState(s, e, a);
    assert Successor(s.nextId, s.word) == if s.nextId + 1 == s.word then 0 else s.nextId + 1;
    assert forall id :: Issued(s, id) ==> Issued(t, id);
    assert forall b :: b in t.list <==> b == a || b in s.list;
    RegisterGrows(s, e, a);
  }

  lemma RegisterGrows(s: State, e: Env, a: Addr)
    requires s.word > 0 && a in s.mem && s.nextId != 0
    ensures TraceGrows(s, RegisteredState(s, e, a), e)
  {
  }

  lemma RegisterRegistry(s: State, e: Env, a: Addr)
    requires RegistryInv(s) && HooksInv(s) && ObjectsInv(s)
    requires Mine(s, e, a) && a !in s.list && s.nextId != 0
    ensures var t := RegisteredState(s, e, a);
      RegistryInv(t) && HooksInv(t) && ObjectsInv(t) && Evolves(s, t) && TraceGrows(s, t, e)
  {
    RegisterDescends(s, e, a);
    RegisterHooks(s, e, a);
    RegisterObjects(s, e, a);
    RegisterEvolves(s, e, a);
  }

  lemma RegisterEntries(s: State, e: Env, a: Addr)
    requires RegistryInv(s) && EntriesInv(s, e, Registering(a)) && PcInv(s, e, Registering(a))
    ensures var t := RegisteredState(s, e, a);
      EntriesInv(t, e, Hooking(a)) && PcInv(t, e, Hooking(a))
  {
    var t := RegisteredState(s, e, a);
    assert forall b :: b in t.list <==> b == a || b in s.list;
    if Revoked(t.trace, e) { RevokedAppended(s.trace, [Issue(s.nextId)], e); }
    forall x | x in t.live && x.env == e ensures Tracks(t, x) { assert Tracks(s, x); }
  }

  lemma RegisterOthers(s: State, e: Env, a: Addr, f: Env)
    requires Resident(s.list, s.mem) && Mine(s, e, a) && 1 < s.word && e != f
    ensures SameView(s, RegisteredState(s, e, a), f)
  {
  }

  lemma KeepsRegistering(s: State, e: Env, a: Addr, ok: bool)
    requires OwnInv(s, e) && PcOf(s, e) == Registering(a)
    ensures var o := AdvanceWrap(s, e, PcOf(s, e), ok); o.Next? && Kept(s, o.s, e)
  {
    if s.nextId == 0 {
      GotoKeeps(s, e, UndoStopping(a));
    } else {
      RegisterRegistry(s, e, a);
      RegisterEntries(s, e, a);
      forall f | f != e ensures SameView(s, RegisteredState(s, e, a), f) { RegisterOthers(s, e, a, f); }
    }
  }

  ghost function HookedState(s: State, e: Env, a: Addr): State
    requires a in s.mem
  {
    Store(s.(hooks := s.hooks + {HookOf(s.mem[a])}), e, a, s.mem[a].(hooked := true), [], Exporting(a))
  }

  lemma HookRegistry(s: State, e: Env, a: Addr)
    requires RegistryInv(s) && HooksInv(s) && ObjectsInv(s) && Mine(s, e, a) && a in s.list
    ensures var t := HookedState(s, e, a);
      RegistryInv(t) && HooksInv(t) && ObjectsInv(t) && Evolves(s, t) && TraceGrows(s, t, e)
  {
    var t := HookedState(s, e, a);
    forall h, b | h in t.hooks && b in t.list && t.mem[b].id == h.id
      ensures HookOf(t.mem[b]) == h && t.mem[b].hooked
    {
      if h == HookOf(s.mem[a]) { SameIdentity(s.list, s.mem, a, b); }
    }
  }

  lemma HookEntries(s: State, e: Env, a: Addr)
    requires RegistryInv(s) && EntriesInv(s, e, Hooking(a)) && PcInv(s, e, Hooking(a))
    ensures var t := HookedState(s, e, a);
      EntriesInv(t, e, Exporting(a)) && PcInv(t, e, Exporting(a))
  {
    var t := HookedState(s, e, a);
    assert t.trace == s.trace;
    forall x | x in t.live && x.env == e ensures Tracks(t, x) { assert Tracks(s, x); }
  }

  lemma HookOthers(s: State, e: Env, a: Addr, f: Env)
    requires Mine(s, e, a) && e != f
    ensures SameView(s, HookedState(s, e, a), f)
  {
  }

  lemma KeepsHooking(s: State, e: Env, a: Addr, ok: bool)
    requires OwnInv(s, e) && PcOf(s, e) == Hooking(a)
    ensures var o := AdvanceWrap(s, e, PcOf(s, e), ok); o.Next? && Kept(s, o.s, e)
  {
    if ok {
      HookRegistry(s, e, a);
      HookEntries(s, e, a);
      forall f | f != e ensures SameView(s, HookedState(s, e, a), f) { HookOthers(s, e, a, f); }
    } else {
      GotoKeeps(s, e, UndoUnlinking(a));
    }
  }

  ghost function ExportedState(s: State, e: Env, a: Addr): State
    requires a in s.mem
  {
    var w := s.mem[a];
    Goto(s.(live := s.live + {External(e, a, w.kind, w.id)}, wrapped := s.wrapped[w.obj := Owner(e, w.kind, a, w.id)]),
         e, Idle)
  }

  lemma ExportRegistry(s: State, e: Env, a: Addr)
    requires RegistryInv(s) && HooksInv(s) && ObjectsInv(s) && a in s.mem
    ensures var t := ExportedState(s, e, a);
      RegistryInv(t) && HooksInv(t) && ObjectsInv(t) && Evolves(s, t) && TraceGrows(s, t, e)
  {
  }

  lemma ExportEntries(s: State, e: Env, a: Addr)
    requires EntriesInv(s, e, Exporting(a)) && PcInv(s, e, Exporting(a))
    ensures EntriesInv(ExportedState(s, e, a), e, Idle)
  {
    var t := ExportedState(s, e, a);
    forall x | x in t.live && x.env == e ensures Tracks(t, x) {
      if x in s.live { assert Tracks(s, x); }
    }
  }

  lemma ExportOthers(s: State, e: Env, a: Addr, f: Env)
    requires ObjectsInv(s) && Mine(s, e, a) && e != f
    ensures SameView(s, ExportedState(s, e, a), f)
  {
  }

  lemma KeepsExported(s: State, e: Env, a: Addr)
    requires OwnInv(s, e) && PcOf(s, e) == Exporting(a)
    ensures Kept(s, ExportedState(s, e, a), e)
  {
    ExportRegistry(s, e, a);
    ExportEntries(s, e, a);
    forall f | f != e ensures SameView(s, ExportedState(s, e, a), f) { ExportOthers(s, e, a, f); }
  }

  ghost function UnexportedState(s: State, e: Env, a: Addr): State
    requires a in s.mem
  {
    Goto(s.(hooks := s.hooks - {HookOf(s.mem[a])}), e, UndoUnlinking(a))
  }

  lemma UnexportRegistry(s: State, e: Env, a: Addr)
    requires RegistryInv(s) && HooksInv(s) && ObjectsInv(s) && a in s.mem
    ensures var t := UnexportedState(s, e, a);
      RegistryInv(t) && HooksInv(t) && ObjectsInv(t) && Evolves(s, t) && TraceGrows(s, t, e)
  {
  }

  lemma UnexportEntries(s: State, e: Env, a: Addr)
    requires RegistryInv(s) && EntriesInv(s, e, Exporting(a)) && PcInv(s, e, Exporting(a))
    ensures var t := UnexportedState(s, e, a);
      EntriesInv(t, e, UndoUnlinking(a)) && PcInv(t, e, UndoUnlinking(a))
  {
    var t := UnexportedState(s, e, a);
    forall b | Mine(s, e, b) && b in s.list && HookOf(s.mem[b]) == HookOf(s.mem[a]) ensures b == a {
      SameIdentity(s.list, s.mem, a, b);
    }
    forall x | x in t.live && x.env == e ensures Tracks(t, x) { assert Tracks(s, x); }
  }

  lemma KeepsUnexported(s: State, e: Env, a: Addr)
    requires OwnInv(s, e) && PcOf(s, e) == Exporting(a)
    ensures Kept(s, UnexportedState(s, e, a), e)
  {
    UnexportRegistry(s, e, a);
    UnexportEntries(s, e, a);
    forall f | f != e ensures SameView(s, UnexportedState(s, e, a), f) {}
  }

  lemma KeepsExporting(s: State, e: Env, a: Addr, ok: bool)
    requires OwnInv(s, e) && PcOf(s, e) == Exporting(a)
    ensures var o := AdvanceWrap(s, e, PcOf(s, e), ok); o.Next? && Kept(s, o.s, e)
  {
    assert HookOf(s.mem[a]) in s.hooks;
    if ok { KeepsExported(s, e, a); } else { KeepsUnexported(s, e, a); }
  }

  lemma KeepsUndoStopping(s: State, e: Env, a: Addr, ok: bool)
    requires OwnInv(s, e) && PcOf(s, e) == UndoStopping(a)
    ensures var o := AdvanceWrap(s, e, PcOf(s, e), ok); o.Next? && Kept(s, o.s, e)
  {
    StoreKeeps(s, e, a, Undone(s.mem[a], ok), UndoEvents(s.mem[a], ok), Freeing(a));
  }

  // ---------- Beginning something ----------

  ghost function LostState(s: State, kind: Kind): State {
    s.(nextObj := s.nextObj + 1, lost := s.lost + {s.nextObj},
       trace := s.trace + [if kind == Node then NodeFree(s.nextObj) else SignerFree(s.nextObj)])
  }

  lemma LostEntries(s: State, e: Env, kind: Kind)
    requires EntriesInv(s, e, Idle)
    ensures EntriesInv(LostState(s, kind), e, Idle)
  {
    var t := LostState(s, kind);
    FailureStays(s, t, e, e);
    if e !in t.closing {
      forall x | x in t.live && x.env == e ensures Tracks(t, x) { assert Tracks(s, x); }
    }
  }

  lemma NothingAllocated(s: State, e: Env, kind: Kind)
    requires OwnInv(s, e) && PcOf(s, e).Idle? && e !in s.closing
    ensures Kept(s, LostState(s, kind), e)
  {
    LostEntries(s, e, kind);
    forall f | f != e ensures SameView(s, LostState(s, kind), f) {}
  }

  ghost predicate CanAllocate(s: State, e: Env, a: Addr) {
    a !in s.mem && a != NULL && e !in s.closing
  }

  ghost function AllocatedState(s: State, e: Env, kind: Kind, a: Addr): State {
    Goto(s.(nextObj := s.nextObj + 1, mem := s.mem[a := Wrapper(e, kind, 0, s.nextObj, false, false, false)]),
         e, Registering(a))
  }

  lemma AllocateRegistry(s: State, e: Env, kind: Kind, a: Addr)
    requires RegistryInv(s) && HooksInv(s) && ObjectsInv(s) && CanAllocate(s, e, a)
    ensures var t := AllocatedState(s, e, kind, a);
      RegistryInv(t) && HooksInv(t) && ObjectsInv(t) && Evolves(s, t) && TraceGrows(s, t, e)
  {
  }

  lemma AllocateEntries(s: State, e: Env, kind: Kind, a: Addr)
    requires RegistryInv(s) && ObjectsInv(s) && EntriesInv(s, e, Idle) && CanAllocate(s, e, a)
    ensures var t := AllocatedState(s, e, kind, a);
      EntriesInv(t, e, Registering(a)) && PcInv(t, e, Registering(a))
  {
    var t := AllocatedState(s, e, kind, a);
    forall x | x in t.live && x.env == e ensures Tracks(t, x) && x.addr != a { assert Tracks(s, x); }
  }

  lemma AllocateOthers(s: State, e: Env, kind: Kind, a: Addr, f: Env)
    requires CanAllocate(s, e, a) && e != f
    ensures SameView(s, AllocatedState(s, e, kind, a), f)
  {
  }

  lemma KeepsWrap(s: State, e: Env, kind: Kind, at: Option<Addr>)
    requires OwnInv(s, e) && PcOf(s, e).Idle?
    ensures Kept(s, Begin(s, e, Wrap(kind, at)), e)
  {
    if e !in s.closing && at.None? {
      NothingAllocated(s, e, kind);
    } else if e !in s.closing && at.value !in s.mem && at.value != NULL {
      AllocateRegistry(s, e, kind, at.value);
      AllocateEntries(s, e, kind, at.value);
      forall f | f != e ensures SameView(s, AllocatedState(s, e, kind, at.value), f) {
        AllocateOthers(s, e, kind, at.value, f);
      }
    }
  }

  ghost function ClosedState(s: State, e: Env): State {
    s.(closing := s.closing + {e})
  }

  lemma CloseEntries(s: State, e: Env)
    requires EntriesInv(s, e, Idle)
    ensures EntriesInv(ClosedState(s, e), e, Idle)
  {
  }

  lemma CloseRegistry(s: State, e: Env)
    requires RegistryInv(s) && HooksInv(s) && ObjectsInv(s)
    ensures var t := ClosedState(s, e);
      RegistryInv(t) && HooksInv(t) && ObjectsInv(t) && Evolves(s, t) && TraceGrows(s, t, e)
  {
  }

  lemma CloseOthers(s: State, e: Env, f: Env)
    requires e != f
    ensures SameView(s, ClosedState(s, e), f)
  {
  }

  lemma KeepsClose(s: State, e: Env)
    requires OwnInv(s, e) && PcOf(s, e).Idle?
    ensures Kept(s, Begin(s, e, Close), e)
  {
    CloseEntries(s, e);
    CloseRegistry(s, e);
    forall f | f != e ensures SameView(s, ClosedState(s, e), f) { CloseOthers(s, e, f); }
  }

  ghost function FiredState(s: State, e: Env, h: Hook): State {
    Goto(s.(hooks := s.hooks - {h}), e, if h.kind == Node then NodeTeardown(h.id) else SignerTeardown(h.id))
  }

  lemma FireRegistry(s: State, e: Env, h: Hook)
    requires RegistryInv(s) && HooksInv(s) && ObjectsInv(s)
    ensures var t := FiredState(s, e, h);
      RegistryInv(t) && HooksInv(t) && ObjectsInv(t) && Evolves(s, t) && TraceGrows(s, t, e)
  {
  }

  lemma FireEntries(s: State, e: Env, h: Hook)
    requires EntriesInv(s, e, Idle) && e in s.closing && h.env == e
    ensures EntriesInv(FiredState(s, e, h), e, PcOf(FiredState(s, e, h), e))
  {
    var t := FiredState(s, e, h);
    forall b | Mine(s, e, b) && HookOf(s.mem[b]) == h ensures Firing(PcOf(t, e), b, s.mem[b]) {}
  }

  lemma KeepsFire(s: State, e: Env, h: Hook)
    requires OwnInv(s, e) && PcOf(s, e).Idle? && e in s.closing && h in s.hooks && h.env == e
    ensures Kept(s, FiredState(s, e, h), e)
  {
    FireRegistry(s, e, h);
    FireEntries(s, e, h);
    forall f | f != e ensures SameView(s, FiredState(s, e, h), f) {}
  }

  ghost function CollectedState(s: State, e: Env, x: External): State {
    Goto(s.(live := s.live - {x}), e, Finalizing(x))
  }

  lemma CollectRegistry(s: State, e: Env, x: External)
    requires RegistryInv(s) && HooksInv(s) && ObjectsInv(s)
    ensures var t := CollectedState(s, e, x);
      RegistryInv(t) && HooksInv(t) && ObjectsInv(t) && Evolves(s, t) && TraceGrows(s, t, e)
  {
  }

  lemma CollectEntries(s: State, e: Env, x: External)
    requires EntriesInv(s, e, Idle)
    ensures EntriesInv(CollectedState(s, e, x), e, Finalizing(x))
  {
    var t := CollectedState(s, e, x);
    if e !in t.closing {
      forall y | y in t.live && y.env == e ensures Tracks(t, y) { assert Tracks(s, y); }
    }
  }

  lemma KeepsCollect(s: State, e: Env, x: External)
    requires OwnInv(s, e) && PcOf(s, e).Idle? && x.env == e
    ensures Kept(s, CollectedState(s, e, x), e)
  {
    CollectRegistry(s, e, x);
    CollectEntries(s, e, x);
    forall f | f != e ensures SameView(s, CollectedState(s, e, x), f) {}
  }

  lemma ReopenedFailures(s: State, e: Env, a: Addr)
    requires RegistryInv(s) && EntriesInv(s, e, Idle) && Mine(s, e, a) && a in s.list
    requires forall h :: h in s.hooks ==> h.env != e
    ensures !s.mem[a].hooked && Leftover(ReopenedState(s, e), e, a)
  {
    var t := ReopenedState(s, e);
    FailureOnce(s.trace, e);
    assert Issued(s, s.mem[a].id);
    assert t.trace[..|s.trace|] == s.trace;
    if ev :| ev in s.trace && IsTeardownFailure(ev, e) { assert ev in t.trace; }
  }

  lemma FailureOnce(trace: seq<Event>, e: Env)
    ensures FailedTeardown(trace, e) ==> EverFailed(trace, e)
  {
  }

  lemma ReopenedEntries(s: State, e: Env)
    requires RegistryInv(s) && EntriesInv(s, e, Idle)
    requires forall h :: h in s.hooks ==> h.env != e
    ensures EntriesInv(ReopenedState(s, e), e, Idle)
  {
    var t := ReopenedState(s, e);
    forall a | Mine(s, e, a) && a in s.list ensures !s.mem[a].hooked && Leftover(t, e, a) {
      ReopenedFailures(s, e, a);
    }
    forall i: nat ensures !(Latest(t.trace, i, e) && IsRevocation(t.trace[i], e)) {
      assert t.trace[|s.trace|] == Opened(e);
    }
  }

  lemma ReopenedRegistry(s: State, e: Env)
    requires RegistryInv(s) && HooksInv(s) && ObjectsInv(s)
    ensures var t := ReopenedState(s, e);
      RegistryInv(t) && HooksInv(t) && ObjectsInv(t) && Evolves(s, t) && TraceGrows(s, t, e)
  {
  }

  lemma ReopenedOthers(s: State, e: Env, f: Env)
    requires e != f
    ensures SameView(s, ReopenedState(s, e), f)
  {
  }

  lemma KeepsReopen(s: State, e: Env)
    requires OwnInv(s, e) && PcOf(s, e).Idle? && forall h :: h in s.hooks ==> h.env != e
    ensures Kept(s, ReopenedState(s, e), e)
  {
    ReopenedRegistry(s, e);
    ReopenedEntries(s, e);
    forall f | f != e ensures SameView(s, ReopenedState(s, e), f) { ReopenedOthers(s, e, f); }
  }

  lemma KeepsNothing(s: State, e: Env)
    requires OwnInv(s, e)
    ensures Kept(s, s, e)
  {
  }

  lemma BeginFire(s: State, e: Env, h: Hook)
    requires OwnInv(s, e) && PcOf(s, e).Idle?
    ensures Kept(s, Begin(s, e, Fire(h)), e)
  {
    if e in s.closing && h in s.hooks && h.env == e { KeepsFire(s, e, h); } else { KeepsNothing(s, e); }
  }

  lemma BeginCollect(s: State, e: Env, x: External)
    requires OwnInv(s, e) && PcOf(s, e).Idle?
    ensures Kept(s, Begin(s, e, Collect(x)), e)
  {
    if x.env == e { KeepsCollect(s, e, x); } else { KeepsNothing(s, e); }
  }

  lemma BeginCall(s: State, e: Env, op: Op, x: External)
    requires OwnInv(s, e) && PcOf(s, e).Idle?
    ensures Kept(s, Begin(s, e, Call(op, x)), e)
  {
    if Begin(s, e, Call(op, x)) == s { KeepsNothing(s, e); } else { GotoKeeps(s, e, JsLookup(op, x)); }
  }

  lemma BeginReopen(s: State, e: Env)
    requires OwnInv(s, e) && PcOf(s, e).Idle?
    ensures Kept(s, Begin(s, e, Reopen), e)
  {
    if Begin(s, e, Reopen) == s { KeepsNothing(s, e); } else { KeepsReopen(s, e); }
  }

  lemma BeginWrap(s: State, e: Env, kind: Kind, at: Option<Addr>)
    requires OwnInv(s, e) && PcOf(s, e).Idle?
    ensures Kept(s, Begin(s, e, Wrap(kind, at)), e)
  {
    if Begin(s, e, Wrap(kind, at)) == s { KeepsNothing(s, e); } else { KeepsWrap(s, e, kind, at); }
  }

  lemma KeepsBegin(s: State, e: Env, c: Choice)
    requires OwnInv(s, e) && PcOf(s, e).Idle?
    ensures Kept(s, Begin(s, e, c), e)
  {
    match c
    case Wrap(kind, at) => BeginWrap(s, e, kind, at);
    case Close => KeepsClose(s, e);
    case Reopen => BeginReopen(s, e);
    case Fire(h) => BeginFire(s, e, h);
    case Collect(x) => BeginCollect(s, e, x);
    case Call(op, x) => BeginCall(s, e, op, x);
    case Resume(_) => KeepsNothing(s, e);
  }

  // ---------- Any step ----------

  lemma KeepsAdvanceWrap(s: State, e: Env, pc: Pc, ok: bool)
    requires OwnInv(s, e) && PcOf(s, e) == pc
    requires pc.Registering? || pc.Hooking? || pc.Exporting? || pc.UndoStopping?
    ensures var o := AdvanceWrap(s, e, pc, ok); o.Next? && Kept(s, o.s, e)
  {
    match pc
    case Registering(a) => KeepsRegistering(s, e, a, ok);
    case Hooking(a) => KeepsHooking(s, e, a, ok);
    case Exporting(a) => KeepsExporting(s, e, a, ok);
    case UndoStopping(a) => KeepsUndoStopping(s, e, a, ok);
  }

  lemma KeepsAdvanceTeardown(s: State, e: Env, pc: Pc, ok: bool)
    requires OwnInv(s, e) && PcOf(s, e) == pc
    requires pc.NodeTeardown? || pc.NodeTeardownStopping? || pc.SignerTeardown? || pc.SignerStopping?
    ensures var o := AdvanceTeardown(s, e, pc, ok); o.Next? && Kept(s, o.s, e)
  {
    match pc
    case NodeTeardown(id) => KeepsNodeTeardown(s, e, id, ok);
    case NodeTeardownStopping(a) => KeepsNodeTeardownStopping(s, e, a, ok);
    case SignerTeardown(id) => KeepsSignerTeardown(s, e, id, ok);
    case SignerStopping(a) => KeepsSignerStopping(s, e, a, ok);
  }

  lemma KeepsAdvanceDrain(s: State, e: Env, pc: Pc, ok: bool)
    requires OwnInv(s, e) && PcOf(s, e) == pc
    requires pc.Scanning? || pc.DrainFinding? || pc.DrainStopping? || pc.DrainUnlinking? || pc.DrainFreeing?
    ensures var o := AdvanceDrain(s, e, pc, ok); o.Next? && Kept(s, o.s, e)
  {
    match pc
    case Scanning(signer, cursor, stopped) => KeepsScanning(s, e, signer, cursor, stopped, ok);
    case DrainFinding(signer, id, stopped) => KeepsDrainFinding(s, e, signer, id, stopped, ok);
    case DrainStopping(signer, id, node, stopped) => KeepsDrainStopping(s, e, signer, id, node, stopped, ok);
    case DrainUnlinking(signer, id, node, stopped) => KeepsDrainUnlinking(s, e, signer, id, node, stopped, ok);
    case DrainFreeing(signer, id, node, stopped) => KeepsDrainFreeing(s, e, signer, id, node, stopped, ok);
  }

  lemma KeepsAdvanceFinalizer(s: State, e: Env, pc: Pc, ok: bool)
    requires OwnInv(s, e) && PcOf(s, e) == pc
    requires pc.Finalizing? || pc.FinalizingNode? || pc.FinalizingSigner?
    ensures var o := AdvanceFinalizer(s, e, pc, ok); o.Next? && Kept(s, o.s, e)
  {
    match pc
    case Finalizing(x) => KeepsFinalizing(s, e, x, ok);
    case FinalizingNode(a) => KeepsFinalizingNode(s, e, a, ok);
    case FinalizingSigner(a) => KeepsFinalizingSigner(s, e, a, ok);
  }

  lemma KeepsAdvance(s: State, e: Env, ok: bool)
    requires OwnInv(s, e)
    ensures var o := Advance(s, e, ok); o.Next? && Kept(s, o.s, e)
  {
    var pc := PcOf(s, e);
    if pc.Idle? { KeepsNothing(s, e); }
    else if pc.Registering? || pc.Hooking? || pc.Exporting? || pc.UndoStopping? { KeepsAdvanceWrap(s, e, pc, ok); }
    else if pc.UndoUnlinking? || pc.Unlinking? { KeepsUnlinking(s, e, pc.ref); }
    else if pc.Freeing? { KeepsFreeing(s, e, pc.ref); }
    else if pc.NodeTeardown? || pc.NodeTeardownStopping? || pc.SignerTeardown? || pc.SignerStopping? {
      KeepsAdvanceTeardown(s, e, pc, ok);
    }
    else if pc.Finalizing? || pc.FinalizingNode? || pc.FinalizingSigner? { KeepsAdvanceFinalizer(s, e, pc, ok); }
    else if pc.JsLookup? || pc.JsActing? { KeepsCall(s, e, ok); }
    else { KeepsAdvanceDrain(s, e, pc, ok); }
  }
}
