/** Which teardown callbacks are pending: those of the registered entries, while their environment is not closing. */
module LifecycleCallbacks {
  import opened Common
  import opened Handles
  import opened Lifecycle
  import opened LifecycleInvariant
  import opened LifecycleSteps
  import opened LifecycleSafety

  /** An entry whose callback is pending is flagged. */
  ghost predicate Flagged(s: State, e: Env) {
    forall a :: Mine(s, e, a) && a in s.list && HookOf(s.mem[a]) in s.hooks ==> s.mem[a].hooked
  }

  ghost predicate Entered(s: State, e: Env, h: Hook) {
    exists a :: Mine(s, e, a) && a in s.list && HookOf(s.mem[a]) == h
  }

  /** A pending callback belongs to a registered entry. */
  ghost predicate Entitled(s: State, e: Env) {
    e !in s.closing ==> forall h :: h in s.hooks && h.env == e ==> Entered(s, e, h)
  }

  /** An entry that is about to be unlinked has no callback any more. */
  ghost predicate Cleared(s: State, e: Env, pc: Pc) {
    match pc
    case UndoUnlinking(a) => a in s.mem ==> HookOf(s.mem[a]) !in s.hooks
    case Unlinking(a) => e !in s.closing && a in s.mem ==> HookOf(s.mem[a]) !in s.hooks
    case _ => true
  }

  ghost predicate CallbackInv(s: State, e: Env) {
    Flagged(s, e) && Entitled(s, e) && Cleared(s, e, PcOf(s, e))
  }

  // ---------- Steps ----------

  lemma OthersKeep(s: State, t: State, f: Env)
    requires SameView(s, t, f) && CallbackInv(s, f) && PcInv(s, f, PcOf(s, f))
    ensures CallbackInv(t, f)
  {
    if f !in t.closing {
      forall h | h in t.hooks && h.env == f ensures Entered(t, f, h) {
        var a :| Mine(s, f, a) && a in s.list && HookOf(s.mem[a]) == h;
        assert Mine(t, f, a);
      }
    }
    assert forall a :: Mine(t, f, a) ==> Mine(s, f, a);
    var pc := PcOf(s, f);
    if pc.UndoUnlinking? || pc.Unlinking? { assert Mine(s, f, pc.ref); }
  }

  /** A step of the environment that adds no entry and no callback, clears flags only of entries without one, and
      unlinks only such entries. */
  ghost predicate Carries(s: State, t: State, e: Env) {
    && (e in t.closing <==> e in s.closing)
    && (forall h :: h in t.hooks && h.env == e ==> h in s.hooks)
    && (forall a :: Mine(t, e, a) && a in t.list ==>
          && Mine(s, e, a) && a in s.list && HookOf(t.mem[a]) == HookOf(s.mem[a])
          && (s.mem[a].hooked ==> t.mem[a].hooked || HookOf(t.mem[a]) !in t.hooks))
    && (e !in t.closing ==> forall a :: Mine(s, e, a) && a in s.list && HookOf(s.mem[a]) in t.hooks ==>
          Mine(t, e, a) && a in t.list && HookOf(t.mem[a]) == HookOf(s.mem[a]))
  }

  lemma CarriesKeeps(s: State, t: State, e: Env)
    requires Flagged(s, e) && Entitled(s, e) && Carries(s, t, e)
    ensures Flagged(t, e) && Entitled(t, e)
  {
    if e !in t.closing {
      forall h | h in t.hooks && h.env == e ensures Entered(t, e, h) {
        var a :| Mine(s, e, a) && a in s.list && HookOf(s.mem[a]) == h;
      }
    }
    forall a | Mine(t, e, a) && a in t.list && HookOf(t.mem[a]) in t.hooks ensures t.mem[a].hooked {
      assert HookOf(t.mem[a]).env == e;
    }
  }

  lemma GotoKeeps(s: State, e: Env, next: Pc)
    requires Flagged(s, e) && Entitled(s, e) && !next.Unlinking? && !next.UndoUnlinking?
    ensures CallbackInv(Goto(s, e, next), e)
  {
    CarriesKeeps(s, Goto(s, e, next), e);
  }

  lemma FreshIdentity(s: State)
    requires Safe(s) && s.nextId != 0
    ensures forall h :: h in s.hooks ==> h.id != s.nextId
  {
    assert forall h :: h in s.hooks ==> Issued(s, h.id);
  }

  lemma RegisteredKeeps(s: State, e: Env, a: Addr, t: State)
    requires Safe(s) && Flagged(s, e) && Entitled(s, e) && Mine(s, e, a) && a !in s.list && s.nextId != 0
    requires t.list == [a] + s.list && t.mem == s.mem[a := s.mem[a].(id := s.nextId)]
    requires t.hooks == s.hooks && t.closing == s.closing
    ensures Flagged(t, e) && Entitled(t, e)
  {
    FreshIdentity(s);
    if e !in t.closing {
      forall h | h in t.hooks && h.env == e ensures Entered(t, e, h) {
        var b :| Mine(s, e, b) && b in s.list && HookOf(s.mem[b]) == h;
        assert Mine(t, e, b) && b in t.list;
      }
    }
  }

  lemma RegisteringStep(s: State, e: Env, a: Addr, ok: bool)
    requires Safe(s) && CallbackInv(s, e) && PcOf(s, e) == Registering(a)
    ensures var o := AdvanceWrap(s, e, Registering(a), ok); o.Next? ==> CallbackInv(o.s, e)
  {
    assert PcInv(s, e, Registering(a)) by { assert EnvInv(s, e); }
    if s.nextId != 0 {
      RegisteredKeeps(s, e, a, AdvanceWrap(s, e, Registering(a), ok).s);
    } else {
      GotoKeeps(s, e, UndoStopping(a));
    }
  }

  /** The callback has been added, and the entry flagged. */
  ghost function Hooked(s: State, e: Env, a: Addr): State
    requires a in s.mem
  {
    Store(s.(hooks := s.hooks + {HookOf(s.mem[a])}), e, a, s.mem[a].(hooked := true), [], Exporting(a))
  }

  lemma HookedKeeps(s: State, e: Env, a: Addr)
    requires Safe(s) && Mine(s, e, a) && a in s.list && Flagged(s, e) && Entitled(s, e)
    ensures CallbackInv(Hooked(s, e, a), e)
  {
    var t := Hooked(s, e, a);
    forall b | Mine(t, e, b) && b in t.list && HookOf(t.mem[b]) in t.hooks ensures t.mem[b].hooked {
      if HookOf(t.mem[b]) == HookOf(s.mem[a]) { SameIdentity(s.list, s.mem, a, b); }
    }
    if e !in t.closing {
      forall h | h in t.hooks && h.env == e ensures Entered(t, e, h) {
        var b := a;
        if h in s.hooks { b :| Mine(s, e, b) && b in s.list && HookOf(s.mem[b]) == h; }
        assert Mine(t, e, b) && b in t.list && HookOf(t.mem[b]) == h;
      }
    }
  }

  lemma HookingStep(s: State, e: Env, a: Addr, ok: bool)
    requires Safe(s) && CallbackInv(s, e) && PcOf(s, e) == Hooking(a)
    ensures var o := AdvanceWrap(s, e, Hooking(a), ok); o.Next? ==> CallbackInv(o.s, e)
  {
    assert PcInv(s, e, Hooking(a)) by { assert EnvInv(s, e); }
    if ok { HookedKeeps(s, e, a); } else { CarriesKeeps(s, Goto(s, e, UndoUnlinking(a)), e); }
  }

  /** Taking a callback back, or clearing a flag that has none, leaves the other callbacks as they are. */
  lemma ExportingStep(s: State, e: Env, a: Addr, ok: bool)
    requires Safe(s) && CallbackInv(s, e) && PcOf(s, e) == Exporting(a)
    ensures var o := AdvanceWrap(s, e, Exporting(a), ok); o.Next? ==> CallbackInv(o.s, e)
  {
    assert PcInv(s, e, Exporting(a)) by { assert EnvInv(s, e); }
    var o := AdvanceWrap(s, e, Exporting(a), ok);
    if o.Next? { CarriesKeeps(s, o.s, e); }
  }

  lemma UndoStoppingStep(s: State, e: Env, a: Addr, ok: bool)
    requires Safe(s) && CallbackInv(s, e) && PcOf(s, e) == UndoStopping(a)
    ensures var o := AdvanceWrap(s, e, UndoStopping(a), ok); o.Next? ==> CallbackInv(o.s, e)
  {
    assert PcInv(s, e, UndoStopping(a)) by { assert EnvInv(s, e); }
    var o := AdvanceWrap(s, e, UndoStopping(a), ok);
    if o.Next? { CarriesKeeps(s, o.s, e); }
  }

  lemma UnlinkedKeeps(s: State, e: Env, a: Addr, next: Pc)
    requires Safe(s) && Flagged(s, e) && Entitled(s, e) && Mine(s, e, a) && Cleared(s, e, next)
    requires !next.Unlinking? && !next.UndoUnlinking?
    requires e !in s.closing ==> HookOf(s.mem[a]) !in s.hooks
    ensures CallbackInv(Unlinked(s, e, a, next), e)
  {
    RemoveExactly(s.list, s.mem, a);
    CarriesKeeps(s, Unlinked(s, e, a, next), e);
  }

  lemma ReleasedKeeps(s: State, e: Env, a: Addr, next: Pc)
    requires Flagged(s, e) && Entitled(s, e) && a !in s.list && !next.Unlinking? && !next.UndoUnlinking?
    ensures CallbackInv(Released(s, e, a, next), e)
  {
    CarriesKeeps(s, Released(s, e, a, next), e);
  }

  lemma LeavingStep(s: State, e: Env, ok: bool)
    requires Safe(s) && s.word > 0 && CallbackInv(s, e)
    requires PcOf(s, e).UndoUnlinking? || PcOf(s, e).Unlinking? || PcOf(s, e).Freeing?
    ensures var o := Advance(s, e, ok); o.Next? ==> CallbackInv(o.s, e)
  {
    var pc := PcOf(s, e);
    assert PcInv(s, e, pc) by { assert EnvInv(s, e); }
    if pc.UndoUnlinking? { UnlinkedKeeps(s, e, pc.ref, UndoStopping(pc.ref)); }
    else if pc.Unlinking? { UnlinkedKeeps(s, e, pc.ref, Freeing(pc.ref)); }
    else { ReleasedKeeps(s, e, pc.ref, Idle); }
  }

  /** Storing flags into an entry; where its own is cleared it has no callback. */
  lemma StoredKeeps(s: State, e: Env, a: Addr, w: Wrapper, events: seq<Event>, next: Pc)
    requires Flagged(s, e) && Entitled(s, e) && Mine(s, e, a) && HookOf(w) == HookOf(s.mem[a])
    requires w.hooked == s.mem[a].hooked || HookOf(w) !in s.hooks
    requires (next.UndoUnlinking? || (next.Unlinking? && e !in s.closing)) ==> next.ref == a && HookOf(w) !in s.hooks
    ensures CallbackInv(Store(s, e, a, w, events, next), e)
  {
    CarriesKeeps(s, Store(s, e, a, w, events, next), e);
  }

  lemma NodeTeardownStep(s: State, e: Env, a: Addr, ok: bool)
    requires Safe(s) && CallbackInv(s, e) && PcOf(s, e) == NodeTeardownStopping(a)
    ensures var o := AdvanceTeardown(s, e, NodeTeardownStopping(a), ok); o.Next? ==> CallbackInv(o.s, e)
  {
    assert PcInv(s, e, NodeTeardownStopping(a)) by { assert EnvInv(s, e); }
    var w := StoppedAndFreed(s.mem[a].(hooked := false), ok);
    StoredKeeps(s, e, a, w, StopEvents(s.mem[a].(hooked := false), ok, true), if w.freed then Unlinking(a) else Idle);
  }

  lemma SignerTeardownStep(s: State, e: Env, id: nat, ok: bool)
    requires Safe(s) && CallbackInv(s, e) && PcOf(s, e) == SignerTeardown(id)
    ensures var o := AdvanceTeardown(s, e, SignerTeardown(id), ok); o.Next? ==> CallbackInv(o.s, e)
  {
    var pc, found := SignerTeardown(id), FindTeardown(s.list, s.mem, id, Signer);
    assert PcInv(s, e, pc) && FiringInv(s, e, pc) by { assert EnvInv(s, e); }
    if found.None? {
      GotoKeeps(s, e, Idle);
    } else {
      StoredKeeps(s, e, found.value, s.mem[found.value].(hooked := false), [], Scanning(found.value, 0, true));
    }
  }

  lemma SignerStoppingStep(s: State, e: Env, a: Addr, ok: bool)
    requires Safe(s) && CallbackInv(s, e) && PcOf(s, e) == SignerStopping(a)
    ensures var o := AdvanceTeardown(s, e, SignerStopping(a), ok); o.Next? ==> CallbackInv(o.s, e)
  {
    assert PcInv(s, e, SignerStopping(a)) by { assert EnvInv(s, e); }
    var w := s.mem[a];
    if w.freed || ok {
      StoredKeeps(s, e, a, w.(freed := true), SignerTeardownEvents(w, ok), Unlinking(a));
    } else {
      StoredKeeps(s, e, a, w, SignerTeardownEvents(w, ok), Idle);
    }
  }

  lemma TeardownStep(s: State, e: Env, pc: Pc, ok: bool)
    requires Safe(s) && CallbackInv(s, e) && PcOf(s, e) == pc
    requires pc.NodeTeardown? || pc.NodeTeardownStopping? || pc.SignerTeardown? || pc.SignerStopping?
    ensures var o := AdvanceTeardown(s, e, pc, ok); o.Next? ==> CallbackInv(o.s, e)
  {
    match pc
    case NodeTeardown(id) =>
      var found := FindTeardown(s.list, s.mem, id, Node);
      GotoKeeps(s, e, if found.Some? then NodeTeardownStopping(found.value) else Idle);
    case NodeTeardownStopping(a) => NodeTeardownStep(s, e, a, ok);
    case SignerTeardown(id) => SignerTeardownStep(s, e, id, ok);
    case SignerStopping(a) => SignerStoppingStep(s, e, a, ok);
  }

  lemma DrainStoppingStep(s: State, e: Env, signer: Addr, id: nat, a: Addr, stopped: bool, ok: bool)
    requires Safe(s) && CallbackInv(s, e) && PcOf(s, e) == DrainStopping(signer, id, a, stopped)
    ensures var o := AdvanceDrain(s, e, DrainStopping(signer, id, a, stopped), ok); o.Next? ==> CallbackInv(o.s, e)
  {
    assert PcInv(s, e, DrainStopping(signer, id, a, stopped)) by { assert EnvInv(s, e); }
    var w := StoppedAndFreed(s.mem[a], ok);
    StoredKeeps(s, e, a, w, StopEvents(s.mem[a], ok, true),
                if w.freed then DrainUnlinking(signer, id, a, stopped) else Scanning(signer, id, false));
  }

  lemma DrainLeavingStep(s: State, e: Env, pc: Pc, ok: bool)
    requires Safe(s) && CallbackInv(s, e) && PcOf(s, e) == pc && (pc.DrainUnlinking? || pc.DrainFreeing?)
    ensures var o := AdvanceDrain(s, e, pc, ok); o.Next? ==> CallbackInv(o.s, e)
  {
    assert PcInv(s, e, pc) by { assert EnvInv(s, e); }
    if pc.DrainUnlinking? {
      UnlinkedKeeps(s, e, pc.node, DrainFreeing(pc.signer, pc.id, pc.node, pc.stopped));
    } else {
      ReleasedKeeps(s, e, pc.node, Scanning(pc.signer, pc.id, pc.stopped));
    }
  }

  lemma DrainLookingStep(s: State, e: Env, pc: Pc, ok: bool)
    requires Safe(s) && CallbackInv(s, e) && PcOf(s, e) == pc && (pc.Scanning? || pc.DrainFinding?)
    ensures var o := AdvanceDrain(s, e, pc, ok); o.Next? ==> CallbackInv(o.s, e)
  {
    var o := AdvanceDrain(s, e, pc, ok);
    if o.Next? { GotoKeeps(s, e, PcOf(o.s, e)); }
  }

  lemma DrainStep(s: State, e: Env, pc: Pc, ok: bool)
    requires Safe(s) && CallbackInv(s, e) && PcOf(s, e) == pc
    requires pc.Scanning? || pc.DrainFinding? || pc.DrainStopping? || pc.DrainUnlinking? || pc.DrainFreeing?
    ensures var o := AdvanceDrain(s, e, pc, ok); o.Next? ==> CallbackInv(o.s, e)
  {
    if pc.Scanning? || pc.DrainFinding? { DrainLookingStep(s, e, pc, ok); }
    else if pc.DrainStopping? { DrainStoppingStep(s, e, pc.signer, pc.id, pc.node, pc.stopped, ok); }
    else { DrainLeavingStep(s, e, pc, ok); }
  }

  /** js_remove_teardown_callback by a finalizer. */
  lemma UnhookedKeeps(s: State, e: Env, a: Addr, w: Wrapper, events: seq<Event>)
    requires Flagged(s, e) && Entitled(s, e) && Mine(s, e, a) && HookOf(w) == HookOf(s.mem[a]) && a in s.list
    ensures var u := s.(hooks := s.hooks - {HookOf(w)}); CallbackInv(Store(u, e, a, w, events, Unlinking(a)), e)
  {
    CarriesKeeps(s, Store(s.(hooks := s.hooks - {HookOf(w)}), e, a, w, events, Unlinking(a)), e);
  }

  lemma NodeFinalizerStep(s: State, e: Env, a: Addr, ok: bool)
    requires Safe(s) && CallbackInv(s, e) && PcOf(s, e) == FinalizingNode(a)
    ensures var o := AdvanceFinalizer(s, e, FinalizingNode(a), ok); o.Next? ==> CallbackInv(o.s, e)
  {
    assert PcInv(s, e, FinalizingNode(a)) by { assert EnvInv(s, e); }
    var w, w' := s.mem[a], StoppedAndFreed(s.mem[a], ok);
    if w'.freed && w.hooked {
      UnhookedKeeps(s, e, a, w'.(hooked := false), StopEvents(w, ok, false));
    } else {
      StoredKeeps(s, e, a, w', StopEvents(w, ok, false), if w'.freed then Unlinking(a) else Idle);
    }
  }

  lemma SignerFinalizerStep(s: State, e: Env, a: Addr, ok: bool)
    requires Safe(s) && CallbackInv(s, e) && PcOf(s, e) == FinalizingSigner(a)
    ensures var o := AdvanceFinalizer(s, e, FinalizingSigner(a), ok); o.Next? ==> CallbackInv(o.s, e)
  {
    assert PcInv(s, e, FinalizingSigner(a)) by { assert EnvInv(s, e); }
    var w, w' := s.mem[a], s.mem[a].(freed := true, hooked := false);
    if w.hooked {
      UnhookedKeeps(s, e, a, w', ActEvents(SignerDestroy, w, ok));
    } else {
      StoredKeeps(s, e, a, w', ActEvents(SignerDestroy, w, ok), Unlinking(a));
    }
  }

  lemma FinalizerStep(s: State, e: Env, pc: Pc, ok: bool)
    requires Safe(s) && CallbackInv(s, e) && PcOf(s, e) == pc
    requires pc.Finalizing? || pc.FinalizingNode? || pc.FinalizingSigner?
    ensures var o := AdvanceFinalizer(s, e, pc, ok); o.Next? ==> CallbackInv(o.s, e)
  {
    match pc
    case Finalizing(_) => GotoKeeps(s, e, PcOf(AdvanceFinalizer(s, e, pc, ok).s, e));
    case FinalizingNode(a) => NodeFinalizerStep(s, e, a, ok);
    case FinalizingSigner(a) => SignerFinalizerStep(s, e, a, ok);
  }

  lemma ActingStep(s: State, e: Env, op: Op, a: Addr, ok: bool)
    requires Safe(s) && CallbackInv(s, e) && PcOf(s, e) == JsActing(op, a)
    ensures var o := AdvanceCall(s, e, JsActing(op, a), ok); o.Next? ==> CallbackInv(o.s, e)
  {
    assert PcInv(s, e, JsActing(op, a)) by { assert EnvInv(s, e); }
    StoredKeeps(s, e, a, Acted(op, s.mem[a], ok), ActEvents(op, s.mem[a], ok), Idle);
  }

  lemma CallStep(s: State, e: Env, pc: Pc, ok: bool)
    requires Safe(s) && CallbackInv(s, e) && PcOf(s, e) == pc && (pc.JsLookup? || pc.JsActing?)
    ensures var o := AdvanceCall(s, e, pc, ok); o.Next? ==> CallbackInv(o.s, e)
  {
    match pc
    case JsLookup(_, _) => GotoKeeps(s, e, PcOf(AdvanceCall(s, e, pc, ok).s, e));
    case JsActing(op, a) => ActingStep(s, e, op, a, ok);
  }

  lemma AdvanceStep(s: State, e: Env, ok: bool)
    requires Safe(s) && s.word > 0 && CallbackInv(s, e)
    ensures var o := Advance(s, e, ok); o.Next? ==> CallbackInv(o.s, e)
  {
    var pc := PcOf(s, e);
    if pc.Registering? { RegisteringStep(s, e, pc.ref, ok); }
    else if pc.Hooking? { HookingStep(s, e, pc.ref, ok); }
    else if pc.Exporting? { ExportingStep(s, e, pc.ref, ok); }
    else if pc.UndoStopping? { UndoStoppingStep(s, e, pc.ref, ok); }
    else if pc.UndoUnlinking? || pc.Unlinking? || pc.Freeing? { LeavingStep(s, e, ok); }
    else if pc.NodeTeardown? || pc.NodeTeardownStopping? || pc.SignerTeardown? || pc.SignerStopping? {
      TeardownStep(s, e, pc, ok);
    }
    else if pc.Finalizing? || pc.FinalizingNode? || pc.FinalizingSigner? { FinalizerStep(s, e, pc, ok); }
    else if pc.JsLookup? || pc.JsActing? { CallStep(s, e, pc, ok); }
    else if !pc.Idle? { DrainStep(s, e, pc, ok); }
  }

  lemma AllocatedKeeps(s: State, t: State, e: Env, at: Addr, w: Wrapper)
    requires Resident(s.list, s.mem) && CallbackInv(s, e) && at !in s.mem && PcOf(t, e) == Registering(at)
    requires t.mem == s.mem[at := w] && t.list == s.list && t.hooks == s.hooks && t.closing == s.closing
    ensures CallbackInv(t, e)
  {
    CarriesKeeps(s, t, e);
  }

  lemma BeginWrap(s: State, e: Env, kind: Kind, at: Option<Addr>)
    requires Safe(s) && CallbackInv(s, e) && PcOf(s, e).Idle?
    ensures CallbackInv(Begin(s, e, Wrap(kind, at)), e)
  {
    var t := Begin(s, e, Wrap(kind, at));
    if at.Some? && t != s {
      AllocatedKeeps(s, t, e, at.value, Wrapper(e, kind, 0, s.nextObj, false, false, false));
    } else {
      assert PcOf(t, e).Idle? && t.mem == s.mem && t.list == s.list && t.hooks == s.hooks && t.closing == s.closing;
    }
  }

  lemma BeginFire(s: State, e: Env, c: Choice)
    requires CallbackInv(s, e) && PcOf(s, e).Idle? && c.Fire?
    ensures CallbackInv(Begin(s, e, c), e)
  {
    CarriesKeeps(s, Begin(s, e, c), e);
  }

  lemma BeginOther(s: State, e: Env, c: Choice)
    requires CallbackInv(s, e) && PcOf(s, e).Idle? && (c.Collect? || c.Call? || c.Resume?)
    ensures CallbackInv(Begin(s, e, c), e)
  {
    CarriesKeeps(s, Begin(s, e, c), e);
  }

  lemma BeginStep(s: State, e: Env, c: Choice)
    requires Safe(s) && CallbackInv(s, e) && PcOf(s, e).Idle?
    ensures CallbackInv(Begin(s, e, c), e)
  {
    if c.Wrap? { BeginWrap(s, e, c.kind, c.at); }
    else if c.Fire? { BeginFire(s, e, c); }
    else if !c.Close? && !c.Reopen? { BeginOther(s, e, c); }
  }

  lemma StepKeeps(s: State, e: Env, c: Choice)
    requires Safe(s) && forall f :: CallbackInv(s, f)
    ensures var o := Step(s, e, c); o.Next? && forall f :: CallbackInv(o.s, f)
  {
    StepSafe(s, e, c);
    var t := Step(s, e, c).s;
    if c.Resume? { AdvanceStep(s, e, c.ok); } else if PcOf(s, e).Idle? { BeginStep(s, e, c); }
    forall f | f != e ensures CallbackInv(t, f) {
      assert EnvInv(s, f);
      OthersKeep(s, t, f);
    }
    forall f ensures CallbackInv(t, f) {}
  }

  lemma {:induction false} RunKeeps(s: State, moves: seq<Move>)
    requires Safe(s) && forall f :: CallbackInv(s, f)
    ensures var o := Run(s, moves); o.Next? && forall f :: CallbackInv(o.s, f)
    decreases |moves|
  {
    if moves != [] {
      StepSafe(s, moves[0].env, moves[0].choice);
      StepKeeps(s, moves[0].env, moves[0].choice);
      RunKeeps(Step(s, moves[0].env, moves[0].choice).s, moves[1..]);
    }
  }

  lemma ReachableCallbacks(s: State, e: Env)
    requires Reachable(s)
    ensures CallbackInv(s, e)
  {
    var word, moves :| 1 < word && Run(Init(word), moves) == Next(s);
    InitSafe(word);
    RunKeeps(Init(word), moves);
  }

  // ---------- What that means ----------

  /** In every reachable state the callbacks pending for an environment that is not inside the binding and not closing
      are those of its registered, flagged entries: none is left behind by a finalizer or a wrap that failed, and none
      is missing. */
  lemma CallbacksAreEntries(s: State, e: Env, h: Hook)
    requires Reachable(s) && PcOf(s, e).Idle? && e !in s.closing && h.env == e
    ensures h in s.hooks <==> exists a :: Mine(s, e, a) && a in s.list && s.mem[a].hooked && HookOf(s.mem[a]) == h
  {
    ReachableSafe(s);
    ReachableCallbacks(s, e);
    assert HookedInv(s, e, Idle) by { assert EnvInv(s, e); }
    if h in s.hooks {
      var a :| Mine(s, e, a) && a in s.list && HookOf(s.mem[a]) == h;
      assert s.mem[a].hooked;
    }
  }
}
