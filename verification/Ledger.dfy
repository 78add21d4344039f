/** What the native library sees: which calls may follow which, and that nothing is freed twice or forgotten. */
module LifecycleLedger {
  import opened Handles
  import opened Lifecycle
  import opened LifecycleInvariant
  import opened LifecycleSteps

  ghost predicate About(ev: Event, o: Obj) {
    IsCall(ev) && ev.obj == o
  }

  ghost function EventKind(ev: Event): Kind
    requires IsCall(ev)
  {
    if ev.NodeCall? || ev.NodeStop? || ev.NodeFree? then Node else Signer
  }

  ghost predicate Stopped(trace: seq<Event>, o: Obj) {
    exists ev :: ev in trace && ev.NodeStop? && ev.obj == o && ev.ok
  }

  ghost function Frees(trace: seq<Event>, o: Obj): nat {
    multiset(trace)[NodeFree(o)] + multiset(trace)[SignerFree(o)]
  }

  /** Whether `ev` may come next.  A node is stopped successfully once, called only before that and freed only after
      it, once; a signer is not used after it was freed; no node of an environment is stopped by its teardown after
      that revoked one of its signers; identities grow. */
  ghost predicate Admissible(prev: seq<Event>, ev: Event) {
    match ev
    case Opened(_) => true
    case Issue(id) => id > 0 && forall p :: p in prev && p.Issue? ==> p.id < id
    case NodeCall(o) => !Stopped(prev, o)
    case NodeStop(e, o, _, teardown) =>
      !Stopped(prev, o) && (teardown ==> !Revoked(prev, e))
    case NodeFree(o) => Stopped(prev, o) && Frees(prev, o) == 0
    case SignerCall(o) => Frees(prev, o) == 0
    case SignerStop(_, o, _, _) => Frees(prev, o) == 0
    case SignerFree(o) => Frees(prev, o) == 0
  }

  /** An object that was never wrapped because malloc failed is freed without being stopped. */
  ghost predicate Discarded(ev: Event, lost: set<Obj>) {
    (ev.NodeFree? || ev.SignerFree?) && ev.obj in lost
  }

  /** Every event of the trace may follow the ones before it, or is the free of a discarded object. */
  ghost predicate Legal(trace: seq<Event>, lost: set<Obj>) {
    forall i :: 0 <= i < |trace| ==>
      Admissible(trace[..i], trace[i]) || Discarded(trace[i], lost)
  }

  /** The flags of a wrapper are what the trace says about its native object. */
  ghost predicate Accounted(trace: seq<Event>, w: Wrapper) {
    && Frees(trace, w.obj) == (if w.freed then 1 else 0)
    && (w.kind == Node ==> (w.attempted <==> Stopped(trace, w.obj)) && (w.freed ==> w.attempted))
    && (w.kind == Signer ==> !w.attempted)
    && (forall ev :: ev in trace && About(ev, w.obj) ==> EventKind(ev) == w.kind)
  }

  ghost predicate Held(s: State, o: Obj, owner: Owner) {
    && owner.addr in s.mem
    && s.mem[owner.addr].obj == o && s.mem[owner.addr].env == owner.env && s.mem[owner.addr].kind == owner.kind
    && s.mem[owner.addr].id == owner.id
  }

  ghost predicate Settled(trace: seq<Event>, o: Obj, kind: Kind) {
    && Frees(trace, o) == 1
    && (forall ev :: ev in trace && About(ev, o) ==> EventKind(ev) == kind)
  }

  ghost predicate WrappersInv(s: State) {
    && (forall a :: a in s.mem ==> Accounted(s.trace, s.mem[a]) && s.mem[a].obj !in s.lost)
    && (forall a :: a in s.mem && s.mem[a].obj in s.wrapped ==>
          s.wrapped[s.mem[a].obj] == Owner(s.mem[a].env, s.mem[a].kind, a, s.mem[a].id))
  }

  ghost predicate OwnersInv(s: State) {
    forall o :: o in s.wrapped ==>
      o !in s.lost && (Held(s, o, s.wrapped[o]) || Settled(s.trace, o, s.wrapped[o].kind))
  }

  ghost predicate TraceInv(s: State) {
    && (forall o :: o in s.lost ==> o < s.nextObj)
    && (forall ev :: ev in s.trace ==> (ev.Issue? ==> Issued(s, ev.id)) && (IsCall(ev) ==> ev.obj < s.nextObj))
    && Legal(s.trace, s.lost)
  }

  ghost predicate LedgerInv(s: State) {
    WrappersInv(s) && OwnersInv(s) && TraceInv(s)
  }

  // ---------- Appending events ----------

  ghost predicate AllAbout(events: seq<Event>, o: Obj, kind: Kind) {
    forall ev :: ev in events ==> About(ev, o) && EventKind(ev) == kind
  }

  lemma AppendOne(trace: seq<Event>, ev: Event, lost: set<Obj>)
    requires Legal(trace, lost)
    requires Admissible(trace, ev) || Discarded(ev, lost)
    ensures Legal(trace + [ev], lost)
  {
    var t := trace + [ev];
    forall i | 0 <= i < |t|
      ensures Admissible(t[..i], t[i]) || Discarded(t[i], lost)
    {
      assert t[..i] == trace[..i];
      if i == |trace| { assert trace[..i] == trace; }
    }
  }

  lemma Unrelated(trace: seq<Event>, o: Obj)
    requires forall ev :: ev in trace ==> !About(ev, o)
    ensures Frees(trace, o) == 0 && !Stopped(trace, o)
  {
    assert NodeFree(o) !in trace && SignerFree(o) !in trace;
  }

  lemma OtherObject(trace: seq<Event>, events: seq<Event>, o: Obj)
    requires forall ev :: ev in events ==> !About(ev, o)
    ensures Frees(trace + events, o) == Frees(trace, o)
    ensures Stopped(trace + events, o) <==> Stopped(trace, o)
    ensures forall ev :: ev in trace + events && About(ev, o) ==> ev in trace
  {
    Unrelated(events, o);
    if Stopped(trace, o) {
      var ev :| ev in trace && ev.NodeStop? && ev.obj == o && ev.ok;
      assert ev in trace + events;
    }
  }

  // ---------- The native calls about one wrapper ----------

  /** Stopping a node, with whatever result. */
  lemma StopCall(trace: seq<Event>, w: Wrapper, ok: bool, teardown: bool, lost: set<Obj>)
    requires Accounted(trace, w) && w.kind == Node && Legal(trace, lost) && !w.freed && !w.attempted
    requires teardown ==> !Revoked(trace, w.env)
    ensures var t := trace + [NodeStop(w.env, w.obj, ok, teardown)];
      Accounted(t, w.(attempted := ok)) && Legal(t, lost)
  {
    var ev := NodeStop(w.env, w.obj, ok, teardown);
    AppendOne(trace, ev, lost);
    assert ev in trace + [ev];
  }

  lemma FreeCall(trace: seq<Event>, w: Wrapper, lost: set<Obj>)
    requires Accounted(trace, w) && Legal(trace, lost) && !w.freed && (w.kind == Node ==> w.attempted)
    ensures var t := trace + [if w.kind == Node then NodeFree(w.obj) else SignerFree(w.obj)];
      Accounted(t, w.(freed := true)) && Legal(t, lost)
  {
    var ev := if w.kind == Node then NodeFree(w.obj) else SignerFree(w.obj);
    AppendOne(trace, ev, lost);
    if Stopped(trace, w.obj) {
      var p :| p in trace && p.NodeStop? && p.obj == w.obj && p.ok;
      assert p in trace + [ev];
    }
  }

  /** A call that changes no flag. */
  lemma UseCall(trace: seq<Event>, w: Wrapper, ev: Event, lost: set<Obj>)
    requires Accounted(trace, w) && Legal(trace, lost) && !w.freed
    requires if w.kind == Node then ev == NodeCall(w.obj) && !w.attempted
             else ev == SignerCall(w.obj) || (ev.SignerStop? && ev.obj == w.obj)
    ensures Accounted(trace + [ev], w) && Legal(trace + [ev], lost)
  {
    AppendOne(trace, ev, lost);
    if Stopped(trace, w.obj) {
      var p :| p in trace && p.NodeStop? && p.obj == w.obj && p.ok;
      assert p in trace + [ev];
    }
  }

  lemma NoCall(trace: seq<Event>)
    ensures trace + [] == trace
  {
  }

  lemma TwoCalls(trace: seq<Event>, a: Event, b: Event)
    ensures trace + [a, b] == trace + [a] + [b]
  {
  }

  lemma StopThenFree(trace: seq<Event>, w: Wrapper, teardown: bool, lost: set<Obj>)
    requires Accounted(trace, w) && w.kind == Node && Legal(trace, lost) && !w.freed && !w.attempted
    requires teardown ==> !Revoked(trace, w.env)
    ensures var t := trace + [NodeStop(w.env, w.obj, true, teardown), NodeFree(w.obj)];
      Accounted(t, w.(attempted := true, freed := true)) && Legal(t, lost)
  {
    var stop := NodeStop(w.env, w.obj, true, teardown);
    StopCall(trace, w, true, teardown, lost);
    FreeCall(trace + [stop], w.(attempted := true), lost);
    TwoCalls(trace, stop, NodeFree(w.obj));
  }

  lemma StopEventsAbout(w: Wrapper, ok: bool, teardown: bool)
    ensures AllAbout(StopEvents(w, ok, teardown), w.obj, Node)
  {
  }

  lemma StopAndFree(trace: seq<Event>, w: Wrapper, ok: bool, teardown: bool, lost: set<Obj>)
    requires Accounted(trace, w) && w.kind == Node && Legal(trace, lost)
    requires teardown ==> !Revoked(trace, w.env)
    ensures var t := trace + StopEvents(w, ok, teardown);
      Accounted(t, StoppedAndFreed(w, ok)) && Legal(t, lost)
    ensures AllAbout(StopEvents(w, ok, teardown), w.obj, Node)
  {
    StopEventsAbout(w, ok, teardown);
    if w.freed {
      NoCall(trace);
    } else if w.attempted {
      FreeCall(trace, w, lost);
    } else if ok {
      StopThenFree(trace, w, teardown, lost);
    } else {
      StopCall(trace, w, false, teardown, lost);
    }
  }

  lemma UndoCalls(trace: seq<Event>, w: Wrapper, ok: bool, lost: set<Obj>)
    requires Accounted(trace, w) && Legal(trace, lost) && !w.freed
    ensures var t := trace + UndoEvents(w, ok);
      Accounted(t, Undone(w, ok)) && Legal(t, lost)
    ensures AllAbout(UndoEvents(w, ok), w.obj, w.kind)
  {
    if w.kind == Node { StopAndFree(trace, w, ok, false, lost); } else { FreeCall(trace, w, lost); }
  }

  lemma ActEventsAbout(op: Op, w: Wrapper, ok: bool)
    requires w.kind == OpKind(op)
    ensures AllAbout(ActEvents(op, w, ok), w.obj, w.kind)
  {
  }

  lemma ActCalls(trace: seq<Event>, op: Op, w: Wrapper, ok: bool, lost: set<Obj>)
    requires Accounted(trace, w) && w.kind == OpKind(op) && Legal(trace, lost)
    ensures var t := trace + ActEvents(op, w, ok);
      Accounted(t, Acted(op, w, ok)) && Legal(t, lost)
    ensures AllAbout(ActEvents(op, w, ok), w.obj, w.kind)
  {
    ActEventsAbout(op, w, ok);
    if ActEvents(op, w, ok) == [] {
      NoCall(trace);
    } else if op.NodeDestroy? {
      StopAndFree(trace, w, ok, false, lost);
    } else if op.NodeShutdown? {
      StopCall(trace, w, ok, false, lost);
    } else if op.SignerDestroy? {
      FreeCall(trace, w, lost);
    } else {
      UseCall(trace, w, ActEvents(op, w, ok)[0], lost);
    }
  }

  lemma RevokeThenFree(trace: seq<Event>, w: Wrapper, lost: set<Obj>)
    requires Accounted(trace, w) && w.kind == Signer && Legal(trace, lost) && !w.freed
    ensures var t := trace + [SignerStop(w.env, w.obj, true, true), SignerFree(w.obj)];
      Accounted(t, w.(freed := true)) && Legal(t, lost)
  {
    var stop := SignerStop(w.env, w.obj, true, true);
    UseCall(trace, w, stop, lost);
    FreeCall(trace + [stop], w, lost);
    TwoCalls(trace, stop, SignerFree(w.obj));
  }

  lemma RevokeEventsAbout(w: Wrapper, ok: bool)
    ensures AllAbout(SignerTeardownEvents(w, ok), w.obj, Signer)
  {
  }

  lemma RevokeCalls(trace: seq<Event>, w: Wrapper, ok: bool, lost: set<Obj>)
    requires Accounted(trace, w) && w.kind == Signer && Legal(trace, lost)
    ensures var t := trace + SignerTeardownEvents(w, ok);
      Accounted(t, if ok then w.(freed := true) else w) && Legal(t, lost)
    ensures AllAbout(SignerTeardownEvents(w, ok), w.obj, Signer)
  {
    RevokeEventsAbout(w, ok);
    if w.freed {
      NoCall(trace);
    } else if ok {
      RevokeThenFree(trace, w, lost);
    } else {
      UseCall(trace, w, SignerStop(w.env, w.obj, false, true), lost);
    }
  }

  // ---------- Steps ----------

  lemma OthersAccounted(s: State, events: seq<Event>, o: Obj, kind: Kind, w: Wrapper)
    requires Accounted(s.trace, w) && AllAbout(events, o, kind) && w.obj != o
    ensures Accounted(s.trace + events, w)
  {
    OtherObject(s.trace, events, w.obj);
  }

  lemma OthersSettled(s: State, events: seq<Event>, o: Obj, kind: Kind, p: Obj, k: Kind)
    requires Settled(s.trace, p, k) && AllAbout(events, o, kind) && p != o
    ensures Settled(s.trace + events, p, k)
  {
    OtherObject(s.trace, events, p);
  }

  /** Calls about the object of wrapper `a` that leave its flags and the trace in agreement. */
  ghost predicate Calls(s: State, t: State, a: Addr, w: Wrapper, events: seq<Event>) {
    && a in s.mem && w.obj == s.mem[a].obj && HookOf(w) == HookOf(s.mem[a])
    && AllAbout(events, w.obj, w.kind)
    && Accounted(s.trace + events, w) && Legal(s.trace + events, s.lost)
    && t.mem == s.mem[a := w] && t.trace == s.trace + events
    && t.wrapped == s.wrapped && t.lost == s.lost && t.nextObj == s.nextObj && t.nextId == s.nextId && t.word == s.word
  }

  lemma CallsWrappers(s: State, t: State, a: Addr, w: Wrapper, events: seq<Event>)
    requires WrappersInv(s) && ObjectsInv(s) && Calls(s, t, a, w, events)
    ensures WrappersInv(t)
  {
    forall b | b in t.mem ensures Accounted(t.trace, t.mem[b]) && t.mem[b].obj !in t.lost {
      if b != a { OthersAccounted(s, events, w.obj, w.kind, s.mem[b]); }
    }
  }

  lemma CallsOwner(s: State, t: State, a: Addr, w: Wrapper, events: seq<Event>, o: Obj)
    requires WrappersInv(s) && OwnersInv(s) && Calls(s, t, a, w, events) && o in t.wrapped
    ensures Held(t, o, t.wrapped[o]) || Settled(t.trace, o, t.wrapped[o].kind)
  {
    if !Held(s, o, s.wrapped[o]) {
      OthersSettled(s, events, w.obj, w.kind, o, s.wrapped[o].kind);
    }
  }

  lemma CallsLedger(s: State, t: State, a: Addr, w: Wrapper, events: seq<Event>)
    requires LedgerInv(s) && ObjectsInv(s) && Calls(s, t, a, w, events)
    ensures LedgerInv(t)
  {
    CallsWrappers(s, t, a, w, events);
    forall o | o in t.wrapped ensures Held(t, o, t.wrapped[o]) || Settled(t.trace, o, t.wrapped[o].kind) {
      CallsOwner(s, t, a, w, events, o);
    }
    assert TraceInv(t) by {
      assert s.mem[a].obj < s.nextObj;
    }
  }

  /** A step that makes no native call and creates or frees no wrapper. */
  lemma SilentLedger(s: State, t: State)
    requires LedgerInv(s)
    requires t.trace == s.trace && t.wrapped == s.wrapped && t.lost == s.lost
    requires t.nextObj == s.nextObj && t.nextId == s.nextId && t.word == s.word
    requires t.mem.Keys == s.mem.Keys
    requires forall a :: a in s.mem ==> t.mem[a].(hooked := s.mem[a].hooked) == s.mem[a]
    ensures LedgerInv(t)
  {
    forall o | o in t.wrapped ensures Held(t, o, t.wrapped[o]) || Settled(t.trace, o, t.wrapped[o].kind) {
      assert Held(s, o, s.wrapped[o]) ==> Held(t, o, t.wrapped[o]);
    }
  }

  /** Freeing a wrapper whose native object was freed, or that never wrapped one. */
  lemma ReleaseLedger(s: State, e: Env, a: Addr, next: Pc)
    requires LedgerInv(s) && a in s.mem && (s.mem[a].obj in s.wrapped ==> s.mem[a].freed)
    ensures LedgerInv(Released(s, e, a, next))
  {
    var t := Released(s, e, a, next);
    forall o | o in t.wrapped ensures Held(t, o, t.wrapped[o]) || Settled(t.trace, o, t.wrapped[o].kind) {
      ReleaseOwner(s, a, o);
    }
    ReleaseTrace(s, e, a, next);
  }

  lemma ReleaseOwner(s: State, a: Addr, o: Obj)
    requires WrappersInv(s) && OwnersInv(s) && a in s.mem && (s.mem[a].obj in s.wrapped ==> s.mem[a].freed)
    requires o in s.wrapped
    ensures (Held(s, o, s.wrapped[o]) && s.wrapped[o].addr != a) || Settled(s.trace, o, s.wrapped[o].kind)
  {
    if Held(s, o, s.wrapped[o]) && s.wrapped[o].addr == a { assert Accounted(s.trace, s.mem[a]); }
  }

  lemma ReleaseTrace(s: State, e: Env, a: Addr, next: Pc)
    requires WrappersInv(s) && TraceInv(s)
    ensures WrappersInv(Released(s, e, a, next)) && TraceInv(Released(s, e, a, next))
  {
  }

  lemma IssueTrace(s: State, e: Env, a: Addr)
    requires TraceInv(s) && RegistryInv(s) && a in s.mem && s.nextId != 0
    ensures TraceInv(RegisteredState(s, e, a))
  {
    assert Successor(s.nextId, s.word) == if s.nextId + 1 == s.word then 0 else s.nextId + 1;
    AppendOne(s.trace, Issue(s.nextId), s.lost);
  }

  lemma IssueWrappers(s: State, e: Env, a: Addr)
    requires WrappersInv(s) && a in s.mem && s.word > 0 && s.mem[a].obj !in s.wrapped
    ensures WrappersInv(RegisteredState(s, e, a))
  {
    var t := RegisteredState(s, e, a);
    forall b | b in t.mem ensures Accounted(t.trace, t.mem[b]) {
      OtherObject(s.trace, [Issue(s.nextId)], s.mem[b].obj);
    }
  }

  lemma IssueLedger(s: State, e: Env, a: Addr)
    requires LedgerInv(s) && RegistryInv(s) && a in s.mem && s.nextId != 0 && s.mem[a].obj !in s.wrapped
    ensures LedgerInv(RegisteredState(s, e, a))
  {
    var t := RegisteredState(s, e, a);
    IssueTrace(s, e, a);
    IssueWrappers(s, e, a);
    forall o | o in t.wrapped ensures Held(t, o, t.wrapped[o]) || Settled(t.trace, o, t.wrapped[o].kind) {
      if !Held(s, o, s.wrapped[o]) { OtherObject(s.trace, [Issue(s.nextId)], o); }
    }
  }

  lemma ExportLedger(s: State, e: Env, a: Addr)
    requires LedgerInv(s) && ObjectsInv(s) && Mine(s, e, a) && s.mem[a].obj !in s.wrapped
    ensures LedgerInv(ExportedState(s, e, a))
  {
    var t := ExportedState(s, e, a);
    forall o | o in t.wrapped ensures Held(t, o, t.wrapped[o]) || Settled(t.trace, o, t.wrapped[o].kind) {
      if o != s.mem[a].obj { assert Held(s, o, s.wrapped[o]) ==> Held(t, o, t.wrapped[o]); }
    }
  }

  lemma AllocateLedger(s: State, e: Env, kind: Kind, a: Addr)
    requires LedgerInv(s) && ObjectsInv(s) && a !in s.mem
    ensures LedgerInv(AllocatedState(s, e, kind, a))
  {
    var t := AllocatedState(s, e, kind, a);
    Unrelated(s.trace, s.nextObj);
    forall o | o in t.wrapped ensures Held(t, o, t.wrapped[o]) || Settled(t.trace, o, t.wrapped[o].kind) {
      assert Held(s, o, s.wrapped[o]) ==> Held(t, o, t.wrapped[o]);
    }
  }

  lemma LostWrappers(s: State, kind: Kind)
    requires WrappersInv(s) && ObjectsInv(s)
    ensures WrappersInv(LostState(s, kind))
  {
    var t := LostState(s, kind);
    var ev := if kind == Node then NodeFree(s.nextObj) else SignerFree(s.nextObj);
    forall b | b in t.mem ensures Accounted(t.trace, t.mem[b]) {
      OtherObject(s.trace, [ev], s.mem[b].obj);
    }
  }

  lemma LostTrace(s: State, kind: Kind)
    requires TraceInv(s) && ObjectsInv(s)
    ensures TraceInv(LostState(s, kind))
  {
    var t := LostState(s, kind);
    assert Legal(s.trace, t.lost);
    AppendOne(s.trace, if kind == Node then NodeFree(s.nextObj) else SignerFree(s.nextObj), t.lost);
  }

  lemma LostLedger(s: State, kind: Kind)
    requires LedgerInv(s) && ObjectsInv(s)
    ensures LedgerInv(LostState(s, kind))
  {
    var t := LostState(s, kind);
    LostWrappers(s, kind);
    LostTrace(s, kind);
    forall o | o in t.wrapped ensures Held(t, o, t.wrapped[o]) || Settled(t.trace, o, t.wrapped[o].kind) {
      if !Held(s, o, s.wrapped[o]) {
        OtherObject(s.trace, [if kind == Node then NodeFree(s.nextObj) else SignerFree(s.nextObj)], o);
      }
    }
  }

  lemma ReopenLedger(s: State, e: Env)
    requires LedgerInv(s)
    ensures LedgerInv(ReopenedState(s, e))
  {
    var t := ReopenedState(s, e);
    AppendOne(s.trace, Opened(e), s.lost);
    forall b | b in t.mem ensures Accounted(t.trace, t.mem[b]) {
      OtherObject(s.trace, [Opened(e)], s.mem[b].obj);
    }
    forall o | o in t.wrapped ensures Held(t, o, t.wrapped[o]) || Settled(t.trace, o, t.wrapped[o].kind) {
      if !Held(s, o, s.wrapped[o]) { OtherObject(s.trace, [Opened(e)], o); }
    }
  }

  // ---------- Any step ----------

  lemma LedgerWrap(s: State, e: Env, pc: Pc, ok: bool)
    requires OwnInv(s, e) && LedgerInv(s) && PcOf(s, e) == pc
    requires pc.Registering? || pc.Hooking? || pc.Exporting?
    requires AdvanceWrap(s, e, pc, ok).Next?
    ensures LedgerInv(AdvanceWrap(s, e, pc, ok).s)
  {
    var t := AdvanceWrap(s, e, pc, ok).s;
    if pc.Registering? && s.nextId != 0 { IssueLedger(s, e, pc.ref); }
    else if pc.Exporting? && ok { ExportLedger(s, e, pc.ref); }
    else { SilentLedger(s, t); }
  }

  lemma LedgerUndo(s: State, e: Env, a: Addr, ok: bool)
    requires OwnInv(s, e) && LedgerInv(s) && PcOf(s, e) == UndoStopping(a)
    ensures LedgerInv(Store(s, e, a, Undone(s.mem[a], ok), UndoEvents(s.mem[a], ok), Freeing(a)))
  {
    var w := s.mem[a];
    UndoCalls(s.trace, w, ok, s.lost);
    CallsLedger(s, Store(s, e, a, Undone(w, ok), UndoEvents(w, ok), Freeing(a)), a, Undone(w, ok), UndoEvents(w, ok));
  }

  /** While a node of the environment exists, teardown has revoked none of its signers. */
  lemma NotRevoked(s: State, e: Env, a: Addr)
    requires RevokedInv(s, e) && Mine(s, e, a) && s.mem[a].kind == Node
    ensures !Revoked(s.trace, e)
  {
  }

  lemma LedgerNodeTeardown(s: State, e: Env, a: Addr, ok: bool)
    requires OwnInv(s, e) && LedgerInv(s) && PcOf(s, e) == NodeTeardownStopping(a)
    ensures LedgerInv(AdvanceTeardown(s, e, PcOf(s, e), ok).s)
  {
    var w := s.mem[a].(hooked := false);
    NotRevoked(s, e, a);
    StopAndFree(s.trace, w, ok, true, s.lost);
    CallsLedger(s, AdvanceTeardown(s, e, PcOf(s, e), ok).s, a, StoppedAndFreed(w, ok), StopEvents(w, ok, true));
  }

  lemma LedgerSignerStopping(s: State, e: Env, a: Addr, ok: bool)
    requires OwnInv(s, e) && LedgerInv(s) && PcOf(s, e) == SignerStopping(a)
    ensures LedgerInv(AdvanceTeardown(s, e, PcOf(s, e), ok).s)
  {
    var w := s.mem[a];
    RevokeCalls(s.trace, w, ok, s.lost);
    CallsLedger(s, AdvanceTeardown(s, e, PcOf(s, e), ok).s, a,
                if w.freed || ok then w.(freed := true) else w, SignerTeardownEvents(w, ok));
  }

  lemma LedgerTeardown(s: State, e: Env, pc: Pc, ok: bool)
    requires OwnInv(s, e) && LedgerInv(s) && PcOf(s, e) == pc
    requires pc.NodeTeardown? || pc.NodeTeardownStopping? || pc.SignerTeardown? || pc.SignerStopping?
    requires AdvanceTeardown(s, e, pc, ok).Next?
    ensures LedgerInv(AdvanceTeardown(s, e, pc, ok).s)
  {
    if pc.NodeTeardownStopping? { LedgerNodeTeardown(s, e, pc.ref, ok); }
    else if pc.SignerStopping? { LedgerSignerStopping(s, e, pc.ref, ok); }
    else { LookupLedger(s, e, pc, ok); }
  }

  lemma LookupLedger(s: State, e: Env, pc: Pc, ok: bool)
    requires Resident(s.list, s.mem) && LedgerInv(s) && (pc.NodeTeardown? || pc.SignerTeardown?)
    ensures LedgerInv(AdvanceTeardown(s, e, pc, ok).s)
  {
    var found := FindTeardown(s.list, s.mem, pc.id, if pc.NodeTeardown? then Node else Signer);
    if pc.NodeTeardown? {
      GotoLedger(s, e, if found.Some? then NodeTeardownStopping(found.value) else Idle);
    } else if found.None? {
      GotoLedger(s, e, Idle);
    } else {
      ClearedLedger(s, e, found.value, Scanning(found.value, 0, true));
    }
  }

  lemma GotoLedger(s: State, e: Env, pc: Pc)
    requires LedgerInv(s)
    ensures LedgerInv(Goto(s, e, pc))
  {
    SilentLedger(s, Goto(s, e, pc));
  }

  lemma ClearedLedger(s: State, e: Env, a: Addr, pc: Pc)
    requires LedgerInv(s) && a in s.mem
    ensures LedgerInv(Store(s, e, a, s.mem[a].(hooked := false), [], pc))
  {
    NoCall(s.trace);
    SilentLedger(s, Store(s, e, a, s.mem[a].(hooked := false), [], pc));
  }

  lemma LedgerDrainStopping(s: State, e: Env, node: Addr, ok: bool, next: Pc)
    requires RegistryInv(s) && ObjectsInv(s) && LedgerInv(s) && RevokedInv(s, e) && Listed(s, e, node, Node)
    ensures LedgerInv(Store(s, e, node, StoppedAndFreed(s.mem[node], ok), StopEvents(s.mem[node], ok, true), next))
  {
    var w := s.mem[node];
    NotRevoked(s, e, node);
    StopAndFree(s.trace, w, ok, true, s.lost);
    CallsLedger(s, Store(s, e, node, StoppedAndFreed(w, ok), StopEvents(w, ok, true), next), node,
                StoppedAndFreed(w, ok), StopEvents(w, ok, true));
  }

  lemma UnlinkedLedger(s: State, e: Env, a: Addr, pc: Pc)
    requires LedgerInv(s)
    ensures LedgerInv(Unlinked(s, e, a, pc))
  {
    SilentLedger(s, Unlinked(s, e, a, pc));
  }

  lemma LedgerDrainOnward(s: State, e: Env, pc: Pc, ok: bool)
    requires RegistryInv(s) && ObjectsInv(s) && LedgerInv(s) && PcInv(s, e, pc)
    requires pc.Scanning? || pc.DrainFinding? || pc.DrainUnlinking? || pc.DrainFreeing?
    ensures var o := AdvanceDrain(s, e, pc, ok); o.Next? ==> LedgerInv(o.s)
  {
    if AdvanceDrain(s, e, pc, ok).Next? {
      var next := PcOf(AdvanceDrain(s, e, pc, ok).s, e);
      if pc.DrainUnlinking? { UnlinkedLedger(s, e, pc.node, next); }
      else if pc.DrainFreeing? { ReleaseLedger(s, e, pc.node, next); }
      else { GotoLedger(s, e, next); }
    }
  }

  lemma LedgerDrain(s: State, e: Env, pc: Pc, ok: bool)
    requires RegistryInv(s) && ObjectsInv(s) && LedgerInv(s) && RevokedInv(s, e) && PcInv(s, e, pc)
    requires pc.Scanning? || pc.DrainFinding? || pc.DrainStopping? || pc.DrainUnlinking? || pc.DrainFreeing?
    requires AdvanceDrain(s, e, pc, ok).Next?
    ensures LedgerInv(AdvanceDrain(s, e, pc, ok).s)
  {
    if pc.DrainStopping? {
      LedgerDrainStopping(s, e, pc.node, ok, PcOf(AdvanceDrain(s, e, pc, ok).s, e));
    } else {
      LedgerDrainOnward(s, e, pc, ok);
    }
  }

  lemma FinalizedNode(s: State, e: Env, a: Addr, ok: bool, t: State)
    requires Resident(s.list, s.mem) && a in s.mem
    requires AdvanceFinalizer(s, e, FinalizingNode(a), ok) == Next(t)
    ensures t.mem == s.mem[a := t.mem[a]] && t.trace == s.trace + StopEvents(s.mem[a], ok, false)
    ensures t.mem[a].(hooked := s.mem[a].hooked) == StoppedAndFreed(s.mem[a], ok)
    ensures t.wrapped == s.wrapped && t.lost == s.lost && t.nextObj == s.nextObj && t.nextId == s.nextId
    ensures t.word == s.word
  {
  }

  lemma LedgerFinalizingNode(s: State, e: Env, a: Addr, ok: bool, t: State)
    requires RegistryInv(s) && ObjectsInv(s) && LedgerInv(s) && Listed(s, e, a, Node)
    requires AdvanceFinalizer(s, e, FinalizingNode(a), ok) == Next(t)
    ensures LedgerInv(t)
  {
    FinalizedNode(s, e, a, ok, t);
    StopAndFree(s.trace, s.mem[a], ok, false, s.lost);
    CallsLedger(s, t, a, t.mem[a], StopEvents(s.mem[a], ok, false));
  }

  lemma FinalizedSigner(s: State, e: Env, a: Addr, ok: bool, t: State)
    requires Resident(s.list, s.mem) && a in s.mem
    requires AdvanceFinalizer(s, e, FinalizingSigner(a), ok) == Next(t)
    ensures t.mem == s.mem[a := t.mem[a]] && t.trace == s.trace + ActEvents(SignerDestroy, s.mem[a], ok)
    ensures t.mem[a].(hooked := s.mem[a].hooked) == Acted(SignerDestroy, s.mem[a], ok)
    ensures t.wrapped == s.wrapped && t.lost == s.lost && t.nextObj == s.nextObj && t.nextId == s.nextId
    ensures t.word == s.word
  {
  }

  lemma LedgerFinalizingSigner(s: State, e: Env, a: Addr, ok: bool, t: State)
    requires RegistryInv(s) && ObjectsInv(s) && LedgerInv(s) && Listed(s, e, a, Signer)
    requires AdvanceFinalizer(s, e, FinalizingSigner(a), ok) == Next(t)
    ensures LedgerInv(t)
  {
    FinalizedSigner(s, e, a, ok, t);
    ActCalls(s.trace, SignerDestroy, s.mem[a], ok, s.lost);
    CallsLedger(s, t, a, t.mem[a], ActEvents(SignerDestroy, s.mem[a], ok));
  }

  lemma FoundLedger(s: State, e: Env, x: External, ok: bool)
    requires Resident(s.list, s.mem) && LedgerInv(s)
    ensures LedgerInv(AdvanceFinalizer(s, e, Finalizing(x), ok).s)
  {
    var found := FindFinalizer(s.list, s.mem, e, x.addr, x.id, x.kind);
    GotoLedger(s, e, FoundPc(s, e, x));
  }

  lemma LedgerFinalizer(s: State, e: Env, pc: Pc, ok: bool)
    requires RegistryInv(s) && ObjectsInv(s) && LedgerInv(s)
    requires pc.Finalizing? || pc.FinalizingNode? || pc.FinalizingSigner?
    requires pc.FinalizingNode? ==> Listed(s, e, pc.ref, Node)
    requires pc.FinalizingSigner? ==> Listed(s, e, pc.ref, Signer)
    requires AdvanceFinalizer(s, e, pc, ok).Next?
    ensures LedgerInv(AdvanceFinalizer(s, e, pc, ok).s)
  {
    if pc.FinalizingNode? {
      LedgerFinalizingNode(s, e, pc.ref, ok, AdvanceFinalizer(s, e, FinalizingNode(pc.ref), ok).s);
    } else if pc.FinalizingSigner? {
      LedgerFinalizingSigner(s, e, pc.ref, ok, AdvanceFinalizer(s, e, FinalizingSigner(pc.ref), ok).s);
    } else {
      FoundLedger(s, e, pc.x, ok);
    }
  }

  lemma LedgerActing(s: State, e: Env, op: Op, a: Addr, ok: bool)
    requires WrappersInv(s) && TraceInv(s) && LedgerInv(s) && ObjectsInv(s) && a in s.mem && s.mem[a].kind == OpKind(op)
    ensures LedgerInv(Store(s, e, a, Acted(op, s.mem[a], ok), ActEvents(op, s.mem[a], ok), Idle))
  {
    ActCalls(s.trace, op, s.mem[a], ok, s.lost);
    CallsLedger(s, Store(s, e, a, Acted(op, s.mem[a], ok), ActEvents(op, s.mem[a], ok), Idle), a,
                Acted(op, s.mem[a], ok),
                ActEvents(op, s.mem[a], ok));
  }

  lemma LedgerCall(s: State, e: Env, pc: Pc, ok: bool)
    requires OwnInv(s, e) && LedgerInv(s) && PcOf(s, e) == pc && (pc.JsLookup? || pc.JsActing?)
    requires AdvanceCall(s, e, pc, ok).Next?
    ensures LedgerInv(AdvanceCall(s, e, pc, ok).s)
  {
    if pc.JsActing? {
      LedgerActing(s, e, pc.op, pc.ref, ok);
    } else {
      GotoLedger(s, e, if Owns(s.list, s.mem, e, pc.x.addr, OpKind(pc.op)) then JsActing(pc.op, pc.x.addr) else Idle);
    }
  }

  lemma LedgerAdvance(s: State, e: Env, ok: bool)
    requires OwnInv(s, e) && LedgerInv(s) && Advance(s, e, ok).Next?
    ensures LedgerInv(Advance(s, e, ok).s)
  {
    var pc := PcOf(s, e);
    if pc.Idle? {}
    else if pc.UndoStopping? { LedgerUndo(s, e, pc.ref, ok); }
    else if pc.Registering? || pc.Hooking? || pc.Exporting? { LedgerWrap(s, e, pc, ok); }
    else if pc.UndoUnlinking? || pc.Unlinking? { SilentLedger(s, Advance(s, e, ok).s); }
    else if pc.Freeing? { ReleaseLedger(s, e, pc.ref, Idle); }
    else if pc.NodeTeardown? || pc.NodeTeardownStopping? || pc.SignerTeardown? || pc.SignerStopping? {
      LedgerTeardown(s, e, pc, ok);
    }
    else if pc.Finalizing? || pc.FinalizingNode? || pc.FinalizingSigner? { LedgerFinalizer(s, e, pc, ok); }
    else if pc.JsLookup? || pc.JsActing? { LedgerCall(s, e, pc, ok); }
    else { LedgerDrain(s, e, pc, ok); }
  }

  lemma LedgerBegin(s: State, e: Env, c: Choice)
    requires OwnInv(s, e) && LedgerInv(s)
    ensures LedgerInv(Begin(s, e, c))
  {
    if Begin(s, e, c) == s {
    } else if c.Wrap? && c.at.None? {
      LostLedger(s, c.kind);
    } else if c.Wrap? {
      AllocateLedger(s, e, c.kind, c.at.value);
    } else if c.Reopen? {
      ReopenLedger(s, e);
    } else {
      SilentLedger(s, Begin(s, e, c));
    }
  }
}
