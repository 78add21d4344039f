/** The facade of one node inside the state machine: index.js as the only caller of its handle, among everything else
    that its own and the other environments do. */
module LifecycleHost {
  import opened Handles
  import opened Lifecycle
  import opened LifecycleInvariant
  import opened LifecycleSteps
  import opened LifecycleLedger
  import opened LifecycleSafety

  /** Where `shutdown()` of the facade is: not running, waiting for the native shutdown, or for the destruction. */
  datatype Stage = Resting | Stopping | Destroying

  /** The state of the binding, and the facade's `_closed`. */
  datatype Host = Host(s: State, closed: bool, stage: Stage)

  /** What the facade keeps from happening in its environment until it is closed: other calls on its handle, the
      collection of that handle, and the teardown of the environment. */
  ghost predicate Barred(c: Choice, x: External) {
    || c.Close? || c == Collect(x)
    || (c.Call? && c.x == x && c.op != NodeShutdown && c.op != NodeUse)
  }

  ghost function HostStep(h: Host, x: External, m: Move): Host
    requires h.s.word > 0
  {
    var o := Step(h.s, m.env, m.choice);
    if o.Fault? then h
    else if m.env != x.env then h.(s := o.s)
    else if h.closed then
      if m.choice.Call? && m.choice.x == x then h else h.(s := o.s)
    else if h.stage.Resting? then
      if Barred(m.choice, x) then h
      else if m.choice == Call(NodeShutdown, x) then
        if PcOf(h.s, x.env).Idle? then Host(o.s, h.closed, Stopping) else h
      else h.(s := o.s)
    else if !m.choice.Resume? then h
    else if !PcOf(h.s, x.env).Idle? then h.(s := o.s)
    else if x.addr !in h.s.mem then h
    else Returned(h, x)
  }

  /** An entry point has returned to `shutdown()`: it goes on, unless that threw. */
  ghost function Returned(h: Host, x: External): Host
    requires h.s.word > 0 && x.addr in h.s.mem
  {
    var w := h.s.mem[x.addr];
    if h.stage.Destroying? then Host(h.s, w.freed, Resting)
    else if w.freed || !w.attempted then h.(stage := Resting)
    else
      var o := Step(h.s, x.env, Call(NodeDestroy, x));
      if o.Fault? then h else Host(o.s, h.closed, Destroying)
  }

  ghost function HostRun(h: Host, x: External, moves: seq<Move>): Host
    requires h.s.word > 0
    decreases |moves|
  {
    if moves == [] then h
    else
      var next := HostStep(h, x, moves[0]);
      if next.s.word != h.s.word then h else HostRun(next, x, moves[1..])
  }

  // ---------- What holds throughout ----------

  /** What the environment is doing leaves the flags of the handle alone. */
  ghost predicate Aside(pc: Pc, x: External) {
    match pc
    case Idle => true
    case Registering(a) => a != x.addr
    case Hooking(a) => a != x.addr
    case Exporting(a) => a != x.addr
    case UndoUnlinking(a) => a != x.addr
    case UndoStopping(a) => a != x.addr
    case Freeing(a) => a != x.addr
    case Unlinking(a) => a != x.addr
    case Finalizing(y) => y != x
    case FinalizingNode(a) => a != x.addr
    case FinalizingSigner(a) => a != x.addr
    case JsLookup(op, y) => y.addr != x.addr || op.NodeUse?
    case JsActing(op, a) => a != x.addr || op.NodeUse?
    case NodeTeardown(_) => false
    case NodeTeardownStopping(_) => false
    case SignerTeardown(_) => false
    case SignerStopping(_) => false
    case Scanning(_, _, _) => false
    case DrainFinding(_, _, _) => false
    case DrainStopping(_, _, _, _) => false
    case DrainUnlinking(_, _, _, _) => false
    case DrainFreeing(_, _, _, _) => false
  }

  /** A live environment in which the handle of a node can be reached. */
  ghost predicate InUse(s: State, x: External) {
    x.kind == Node && x in s.live && x.env !in s.closing
  }

  ghost predicate StageInv(h: Host, x: External)
    requires x.addr in h.s.mem
  {
    var pc, w := PcOf(h.s, x.env), h.s.mem[x.addr];
    match h.stage
    case Resting => !w.freed && Aside(pc, x)
    case Stopping => !w.freed && (pc.Idle? || pc == JsLookup(NodeShutdown, x) || pc == JsActing(NodeShutdown, x.addr))
    case Destroying =>
      && (pc.Idle? ==> w.freed)
      && (!pc.Idle? ==> w.attempted && !w.freed)
      && (!pc.Idle? ==> (pc == JsLookup(NodeDestroy, x) || pc == JsActing(NodeDestroy, x.addr)))
  }

  /** The handle is still that of the native node `o`. */
  ghost predicate Holds(h: Host, x: External, o: Obj) {
    InUse(h.s, x) && x.addr in h.s.mem && h.s.mem[x.addr].obj == o && StageInv(h, x)
  }

  /** The native node was stopped and freed, whatever has become of the handle. */
  ghost predicate GivenUp(trace: seq<Event>, o: Obj) {
    Frees(trace, o) == 1 && Stopped(trace, o)
  }

  /** It is not one of those that malloc could not find a wrapper for. */
  ghost predicate Known(s: State, o: Obj) {
    o < s.nextObj && o !in s.lost
  }

  ghost predicate HostInv(h: Host, x: External, o: Obj) {
    && Safe(h.s) && Known(h.s, o)
    && (if h.closed then h.stage.Resting? && GivenUp(h.s.trace, o) else Holds(h, x, o))
  }

  // ---------- What was freed stays freed ----------

  lemma KnownStaysBegin(s: State, e: Env, c: Choice, o: Obj)
    requires Known(s, o)
    ensures Known(Begin(s, e, c), o)
  {
  }

  ghost predicate SameObjects(s: State, o: Outcome) {
    o.Next? ==> o.s.nextObj == s.nextObj && o.s.lost == s.lost
  }

  lemma WrapObjects(s: State, e: Env, pc: Pc, ok: bool)
    requires s.word > 0 && (pc.Registering? || pc.Hooking? || pc.Exporting? || pc.UndoStopping?)
    ensures SameObjects(s, AdvanceWrap(s, e, pc, ok))
  {
  }

  lemma TeardownObjects(s: State, e: Env, pc: Pc, ok: bool)
    requires Resident(s.list, s.mem)
    requires pc.NodeTeardown? || pc.NodeTeardownStopping? || pc.SignerTeardown? || pc.SignerStopping?
    ensures SameObjects(s, AdvanceTeardown(s, e, pc, ok))
  {
  }

  lemma DrainObjects(s: State, e: Env, pc: Pc, ok: bool)
    requires Resident(s.list, s.mem)
    requires pc.Scanning? || pc.DrainFinding? || pc.DrainStopping? || pc.DrainUnlinking? || pc.DrainFreeing?
    ensures SameObjects(s, AdvanceDrain(s, e, pc, ok))
  {
  }

  lemma FinalizerObjects(s: State, e: Env, pc: Pc, ok: bool)
    requires Resident(s.list, s.mem) && (pc.Finalizing? || pc.FinalizingNode? || pc.FinalizingSigner?)
    ensures SameObjects(s, AdvanceFinalizer(s, e, pc, ok))
  {
  }

  lemma AdvanceObjects(s: State, e: Env, ok: bool)
    requires s.word > 0 && Resident(s.list, s.mem)
    ensures SameObjects(s, Advance(s, e, ok))
  {
    var pc := PcOf(s, e);
    if pc.Registering? || pc.Hooking? || pc.Exporting? || pc.UndoStopping? { WrapObjects(s, e, pc, ok); }
    else if pc.NodeTeardown? || pc.NodeTeardownStopping? || pc.SignerTeardown? || pc.SignerStopping? {
      TeardownObjects(s, e, pc, ok);
    }
    else if pc.Scanning? || pc.DrainFinding? || pc.DrainStopping? || pc.DrainUnlinking? || pc.DrainFreeing? {
      DrainObjects(s, e, pc, ok);
    }
    else if pc.Finalizing? || pc.FinalizingNode? || pc.FinalizingSigner? { FinalizerObjects(s, e, pc, ok); }
  }

  lemma KnownStays(s: State, e: Env, c: Choice, o: Obj)
    requires Safe(s) && Known(s, o)
    ensures Step(s, e, c).Next? ==> Known(Step(s, e, c).s, o)
  {
    if c.Resume? { AdvanceObjects(s, e, c.ok); } else { KnownStaysBegin(s, e, c, o); }
  }

  /** After the free of an object there is no other. */
  lemma NoSecondFree(trace: seq<Event>, more: seq<Event>, lost: set<Obj>, o: Obj)
    requires |trace| <= |more| && more[..|trace|] == trace && Legal(more, lost) && o !in lost && GivenUp(trace, o)
    ensures GivenUp(more, o)
  {
    var tail := more[|trace|..];
    assert more == trace + tail;
    forall i | 0 <= i < |tail| ensures tail[i] != NodeFree(o) && tail[i] != SignerFree(o) {
      var prev := more[..|trace| + i];
      assert prev == trace + tail[..i];
      assert Admissible(prev, more[|trace| + i]) || Discarded(more[|trace| + i], lost);
    }
    var ev :| ev in trace && ev.NodeStop? && ev.obj == o && ev.ok;
    assert ev in more;
    assert NodeFree(o) !in tail && SignerFree(o) !in tail;
  }

  /** From then on, whoever moves. */
  lemma GivenUpForever(s: State, e: Env, c: Choice, o: Obj)
    requires Safe(s) && Known(s, o) && GivenUp(s.trace, o)
    ensures var t := Step(s, e, c); t.Next? && Safe(t.s) && Known(t.s, o) && GivenUp(t.s.trace, o)
  {
    StepSafe(s, e, c);
    KnownStays(s, e, c, o);
    var t := Step(s, e, c).s;
    assert TraceGrows(s, t, e);
    NoSecondFree(s.trace, t.trace, t.lost, o);
  }

  lemma Tracked(s: State, x: External)
    requires Safe(s) && InUse(s, x)
    ensures Tracks(s, x) && PcInv(s, x.env, PcOf(s, x.env))
    ensures Owns(s.list, s.mem, x.env, x.addr, Node)
  {
    assert EnvInv(s, x.env);
  }

  // ---------- Steps that are not the facade's ----------

  lemma AsideWrap(s: State, x: External, pc: Pc, ok: bool)
    requires Aside(pc, x) && s.word > 0 && x.addr in s.mem && x in s.live
    requires pc.Registering? || pc.Hooking? || pc.Exporting? || pc.UndoStopping?
    ensures var o := AdvanceWrap(s, x.env, pc, ok);
      o.Next? ==> x in o.s.live && x.addr in o.s.mem && o.s.mem[x.addr] == s.mem[x.addr] && o.s.closing == s.closing
                  && Aside(PcOf(o.s, x.env), x)
  {
  }

  lemma AsideFinding(s: State, x: External, y: External, ok: bool)
    requires Aside(Finalizing(y), x) && Resident(s.list, s.mem) && Tracks(s, x) && y.env == x.env
    ensures var o := AdvanceFinalizer(s, x.env, Finalizing(y), ok); o.Next? && Aside(PcOf(o.s, x.env), x)
  {
  }

  lemma AsideFinalizer(s: State, x: External, pc: Pc, ok: bool)
    requires Aside(pc, x) && Resident(s.list, s.mem) && Tracks(s, x) && x in s.live && PcInv(s, x.env, pc)
    requires pc.Finalizing? || pc.FinalizingNode? || pc.FinalizingSigner?
    ensures var o := AdvanceFinalizer(s, x.env, pc, ok);
      o.Next? ==> x in o.s.live && x.addr in o.s.mem && o.s.mem[x.addr] == s.mem[x.addr] && o.s.closing == s.closing
                  && Aside(PcOf(o.s, x.env), x)
  {
    if pc.Finalizing? { AsideFinding(s, x, pc.x, ok); }
  }

  lemma AsideCall(s: State, x: External, pc: Pc, ok: bool)
    requires Aside(pc, x) && Resident(s.list, s.mem) && x.addr in s.mem && x in s.live && (pc.JsLookup? || pc.JsActing?)
    ensures var o := AdvanceCall(s, x.env, pc, ok);
      o.Next? ==> x in o.s.live && x.addr in o.s.mem && o.s.mem[x.addr] == s.mem[x.addr] && o.s.closing == s.closing
                  && Aside(PcOf(o.s, x.env), x)
  {
  }

  lemma AsideAdvance(s: State, x: External, ok: bool)
    requires Safe(s) && InUse(s, x) && x.addr in s.mem && Aside(PcOf(s, x.env), x)
    ensures var o := Advance(s, x.env, ok);
      o.Next? ==> x in o.s.live && x.addr in o.s.mem && o.s.mem[x.addr] == s.mem[x.addr] && o.s.closing == s.closing
                  && Aside(PcOf(o.s, x.env), x)
  {
    Tracked(s, x);
    var pc := PcOf(s, x.env);
    if pc.Registering? || pc.Hooking? || pc.Exporting? || pc.UndoStopping? { AsideWrap(s, x, pc, ok); }
    else if pc.Finalizing? || pc.FinalizingNode? || pc.FinalizingSigner? { AsideFinalizer(s, x, pc, ok); }
    else if pc.JsLookup? || pc.JsActing? { AsideCall(s, x, pc, ok); }
  }

  lemma CallElsewhere(s: State, x: External, y: External)
    requires Safe(s) && InUse(s, x) && y in s.live && y.env == x.env && y.addr == x.addr
    ensures y == x
  {
    assert EnvInv(s, x.env);
    assert Tracks(s, x) && Tracks(s, y);
  }

  lemma AsideBegin(s: State, x: External, c: Choice)
    requires Safe(s) && InUse(s, x) && x.addr in s.mem && PcOf(s, x.env).Idle?
    requires !Barred(c, x) && c != Call(NodeShutdown, x)
    ensures var t := Begin(s, x.env, c);
      && x in t.live && x.addr in t.mem && t.mem[x.addr] == s.mem[x.addr] && t.closing == s.closing
      && Aside(PcOf(t, x.env), x)
  {
    if c.Call? { AsideBeginCall(s, x, c.op, c.x); } else { AsideBeginOther(s, x, c); }
  }

  lemma AsideBeginCall(s: State, x: External, op: Op, y: External)
    requires Safe(s) && InUse(s, x) && PcOf(s, x.env).Idle? && (y == x ==> op.NodeUse?)
    ensures var t := Begin(s, x.env, Call(op, y));
      t.live == s.live && t.mem == s.mem && t.closing == s.closing && Aside(PcOf(t, x.env), x)
  {
    if y in s.live && y.env == x.env && y.addr == x.addr { CallElsewhere(s, x, y); }
  }

  lemma AsideBeginOther(s: State, x: External, c: Choice)
    requires InUse(s, x) && x.addr in s.mem && PcOf(s, x.env).Idle?
    requires !Barred(c, x) && !c.Call?
    ensures var t := Begin(s, x.env, c);
      && x in t.live && x.addr in t.mem && t.mem[x.addr] == s.mem[x.addr] && t.closing == s.closing
      && Aside(PcOf(t, x.env), x)
  {
  }

  /** A step that is not the facade's leaves the flags of the handle as they are. */
  ghost predicate Untouched(h: Host, x: External, m: Move) {
    (h.stage.Resting? || m.env != x.env) && !h.closed
  }

  ghost predicate SameHandle(s: State, t: State, x: External) {
    x.addr in s.mem && x.addr in t.mem && t.mem[x.addr] == s.mem[x.addr]
  }

  lemma RestingOn(s: State, x: External, c: Choice, o: Obj)
    requires Safe(s) && Known(s, o) && InUse(s, x) && x.addr in s.mem && Aside(PcOf(s, x.env), x)
    requires !Barred(c, x) && c != Call(NodeShutdown, x)
    ensures var t := Step(s, x.env, c);
      && t.Next? && Safe(t.s) && Known(t.s, o)
      && InUse(t.s, x) && SameHandle(s, t.s, x) && Aside(PcOf(t.s, x.env), x)
  {
    StepSafe(s, x.env, c);
    KnownStays(s, x.env, c, o);
    if c.Resume? { AsideAdvance(s, x, c.ok); }
    else if PcOf(s, x.env).Idle? { AsideBegin(s, x, c); }
  }

  lemma ShutdownBegins(s: State, x: External)
    requires Safe(s) && InUse(s, x) && PcOf(s, x.env).Idle?
    ensures var t := Goto(s, x.env, JsLookup(NodeShutdown, x));
      Step(s, x.env, Call(NodeShutdown, x)) == Next(t) && Safe(t)
  {
    StepSafe(s, x.env, Call(NodeShutdown, x));
  }

  lemma RestingStep(h: Host, x: External, o: Obj, m: Move)
    requires HostInv(h, x, o) && !h.closed && h.stage.Resting? && m.env == x.env
    ensures HostInv(HostStep(h, x, m), x, o) && SameHandle(h.s, HostStep(h, x, m).s, x)
  {
    if !Barred(m.choice, x) {
      if m.choice != Call(NodeShutdown, x) { RestingOn(h.s, x, m.choice, o); }
      else if PcOf(h.s, x.env).Idle? { ShutdownBegins(h.s, x); }
    }
  }

  // ---------- Steps of the facade, and of others ----------

  lemma ActingStep(s: State, x: External, op: Op, ok: bool)
    requires Safe(s) && InUse(s, x) && (op == NodeShutdown || op == NodeDestroy)
    requires PcOf(s, x.env) == JsLookup(op, x) || PcOf(s, x.env) == JsActing(op, x.addr)
    ensures var o := Step(s, x.env, Resume(ok));
      && o.Next? && Safe(o.s) && InUse(o.s, x) && x.addr in s.mem && x.addr in o.s.mem
      && (PcOf(s, x.env).JsLookup? ==> o.s.mem == s.mem && PcOf(o.s, x.env) == JsActing(op, x.addr))
      && (PcOf(s, x.env).JsActing? ==> o.s.mem[x.addr] == Acted(op, s.mem[x.addr], ok) && PcOf(o.s, x.env).Idle?)
  {
    Tracked(s, x);
    StepSafe(s, x.env, Resume(ok));
  }

  lemma DestroyBegins(s: State, x: External)
    requires Safe(s) && InUse(s, x) && PcOf(s, x.env).Idle?
    ensures var t := Goto(s, x.env, JsLookup(NodeDestroy, x));
      Step(s, x.env, Call(NodeDestroy, x)) == Next(t) && Safe(t)
  {
    StepSafe(s, x.env, Call(NodeDestroy, x));
  }

  lemma ReturnedStep(h: Host, x: External, o: Obj)
    requires HostInv(h, x, o) && !h.closed && !h.stage.Resting? && PcOf(h.s, x.env).Idle?
    ensures HostInv(Returned(h, x), x, o) && Returned(h, x).s.word == h.s.word
  {
    Tracked(h.s, x);
    DestroyBegins(h.s, x);
    assert Accounted(h.s.trace, h.s.mem[x.addr]);
  }

  lemma WorkingStep(h: Host, x: External, o: Obj, ok: bool)
    requires HostInv(h, x, o) && !h.closed && !h.stage.Resting? && !PcOf(h.s, x.env).Idle?
    ensures var u := Step(h.s, x.env, Resume(ok));
      u.Next? && HostInv(h.(s := u.s), x, o) && u.s.word == h.s.word
  {
    ActingStep(h.s, x, if h.stage.Stopping? then NodeShutdown else NodeDestroy, ok);
    KnownStays(h.s, x.env, Resume(ok), o);
  }

  lemma BusyStep(h: Host, x: External, o: Obj, m: Move)
    requires HostInv(h, x, o) && !h.closed && !h.stage.Resting? && m.env == x.env
    ensures HostInv(HostStep(h, x, m), x, o) && HostStep(h, x, m).s.word == h.s.word
  {
    if m.choice.Resume? {
      if PcOf(h.s, x.env).Idle? { ReturnedStep(h, x, o); } else { WorkingStep(h, x, o, m.choice.ok); }
    }
  }

  lemma ElsewhereStep(h: Host, x: External, o: Obj, m: Move)
    requires HostInv(h, x, o) && !h.closed && m.env != x.env
    ensures HostInv(HostStep(h, x, m), x, o) && SameHandle(h.s, HostStep(h, x, m).s, x)
  {
    StepSafe(h.s, m.env, m.choice);
    KnownStays(h.s, m.env, m.choice, o);
    Tracked(h.s, x);
    assert SameView(h.s, Step(h.s, m.env, m.choice).s, x.env);
    assert Mine(h.s, x.env, x.addr);
  }

  lemma HostStepKeeps(h: Host, x: External, o: Obj, m: Move)
    requires HostInv(h, x, o)
    ensures HostInv(HostStep(h, x, m), x, o) && HostStep(h, x, m).s.word == h.s.word
    ensures Untouched(h, x, m) ==> SameHandle(h.s, HostStep(h, x, m).s, x)
  {
    if h.closed { GivenUpForever(h.s, m.env, m.choice, o); }
    else if m.env != x.env { ElsewhereStep(h, x, o, m); }
    else if h.stage.Resting? { RestingStep(h, x, o, m); }
    else { BusyStep(h, x, o, m); }
  }

  lemma {:induction false} HostRunKeeps(h: Host, x: External, o: Obj, moves: seq<Move>)
    requires HostInv(h, x, o)
    ensures HostInv(HostRun(h, x, moves), x, o)
    decreases |moves|
  {
    if moves != [] {
      HostStepKeeps(h, x, o, moves[0]);
      HostRunKeeps(HostStep(h, x, moves[0]), x, o, moves[1..]);
    }
  }

  // ---------- The facade's promise ----------

  /** From any reachable state in which a node has just been wrapped, with every interleaving of all environments and
      the facade as the only caller of its handle: `_closed` means that the native node was stopped and freed, once and
      for good, also after the handle was collected or the environment torn down; outside `shutdown()` it is only then
      that the node was freed; and until then the handle is good for another `shutdown()`. */
  lemma ClosedExactlyWhenFreed(s: State, x: External, moves: seq<Move>)
    requires Reachable(s) && InUse(s, x) && PcOf(s, x.env).Idle? && x.addr in s.mem && !s.mem[x.addr].freed
    ensures var h, o := HostRun(Host(s, false, Resting), x, moves), s.mem[x.addr].obj;
      && Frees(h.s.trace, o) <= 1
      && (h.closed ==> h.stage.Resting? && GivenUp(h.s.trace, o))
      && (h.stage.Resting? ==> (h.closed <==> Frees(h.s.trace, o) == 1))
      && (!h.closed ==>
            && InUse(h.s, x) && Resident(h.s.list, h.s.mem) && Owns(h.s.list, h.s.mem, x.env, x.addr, Node)
            && x.addr in h.s.mem && h.s.mem[x.addr].obj == o && (h.s.mem[x.addr].freed <==> Frees(h.s.trace, o) == 1))
  {
    ReachableSafe(s);
    Tracked(s, x);
    var o := s.mem[x.addr].obj;
    assert Accounted(s.trace, s.mem[x.addr]);
    HostRunKeeps(Host(s, false, Resting), x, o, moves);
    var h := HostRun(Host(s, false, Resting), x, moves);
    if !h.closed {
      Tracked(h.s, x);
      assert Accounted(h.s.trace, h.s.mem[x.addr]);
    }
  }
}
